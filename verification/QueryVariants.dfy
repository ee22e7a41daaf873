/**
 The query formulations that a split hands to its children (internal/rlm/lambda_classify.go).
 The keyword filter and the symbol extractor are arbitrary string functions here.
 */
module QueryVariants {
  import opened Text
  import opened Saturating

  datatype Formulator = Formulator(keywords: string -> string, symbols: string -> string)

  /** The white-space separated words of s. */
  function Fields(s: string): seq<string> {
    if s == "" then []
    else if IsSpace(s[0]) then Fields(s[1..])
    else
      var n := WordLength(s);
      [s[..n]] + Fields(s[n..])
  }

  function WordLength(s: string): (n: nat)
    requires s != "" && !IsSpace(s[0])
    ensures 1 <= n <= |s|
  {
    if |s| > 1 && !IsSpace(s[1]) then 1 + WordLength(s[1..]) else 1
  }

  /** The words, as laws: a blank between two texts separates their words, and a text without
      white space is one word. */
  lemma {:induction false} FieldsLaws(a: string, blank: char, b: string)
    requires IsSpace(blank)
    ensures Fields(a + [blank] + b) == Fields(a) + Fields(b)
    decreases |a|
  {
    if a == "" {
      BlankSkipped([blank] + b, b);
      assert a + [blank] + b == [blank] + b;
    } else if IsSpace(a[0]) {
      FieldsLaws(a[1..], blank, b);
      BlankSkipped(a, a[1..]);
      Dropped(a, blank, b, 1);
      BlankSkipped(a + [blank] + b, a[1..] + [blank] + b);
    } else {
      var n := WordLength(a);
      FieldsLaws(a[n..], blank, b);
      WordThenRest(a, blank, b, n);
    }
  }

  lemma Dropped(a: string, blank: char, b: string, n: nat)
    requires n <= |a|
    ensures (a + [blank] + b)[n..] == a[n..] + [blank] + b && (a + [blank] + b)[..n] == a[..n]
  {}

  lemma WordThenRest(a: string, blank: char, b: string, n: nat)
    requires IsSpace(blank) && a != "" && !IsSpace(a[0]) && n == WordLength(a)
    requires Fields(a[n..] + [blank] + b) == Fields(a[n..]) + Fields(b)
    ensures Fields(a + [blank] + b) == Fields(a) + Fields(b)
  {
    var text := a + [blank] + b;
    WordLengthSpec(a);
    FirstWord(a, n, a[n..]);
    Dropped(a, blank, b, n);
    FirstWord(text, n, a[n..] + [blank] + b);
    WordFirst([a[..n]], Fields(a[n..]), Fields(b));
  }

  lemma WordFirst(word: seq<string>, x: seq<string>, y: seq<string>)
    ensures word + (x + y) == word + x + y
  {}

  lemma OneWord(a: string)
    requires a != "" && forall i | 0 <= i < |a| :: !IsSpace(a[i])
    ensures Fields("") == [] && Fields(a) == [a]
  {
    FirstWord(a, |a|, "");
  }

  lemma BlankSkipped(s: string, rest: string)
    requires s != "" && IsSpace(s[0]) && s[1..] == rest
    ensures Fields(s) == Fields(rest)
  {}

  lemma FirstWord(s: string, n: nat, rest: string)
    requires 1 <= n <= |s| && s[n..] == rest && (forall i | 0 <= i < n :: !IsSpace(s[i])) && (n < |s| ==> IsSpace(s[n]))
    ensures Fields(s) == [s[..n]] + Fields(rest)
    ensures n == |s| ==> s[..n] == s
  {
    WordEndsAt(s, n);
  }

  lemma {:induction false} WordLengthSpec(s: string)
    requires s != "" && !IsSpace(s[0])
    ensures forall i | 0 <= i < WordLength(s) :: !IsSpace(s[i])
    ensures WordLength(s) < |s| ==> IsSpace(s[WordLength(s)])
  {
    if |s| > 1 && !IsSpace(s[1]) { WordLengthSpec(s[1..]); }
  }

  lemma WordEndsAt(s: string, n: nat)
    requires 1 <= n <= |s| && (forall i | 0 <= i < n :: !IsSpace(s[i])) && (n < |s| ==> IsSpace(s[n]))
    ensures WordLength(s) == n
  {
    WordLengthSpec(s);
  }

  function Tail(words: seq<string>): string {
    Join(words[Max(0, |words| - 4)..], " ")
  }

  function Admit(variants: seq<string>, variant: string, query: string): seq<string> {
    if variant != query && variant !in variants then variants + [variant] else variants
  }

  function AdmitNonEmpty(variants: seq<string>, variant: string, query: string): seq<string> {
    if variant != "" then Admit(variants, variant, query) else variants
  }

  /** Every distinct formulation, the query first. */
  function Formulations(f: Formulator, query: string): (r: seq<string>)
    ensures r != [] && r[0] == query && Distinct(r)
  {
    var withKeywords := AdmitNonEmpty([query], f.keywords(query), query);
    var withSymbols := AdmitNonEmpty(withKeywords, f.symbols(query), query);
    if |Fields(query)| > 2 then Admit(withSymbols, Tail(Fields(query)), query) else withSymbols
  }

  /** Exactly the query, its keywords and symbols unless blank, and its last four words when it
      has more than two. */
  lemma FormulationsSpec(f: Formulator, query: string)
    ensures var words := Fields(query); var tail := Join(words[Max(0, |words| - 4)..], " ");
            forall v :: v in Formulations(f, query) <==>
              v == query || (v == f.keywords(query) && v != "") || (v == f.symbols(query) && v != "") || (v == tail && |words| > 2)
  {
    var words := Fields(query);
    var one := AdmitNonEmpty([query], f.keywords(query), query);
    var two := AdmitNonEmpty(one, f.symbols(query), query);
    forall v ensures v in Formulations(f, query) <==>
                v == query || (v == f.keywords(query) && v != "") || (v == f.symbols(query) && v != "") || (v == Tail(words) && |words| > 2)
    {
      Admitted([query], f.keywords(query), query, v);
      Admitted(one, f.symbols(query), query, v);
      Admitted(two, Tail(words), query, v);
    }
  }

  lemma Admitted(variants: seq<string>, variant: string, query: string, v: string)
    requires query in variants
    ensures query in AdmitNonEmpty(variants, variant, query)
    ensures v in Admit(variants, variant, query) <==> v in variants || v == variant
    ensures v in AdmitNonEmpty(variants, variant, query) <==> v in variants || (v == variant && v != "")
  {}

  /** They come in that order: at increasing positions, each at its first. */
  lemma FormulationsOrder(f: Formulator, query: string) returns (at: seq<nat>)
    ensures var list := Formulations(f, query); var words := Fields(query);
            var all := [query, f.keywords(query), f.symbols(query), Join(words[Max(0, |words| - 4)..], " ")];
            && |at| == |list| && (forall i, j | 0 <= i < j < |at| :: at[i] < at[j])
            && forall i | 0 <= i < |at| :: at[i] < 4 && all[at[i]] == list[i] && forall j | 0 <= j < at[i] :: all[j] != list[i]
  {
    var keywords, symbols, words := f.keywords(query), f.symbols(query), Fields(query);
    var one := AdmitNonEmpty([query], keywords, query);
    var two := AdmitNonEmpty(one, symbols, query);
    at := [0];
    if |one| > 1 { at := at + [1]; }
    if |two| > |one| { at := at + [2]; }
    if |words| > 2 {
      TailIsNotEmpty(query);
      if |Admit(two, Tail(words), query)| > |two| { at := at + [3]; }
    }
  }

  lemma {:induction false} WordsAreNotEmpty(s: string)
    ensures "" !in Fields(s)
    decreases |s|
  {
    if s != "" {
      if IsSpace(s[0]) { WordsAreNotEmpty(s[1..]); } else { WordsAreNotEmpty(s[WordLength(s)..]); }
    }
  }

  lemma TailIsNotEmpty(query: string)
    requires |Fields(query)| > 2
    ensures Tail(Fields(query)) != ""
  {
    WordsAreNotEmpty(query);
  }

  /** The formulations cut or padded with the query to exactly k entries. */
  function Variants(f: Formulator, query: string, k: int): seq<string> {
    if k <= 1 then [query]
    else
      var all := Formulations(f, query);
      if |all| > k then all[..k] else all + seq(k - |all|, _ => query)
  }

  /** A split has exactly k tasks; the first is the query itself, and only the query repeats. */
  lemma VariantsSpec(f: Formulator, query: string, k: int)
    ensures |Variants(f, query, k)| == Max(1, k)
    ensures Variants(f, query, k)[0] == query
    ensures forall i, j | 0 <= i < j < |Variants(f, query, k)| && Variants(f, query, k)[i] == Variants(f, query, k)[j] ::
              Variants(f, query, k)[j] == query
    ensures forall v | v in Formulations(f, query) && k >= |Formulations(f, query)| && k > 1 :: v in Variants(f, query, k)
  {}

  method CollectFormulations(f: Formulator, query: string) returns (variants: seq<string>)
    ensures variants == Formulations(f, query)
  {
    variants := [query];
    var keywords := f.keywords(query);
    if keywords != "" && keywords != query && keywords !in variants {
      variants := variants + [keywords];
    }
    var symbols := f.symbols(query);
    if symbols != "" && symbols != query && symbols !in variants {
      variants := variants + [symbols];
    }
    var words := Fields(query);
    if |words| > 2 {
      var tail := Tail(words);
      if tail != query && tail !in variants {
        variants := variants + [tail];
      }
    }
  }

  method QueryVariants(f: Formulator, query: string, k: Int64) returns (variants: seq<string>)
    ensures variants == Variants(f, query, k)
    ensures |variants| == Max(1, k) && variants[0] == query
    ensures forall i, j | 0 <= i < j < |variants| && variants[i] == variants[j] :: variants[j] == query
  {
    VariantsSpec(f, query, k);
    if k <= 1 { return [query]; }
    variants := CollectFormulations(f, query);
    ghost var all := variants;
    if |variants| > k {
      variants := variants[..k];
    }
    while |variants| < k
      invariant |all| > k ==> variants == all[..k]
      invariant |all| <= k ==> |all| <= |variants| <= k && variants == all + seq(|variants| - |all|, _ => query)
    {
      variants := variants + [query];
    }
  }
}
