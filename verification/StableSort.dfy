/** A stable sort by an integer key, the specification of Go's sort.SliceStable. */
module StableSort {

  /** Insert after every element whose key is not greater: the stable position. */
  function InsertBy<T>(x: T, sorted: seq<T>, key: T -> int): seq<T> {
    if sorted == [] then [x]
    else if key(x) < key(sorted[|sorted| - 1]) then
      InsertBy(x, sorted[..|sorted| - 1], key) + [sorted[|sorted| - 1]]
    else sorted + [x]
  }

  function SortBy<T>(s: seq<T>, key: T -> int): seq<T> {
    if s == [] then [] else InsertBy(s[|s| - 1], SortBy(s[..|s| - 1], key), key)
  }

  /** The elements with key k, in order. */
  function AtKey<T>(s: seq<T>, key: T -> int, k: int): seq<T> {
    if s == [] then [] else AtKey(s[..|s| - 1], key, k) + OneAtKey(s[|s| - 1], key, k)
  }

  function OneAtKey<T>(x: T, key: T -> int, k: int): seq<T> {
    if key(x) == k then [x] else []
  }

  ghost predicate InKeyOrder<T>(s: seq<T>, key: T -> int) {
    forall i, j | 0 <= i < j < |s| :: key(s[i]) <= key(s[j])
  }

  lemma AtKeyOneMore<T>(s: seq<T>, x: T, key: T -> int, k: int)
    ensures AtKey(s + [x], key, k) == AtKey(s, key, k) + OneAtKey(x, key, k)
  {
    assert (s + [x])[..|s|] == s;
  }

  lemma {:induction false} InsertKeepsOrder<T>(x: T, s: seq<T>, key: T -> int)
    requires InKeyOrder(s, key)
    ensures InKeyOrder(InsertBy(x, s, key), key)
    ensures forall y :: y in InsertBy(x, s, key) ==> y == x || y in s
  {
    if s != [] && key(x) < key(s[|s| - 1]) {
      var init, last := s[..|s| - 1], s[|s| - 1];
      InsertKeepsOrder(x, init, key);
      var inner := InsertBy(x, init, key);
      forall i | 0 <= i < |inner| ensures key(inner[i]) <= key(last) {
        assert inner[i] in inner;
      }
    }
  }

  lemma Commute<T>(a: seq<T>, b: seq<T>, c: seq<T>)
    requires b == [] || c == []
    ensures a + b + c == a + c + b
  {}

  lemma {:induction false} InsertIsStable<T>(x: T, s: seq<T>, key: T -> int, k: int)
    ensures AtKey(InsertBy(x, s, key), key, k) == AtKey(s, key, k) + OneAtKey(x, key, k)
  {
    if s == [] {
      AtKeyOneMore([], x, key, k);
      assert [] + [x] == [x];
    } else if key(x) < key(s[|s| - 1]) {
      var init, last := s[..|s| - 1], s[|s| - 1];
      InsertIsStable(x, init, key, k);
      AtKeyOneMore(InsertBy(x, init, key), last, key, k);
      Commute(AtKey(init, key, k), OneAtKey(x, key, k), OneAtKey(last, key, k));
    } else {
      AtKeyOneMore(s, x, key, k);
    }
  }

  /** Sorted by key, and for every key the same elements in the same order as before. */
  lemma {:induction false} SortIsStable<T>(s: seq<T>, key: T -> int, k: int)
    ensures InKeyOrder(SortBy(s, key), key)
    ensures AtKey(SortBy(s, key), key, k) == AtKey(s, key, k)
  {
    if s != [] {
      SortIsStable(s[..|s| - 1], key, k);
      InsertKeepsOrder(s[|s| - 1], SortBy(s[..|s| - 1], key), key);
      InsertIsStable(s[|s| - 1], SortBy(s[..|s| - 1], key), key, k);
    }
  }

  /** Elements with one common key keep their order. */
  lemma {:induction false} SortOfTies<T>(s: seq<T>, key: T -> int, k: int)
    requires forall i | 0 <= i < |s| :: key(s[i]) == k
    ensures SortBy(s, key) == s
  {
    if s != [] { SortOfTies(s[..|s| - 1], key, k); }
  }
}
