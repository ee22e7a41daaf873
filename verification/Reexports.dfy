/**
 Where a re-exported name comes from (scripts/check-frontend-dead-exports.ts): a depth-first
 search over the star-export graph, cycles included, that shares one visited set between all
 branches and stops at the first exporter.
 */
module Reexports {
  import opened Options
  import opened Sets

  /** A path kept in the maps ends in .ts or .tsx, so it is never the empty (falsy) string. */
  type File = s: string | s != "" witness "a.ts"

  datatype Graph = Graph(direct: map<File, set<string>>, star: map<File, seq<File>>) {
    predicate Exports(file: File, name: string) {
      file in direct && name in direct[file]
    }

    function Targets(file: File): seq<File> {
      if file in star then star[file] else []
    }

    /** Every file the search can meet below a start file. */
    function Files(): set<File> {
      star.Keys + set f, i | f in star && 0 <= i < |star[f]| :: star[f][i]
    }

    lemma TargetsAreFiles(file: File)
      ensures forall t | t in Targets(file) :: t in Files()
    {
      if file in star {
        forall t | t in star[file] ensures t in Files() {
          var i :| 0 <= i < |star[file]| && star[file][i] == t;
        }
      }
    }
  }

  /** The key of a visit; within one search the name is fixed, so it identifies the file. */
  function VisitKey(file: File, name: string): string { file + "#" + name }

  lemma VisitKeyInjective(f: File, g: File, name: string)
    ensures VisitKey(f, name) == VisitKey(g, name) <==> f == g
  {
    if VisitKey(f, name) == VisitKey(g, name) {
      assert VisitKey(f, name)[..|f|] == f && VisitKey(g, name)[..|g|] == g;
    }
  }

  // ----- the search as a function of the visited files

  /** Result and visited files of the search from one file. */
  function Search(g: Graph, name: string, file: File, seen: set<File>, all: set<File>): (r: (Option<File>, set<File>))
    requires file in all && g.Files() <= all
    ensures seen <= r.1 <= seen + all && file in r.1
    decreases |all - seen|, 1, 0
  {
    if file in seen then (None, seen)
    else if g.Exports(file, name) then (Some(file), seen + {file})
    else
      g.TargetsAreFiles(file);
      Shrinks(all, seen, file);
      SearchTargets(g, name, g.Targets(file), seen + {file}, all)
  }

  function SearchTargets(g: Graph, name: string, targets: seq<File>, seen: set<File>, all: set<File>): (r: (Option<File>, set<File>))
    requires g.Files() <= all && forall t | t in targets :: t in all
    ensures seen <= r.1 <= seen + all
    ensures r.0.None? ==> forall t | t in targets :: t in r.1
    decreases |all - seen|, 2, |targets|
  {
    if targets == [] then (None, seen)
    else
      var (origin, visited) := Search(g, name, targets[0], seen, all);
      if origin.Some? then (origin, visited)
      else
        Grows(all, seen, visited);
        SearchTargets(g, name, targets[1..], visited, all)
  }

  lemma Shrinks(all: set<File>, seen: set<File>, file: File)
    requires file in all && file !in seen
    ensures |all - (seen + {file})| < |all - seen|
  {
    assert all - seen == (all - (seen + {file})) + {file};
  }

  lemma Grows(all: set<File>, seen: set<File>, more: set<File>)
    requires seen <= more
    ensures |all - more| <= |all - seen|
  {
    SubsetSize(all - more, all - seen);
  }

  // ----- the reference: a visited set per path

  /** The same search where only the files on the current path are blocked. */
  function PathSearch(g: Graph, name: string, file: File, path: set<File>, all: set<File>): Option<File>
    requires file in all && g.Files() <= all
    decreases |all - path|, 1, 0
  {
    if file in path then None
    else if g.Exports(file, name) then Some(file)
    else
      g.TargetsAreFiles(file);
      Shrinks(all, path, file);
      PathSearchTargets(g, name, g.Targets(file), path + {file}, all)
  }

  function PathSearchTargets(g: Graph, name: string, targets: seq<File>, path: set<File>, all: set<File>): Option<File>
    requires g.Files() <= all && forall t | t in targets :: t in all
    decreases |all - path|, 2, |targets|
  {
    if targets == [] then None
    else
      var origin := PathSearch(g, name, targets[0], path, all);
      if origin.Some? then origin else PathSearchTargets(g, name, targets[1..], path, all)
  }

  /** seen holds no exporter, and the files in it that are off the path lead only into it. */
  ghost predicate Explored(g: Graph, name: string, seen: set<File>, path: set<File>) {
    && (forall f | f in seen :: !g.Exports(f, name))
    && (forall f, t | f in seen - path && t in g.Targets(f) :: t in seen)
  }

  /** Searching again in an explored region is futile. */
  lemma {:induction false} ExploredIsBarren(g: Graph, name: string, file: File, seen: set<File>, path: set<File>, all: set<File>)
    requires file in all && g.Files() <= all && file in seen && Explored(g, name, seen, path)
    ensures PathSearch(g, name, file, path, all) == None
    decreases |all - path|, 1, 0
  {
    if file !in path {
      g.TargetsAreFiles(file);
      Shrinks(all, path, file);
      ExploredTargetsAreBarren(g, name, g.Targets(file), seen, path + {file}, all);
    }
  }

  lemma {:induction false} ExploredTargetsAreBarren(g: Graph, name: string, targets: seq<File>, seen: set<File>, path: set<File>, all: set<File>)
    requires g.Files() <= all && Explored(g, name, seen, path) && forall t | t in targets :: t in all && t in seen
    ensures PathSearchTargets(g, name, targets, path, all) == None
    decreases |all - path|, 2, |targets|
  {
    if targets != [] {
      ExploredIsBarren(g, name, targets[0], seen, path, all);
      ExploredTargetsAreBarren(g, name, targets[1..], seen, path, all);
    }
  }

  /** Sharing the visited set changes no result, and leaves everything it visited explored. */
  lemma {:induction false} SharedMatchesPath(g: Graph, name: string, file: File, seen: set<File>, path: set<File>, all: set<File>)
    requires file in all && g.Files() <= all && path <= seen && Explored(g, name, seen, path)
    ensures Search(g, name, file, seen, all).0 == PathSearch(g, name, file, path, all)
    ensures Search(g, name, file, seen, all).0.None? ==> Explored(g, name, Search(g, name, file, seen, all).1, path)
    decreases |all - seen|, 1, 0
  {
    if file in seen {
      ExploredIsBarren(g, name, file, seen, path, all);
    } else if !g.Exports(file, name) {
      g.TargetsAreFiles(file);
      Shrinks(all, seen, file);
      SharedMatchesPathTargets(g, name, g.Targets(file), seen + {file}, path + {file}, all);
    }
  }

  lemma {:induction false} SharedMatchesPathTargets(g: Graph, name: string, targets: seq<File>, seen: set<File>, path: set<File>, all: set<File>)
    requires g.Files() <= all && path <= seen && Explored(g, name, seen, path) && forall t | t in targets :: t in all
    ensures SearchTargets(g, name, targets, seen, all).0 == PathSearchTargets(g, name, targets, path, all)
    ensures SearchTargets(g, name, targets, seen, all).0.None? ==> Explored(g, name, SearchTargets(g, name, targets, seen, all).1, path)
    decreases |all - seen|, 2, |targets|
  {
    if targets != [] {
      var (origin, visited) := Search(g, name, targets[0], seen, all);
      SharedMatchesPath(g, name, targets[0], seen, path, all);
      if origin.None? {
        Grows(all, seen, visited);
        SharedMatchesPathTargets(g, name, targets[1..], visited, path, all);
      }
    }
  }

  // ----- what the result means, read off the two maps

  ghost predicate IsExporter(g: Graph, file: File, name: string) {
    file in g.direct && name in g.direct[file]
  }

  /** steps leads from file to the last of them by entries of the star map, and never meets avoid. */
  ghost predicate Chain(g: Graph, file: File, steps: seq<File>, to: File, avoid: set<File>)
    decreases |steps|
  {
    && file !in avoid
    && if steps == [] then file == to
       else file in g.star && steps[0] in g.star[file] && Chain(g, steps[0], steps[1..], to, avoid)
  }

  ghost predicate ReachesExporter(g: Graph, name: string, file: File, avoid: set<File>) {
    exists steps, to :: Chain(g, file, steps, to, avoid) && IsExporter(g, to, name)
  }

  /** The leftmost way to an exporter: it ends at the first exporter it meets, and at every file
      it takes the first entry from which one can be reached without coming back. */
  ghost predicate Leftmost(g: Graph, name: string, file: File, steps: seq<File>, to: File, avoid: set<File>)
    decreases |steps|
  {
    && file !in avoid
    && if steps == [] then file == to && IsExporter(g, file, name)
       else
         && !IsExporter(g, file, name) && file in g.star
         && (exists i | 0 <= i < |g.star[file]| :: FirstReaching(g, name, g.star[file], i, avoid + {file}) && g.star[file][i] == steps[0])
         && Leftmost(g, name, steps[0], steps[1..], to, avoid + {file})
  }

  ghost predicate FirstReaching(g: Graph, name: string, targets: seq<File>, i: nat, avoid: set<File>)
    requires i < |targets|
  {
    ReachesExporter(g, name, targets[i], avoid) && forall j | 0 <= j < i :: !ReachesExporter(g, name, targets[j], avoid)
  }

  /** The last part of a chain that comes back to its start. */
  lemma {:induction false} ChainFrom(g: Graph, file: File, steps: seq<File>, to: File, avoid: set<File>, k: nat)
    requires Chain(g, file, steps, to, avoid) && k < |steps|
    ensures Chain(g, steps[k], steps[k + 1..], to, avoid)
    decreases |steps|
  {
    if k > 0 {
      ChainFrom(g, steps[0], steps[1..], to, avoid, k - 1);
      assert steps[1..][k - 1] == steps[k] && steps[1..][k..] == steps[k + 1..];
    }
  }

  lemma {:induction false} ChainAvoids(g: Graph, file: File, steps: seq<File>, to: File, avoid: set<File>, also: File)
    requires Chain(g, file, steps, to, avoid) && file != also && also !in steps
    ensures Chain(g, file, steps, to, avoid + {also})
    decreases |steps|
  {
    if steps != [] { ChainAvoids(g, steps[0], steps[1..], to, avoid, also); }
  }

  lemma {:induction false} ChainAvoidsLess(g: Graph, file: File, steps: seq<File>, to: File, avoid: set<File>, less: set<File>)
    requires Chain(g, file, steps, to, avoid) && less <= avoid
    ensures Chain(g, file, steps, to, less)
    decreases |steps|
  {
    if steps != [] { ChainAvoidsLess(g, steps[0], steps[1..], to, avoid, less); }
  }

  /** A chain to an exporter that is not its start leads through some entry and never back. */
  lemma {:induction false} ReachesThroughEntry(g: Graph, name: string, file: File, steps: seq<File>, to: File, avoid: set<File>) returns (i: nat)
    requires Chain(g, file, steps, to, avoid) && IsExporter(g, to, name) && !IsExporter(g, file, name)
    ensures file in g.star && i < |g.star[file]| && ReachesExporter(g, name, g.star[file][i], avoid + {file})
    decreases |steps|
  {
    if k: nat :| k < |steps| && steps[k] == file {
      ChainFrom(g, file, steps, to, avoid, k);
      i := ReachesThroughEntry(g, name, file, steps[k + 1..], to, avoid);
    } else {
      ChainAvoids(g, steps[0], steps[1..], to, avoid, file);
      i :| 0 <= i < |g.star[file]| && g.star[file][i] == steps[0];
    }
  }

  lemma ReachesFromEntry(g: Graph, name: string, file: File, i: nat, avoid: set<File>)
    requires file !in avoid && file in g.star && i < |g.star[file]| && ReachesExporter(g, name, g.star[file][i], avoid + {file})
    ensures ReachesExporter(g, name, file, avoid)
  {
    var steps, to :| Chain(g, g.star[file][i], steps, to, avoid + {file}) && IsExporter(g, to, name);
    ChainAvoidsLess(g, g.star[file][i], steps, to, avoid + {file}, avoid);
    var all := [g.star[file][i]] + steps;
    assert all[1..] == steps;
    assert Chain(g, file, all, to, avoid);
  }

  /** The search with a visited set per path finds an exporter exactly when one can be reached
      without meeting the path, and it finds the one at the end of the leftmost way. */
  lemma {:induction false} PathSearchMeaning(g: Graph, name: string, file: File, path: set<File>, all: set<File>)
    requires file in all && g.Files() <= all
    ensures PathSearch(g, name, file, path, all).Some? <==> ReachesExporter(g, name, file, path)
    ensures PathSearch(g, name, file, path, all).Some? ==>
              exists steps :: Leftmost(g, name, file, steps, PathSearch(g, name, file, path, all).value, path)
    decreases |all - path|, 1, 0
  {
    if file in path {
      forall steps, to ensures !Chain(g, file, steps, to, path) {}
    } else if g.Exports(file, name) {
      assert Chain(g, file, [], file, path);
      assert Leftmost(g, name, file, [], file, path);
    } else {
      g.TargetsAreFiles(file);
      Shrinks(all, path, file);
      var i := PathSearchTargetsMeaning(g, name, g.Targets(file), path + {file}, all);
      if i < |g.Targets(file)| {
        ReachesFromEntry(g, name, file, i, path);
        var to := PathSearch(g, name, file, path, all).value;
        var steps :| Leftmost(g, name, g.Targets(file)[i], steps, to, path + {file});
        var longer := [g.Targets(file)[i]] + steps;
        assert longer[1..] == steps;
        assert Leftmost(g, name, file, longer, to, path);
      } else if steps, to :| Chain(g, file, steps, to, path) && IsExporter(g, to, name) {
        var j := ReachesThroughEntry(g, name, file, steps, to, path);
        assert false;
      }
    }
  }

  /** i is the first target from which an exporter can be reached, or past the end. */
  lemma {:induction false} PathSearchTargetsMeaning(g: Graph, name: string, targets: seq<File>, path: set<File>, all: set<File>) returns (i: nat)
    requires g.Files() <= all && forall t | t in targets :: t in all
    ensures i <= |targets| && forall j | 0 <= j < i :: !ReachesExporter(g, name, targets[j], path)
    ensures i == |targets| ==> PathSearchTargets(g, name, targets, path, all).None?
    ensures i < |targets| ==>
              && ReachesExporter(g, name, targets[i], path) && PathSearchTargets(g, name, targets, path, all).Some?
              && exists steps :: Leftmost(g, name, targets[i], steps, PathSearchTargets(g, name, targets, path, all).value, path)
    decreases |all - path|, 2, |targets|
  {
    i := 0;
    if targets != [] {
      PathSearchMeaning(g, name, targets[0], path, all);
      if PathSearch(g, name, targets[0], path, all).None? {
        i := PathSearchTargetsMeaning(g, name, targets[1..], path, all);
        assert forall j | 0 < j < |targets| :: targets[j] == targets[1..][j - 1];
        i := i + 1;
      }
    }
  }

  /** There is only one leftmost way, and one exporter at its end. */
  lemma {:induction false} LeftmostIsUnique(g: Graph, name: string, file: File, a: seq<File>, x: File, b: seq<File>, y: File, avoid: set<File>)
    requires Leftmost(g, name, file, a, x, avoid) && Leftmost(g, name, file, b, y, avoid)
    ensures a == b && x == y
    decreases |a|
  {
    if a != [] {
      var i :| 0 <= i < |g.star[file]| && FirstReaching(g, name, g.star[file], i, avoid + {file}) && g.star[file][i] == a[0];
      var j :| 0 <= j < |g.star[file]| && FirstReaching(g, name, g.star[file], j, avoid + {file}) && g.star[file][j] == b[0];
      assert !(i < j) && !(j < i);
      LeftmostIsUnique(g, name, a[0], a[1..], x, b[1..], y, avoid + {file});
      assert a == [a[0]] + a[1..] && b == [b[0]] + b[1..];
    }
  }

  lemma {:induction false} LeftmostLeads(g: Graph, name: string, file: File, steps: seq<File>, to: File, avoid: set<File>)
    requires Leftmost(g, name, file, steps, to, avoid)
    ensures Chain(g, file, steps, to, avoid) && IsExporter(g, to, name)
    decreases |steps|
  {
    if steps != [] {
      LeftmostLeads(g, name, steps[0], steps[1..], to, avoid + {file});
      ChainAvoidsLess(g, steps[0], steps[1..], to, avoid + {file}, avoid);
    }
  }

  /** A fresh search, although it shares the visited set, finds what the search with a visited set
      per path finds: nothing when no reachable file exports the name, else the exporter at the
      end of the leftmost way. */
  lemma FreshSearch(g: Graph, name: string, file: File, all: set<File>)
    requires file in all && g.Files() <= all
    ensures Search(g, name, file, {}, all).0 == PathSearch(g, name, file, {}, all)
    ensures Search(g, name, file, {}, all).0.Some? <==> ReachesExporter(g, name, file, {})
    ensures Search(g, name, file, {}, all).0.Some? ==>
              exists steps :: Leftmost(g, name, file, steps, Search(g, name, file, {}, all).0.value, {})
  {
    SharedMatchesPath(g, name, file, {}, {}, all);
    PathSearchMeaning(g, name, file, {}, all);
  }

  // ----- the program

  /** The `seen` Set that all recursive calls mutate. */
  class SeenSet {
    var keys: set<string>

    constructor ()
      ensures keys == {}
    {
      keys := {};
    }

    /** The set holds the keys of exactly these files. */
    ghost predicate Marks(name: string, files: set<File>)
      reads this
    {
      keys == set f | f in files :: VisitKey(f, name)
    }

    method Add(file: File, name: string, ghost files: set<File>) returns (added: bool)
      requires Marks(name, files)
      modifies this
      ensures added <==> file !in files
      ensures Marks(name, files + {file})
    {
      var key := VisitKey(file, name);
      assert key in keys <==> file in files by {
        forall f | f in files && VisitKey(f, name) == key ensures f == file {
          VisitKeyInjective(f, file, name);
        }
      }
      added := key !in keys;
      keys := keys + {key};
    }
  }

  method ResolveOrigin(g: Graph, file: File, name: string, seen: SeenSet, ghost files: set<File>, ghost all: set<File>)
    returns (origin: Option<File>)
    requires file in all && g.Files() <= all && seen.Marks(name, files)
    modifies seen
    ensures origin == Search(g, name, file, files, all).0
    ensures seen.Marks(name, Search(g, name, file, files, all).1)
    decreases |all - files|
  {
    var added := seen.Add(file, name, files);
    if !added {
      assert files + {file} == files;
      return None;
    }
    if g.Exports(file, name) { return Some(file); }
    g.TargetsAreFiles(file);
    Shrinks(all, files, file);
    var targets := g.Targets(file);
    ghost var visited := files + {file};
    for i := 0 to |targets|
      invariant files + {file} <= visited && seen.Marks(name, visited)
      invariant SearchTargets(g, name, targets, files + {file}, all) == SearchTargets(g, name, targets[i..], visited, all)
    {
      assert targets[i..][1..] == targets[i + 1..];
      Grows(all, files + {file}, visited);
      var found := ResolveOrigin(g, targets[i], name, seen, visited, all);
      visited := Search(g, name, targets[i], visited, all).1;
      if found.Some? { return found; }
    }
    origin := None;
  }

  /** The call without a visited set. */
  method ResolveOriginFresh(g: Graph, file: File, name: string) returns (origin: Option<File>)
    ensures origin == PathSearch(g, name, file, {}, g.Files() + {file})
    ensures origin.Some? <==> ReachesExporter(g, name, file, {})
    ensures origin.Some? ==> exists steps :: Leftmost(g, name, file, steps, origin.value, {})
  {
    ghost var all := g.Files() + {file};
    FreshSearch(g, name, file, all);
    var seen := new SeenSet();
    origin := ResolveOrigin(g, file, name, seen, {}, all);
  }

  // ----- recording uses

  datatype Kind = ImportUse | NamespaceUse

  datatype UseSite = UseSite(fromFile: File, kind: Kind)

  /** One call of recordUse. */
  datatype Call = Call(target: File, name: string, site: UseSite)

  /** Two exports share a key exactly when the path of one goes on, after the separator, with the
      beginning of the other's name: "a.ts" exporting "b.ts#c" and "a.ts#b.ts" exporting "c". */
  predicate SharesKey(f1: File, n1: string, f2: File, n2: string) {
    || (f1 == f2 && n1 == n2)
    || (|f1| < |f2| && f2[..|f1|] == f1 && f2[|f1|] == '#' && n1 == f2[|f1| + 1..] + "#" + n2)
    || (|f2| < |f1| && f1[..|f2|] == f2 && f1[|f2|] == '#' && n2 == f1[|f2| + 1..] + "#" + n1)
  }

  lemma UseKeyEqualIff(f1: File, n1: string, f2: File, n2: string)
    ensures VisitKey(f1, n1) == VisitKey(f2, n2) <==> SharesKey(f1, n1, f2, n2)
  {
    if |f1| <= |f2| { KeyEqualIff(f1, n1, f2, n2); } else { KeyEqualIff(f2, n2, f1, n1); }
  }

  lemma KeyEqualIff(f1: File, n1: string, f2: File, n2: string)
    requires |f1| <= |f2|
    ensures VisitKey(f1, n1) == VisitKey(f2, n2) <==> SharesKey(f1, n1, f2, n2)
  {
    var k1, k2 := VisitKey(f1, n1), VisitKey(f2, n2);
    assert k1[..|f1|] == f1 && k1[|f1|] == '#' && k1[|f1| + 1..] == n1;
    if |f1| == |f2| {
      assert k2[..|f1|] == f2 && k2[|f1| + 1..] == n2;
    } else {
      assert k2[..|f1|] == f2[..|f1|] && k2[|f1|] == f2[|f1|];
      assert k2[|f1| + 1..] == f2[|f1| + 1..] + "#" + n2;
      assert k1 == k1[..|f1|] + [k1[|f1|]] + k1[|f1| + 1..];
      assert k2 == k2[..|f1|] + [k2[|f1|]] + k2[|f1| + 1..];
    }
  }

  /** The call concerns the export and comes from another file. */
  predicate CountsFor(call: Call, key: string) {
    VisitKey(call.target, call.name) == key && call.site.fromFile != call.target
  }

  /** The sites of the calls that count for the key, each once, in order of first occurrence. */
  function SitesFor(calls: seq<Call>, key: string): seq<UseSite> {
    if calls == [] then []
    else
      var sites, last := SitesFor(calls[..|calls| - 1], key), calls[|calls| - 1];
      if CountsFor(last, key) && last.site !in sites then sites + [last.site] else sites
  }

  lemma {:induction false} SitesForSpec(calls: seq<Call>, key: string)
    ensures forall i, j | 0 <= i < j < |SitesFor(calls, key)| :: SitesFor(calls, key)[i] != SitesFor(calls, key)[j]
    ensures forall call | call in calls && CountsFor(call, key) :: call.site in SitesFor(calls, key)
    ensures forall site | site in SitesFor(calls, key) :: exists call | call in calls :: CountsFor(call, key) && call.site == site
  {
    if calls != [] {
      var init, last := calls[..|calls| - 1], calls[|calls| - 1];
      SitesForSpec(init, key);
      assert calls == init + [last];
      forall site | site in SitesFor(calls, key) ensures exists call | call in calls :: CountsFor(call, key) && call.site == site {
        if site in SitesFor(init, key) {
          var call :| call in init && CountsFor(call, key) && call.site == site;
          assert call in calls;
        } else {
          assert last in calls;
        }
      }
    }
  }

  /** A call that counts for the key, and the first from its site. */
  ghost predicate FirstFromSite(calls: seq<Call>, key: string, n: nat) {
    n < |calls| && CountsFor(calls[n], key)
    && forall m | 0 <= m < n && CountsFor(calls[m], key) :: calls[m].site != calls[n].site
  }

  /** The sites are those of the calls at the given increasing positions, each its first. */
  ghost predicate FirstAt(calls: seq<Call>, key: string, sites: seq<UseSite>, at: seq<nat>) {
    && |at| == |sites| && (forall i, j | 0 <= i < j < |at| :: at[i] < at[j])
    && forall i | 0 <= i < |at| :: FirstFromSite(calls, key, at[i]) && calls[at[i]].site == sites[i]
  }

  /** The sites stand in the order of their first calls. */
  lemma {:induction false} SitesInOrder(calls: seq<Call>, key: string) returns (at: seq<nat>)
    ensures FirstAt(calls, key, SitesFor(calls, key), at)
  {
    at := [];
    if calls != [] {
      var init, last := calls[..|calls| - 1], calls[|calls| - 1];
      at := SitesInOrder(init, key);
      FirstAtStays(calls, key, SitesFor(init, key), at);
      if CountsFor(last, key) && last.site !in SitesFor(init, key) {
        LastIsFirst(calls, key);
        FirstAtExtends(calls, key, SitesFor(init, key), at);
        at := at + [|init|];
      }
    }
  }

  lemma FirstAtStays(calls: seq<Call>, key: string, sites: seq<UseSite>, at: seq<nat>)
    requires calls != [] && FirstAt(calls[..|calls| - 1], key, sites, at)
    ensures FirstAt(calls, key, sites, at) && forall i | 0 <= i < |at| :: at[i] < |calls| - 1
  {
    forall i | 0 <= i < |at| ensures at[i] < |calls| - 1 && FirstFromSite(calls, key, at[i]) && calls[at[i]].site == sites[i] {
      FirstStaysFirst(calls, key, at[i]);
    }
  }

  lemma FirstAtExtends(calls: seq<Call>, key: string, sites: seq<UseSite>, at: seq<nat>)
    requires FirstAt(calls, key, sites, at) && calls != [] && forall i | 0 <= i < |at| :: at[i] < |calls| - 1
    requires FirstFromSite(calls, key, |calls| - 1)
    ensures FirstAt(calls, key, sites + [calls[|calls| - 1].site], at + [|calls| - 1])
  {}

  lemma FirstStaysFirst(calls: seq<Call>, key: string, n: nat)
    requires calls != [] && FirstFromSite(calls[..|calls| - 1], key, n)
    ensures FirstFromSite(calls, key, n) && calls[n] == calls[..|calls| - 1][n]
  {
    assert forall m | 0 <= m <= n :: calls[m] == calls[..|calls| - 1][m];
  }

  lemma LastIsFirst(calls: seq<Call>, key: string)
    requires calls != [] && CountsFor(calls[|calls| - 1], key)
    requires calls[|calls| - 1].site !in SitesFor(calls[..|calls| - 1], key)
    ensures FirstFromSite(calls, key, |calls| - 1)
  {
    var init := calls[..|calls| - 1];
    SitesForSpec(init, key);
    forall m | 0 <= m < |init| && CountsFor(calls[m], key) ensures calls[m].site != calls[|calls| - 1].site {
      assert init[m] in init;
    }
  }

  /** The map holds the sites of every key that has any. */
  ghost predicate Recorded(uses: map<string, seq<UseSite>>, calls: seq<Call>) {
    forall key :: (if key in uses then uses[key] else []) == SitesFor(calls, key) && (key in uses ==> uses[key] != [])
  }

  class UseMap {
    var usesByExport: map<string, seq<UseSite>>

    constructor ()
      ensures Recorded(usesByExport, [])
    {
      usesByExport := map[];
    }

    method RecordUse(call: Call, ghost calls: seq<Call>)
      requires Recorded(usesByExport, calls)
      modifies this
      ensures Recorded(usesByExport, calls + [call])
    {
      assert (calls + [call])[..|calls|] == calls;
      if call.target == call.site.fromFile { return; }
      var key := VisitKey(call.target, call.name);
      var uses := if key in usesByExport then usesByExport[key] else [];
      if call.site !in uses {
        uses := uses + [call.site];
      }
      usesByExport := usesByExport[key := uses];
    }

    /** An export has no entry exactly when no use from another file was recorded under its key. */
    method IsDead(target: File, name: string, ghost calls: seq<Call>) returns (dead: bool)
      requires Recorded(usesByExport, calls)
      ensures dead <==> KeyUnused(calls, target, name)
    {
      ghost var key := VisitKey(target, name);
      dead := VisitKey(target, name) !in usesByExport;
      SitesForSpec(calls, key);
      assert forall call | call in calls :: CountsFor(call, key) <==> CountsFor(call, VisitKey(target, name));
      if !dead {
        assert SitesFor(calls, key)[0] in SitesFor(calls, key);
      }
    }
  }

  /** What IsDead answers. */
  ghost predicate KeyUnused(calls: seq<Call>, target: File, name: string) {
    forall call | call in calls :: !CountsFor(call, VisitKey(target, name))
  }

  /** What it is asked: no other file uses the export. */
  ghost predicate Unused(calls: seq<Call>, target: File, name: string) {
    forall call | call in calls && call.target == target && call.name == name :: call.site.fromFile == target
  }

  /** Another export with the same key is used from outside its file. */
  ghost predicate Shadowed(calls: seq<Call>, target: File, name: string) {
    exists call | call in calls && (call.target != target || call.name != name) ::
      SharesKey(call.target, call.name, target, name) && call.site.fromFile != call.target
  }

  /** A dead export is unused, always; an unused one is found dead exactly if no used export
      shares its key, in particular when its name, or every path, is free of the separator. */
  lemma DeadIffUnusedAndUnshadowed(calls: seq<Call>, target: File, name: string)
    ensures KeyUnused(calls, target, name) <==> Unused(calls, target, name) && !Shadowed(calls, target, name)
    ensures (forall call | call in calls :: '#' !in call.name) && '#' !in name ==> !Shadowed(calls, target, name)
    ensures (forall call | call in calls :: '#' !in call.target) && '#' !in target ==> !Shadowed(calls, target, name)
  {
    forall call | call in calls
      ensures VisitKey(call.target, call.name) == VisitKey(target, name) <==> SharesKey(call.target, call.name, target, name)
    {
      UseKeyEqualIff(call.target, call.name, target, name);
    }
  }

  /** Names may be string literals: here an unused export is not found dead. */
  lemma UnusedButNotDead(main: File)
    requires main != "a.ts#b.ts"
    ensures var calls := [Call("a.ts#b.ts", "c", UseSite(main, ImportUse))];
            Unused(calls, "a.ts", "b.ts#c") && !KeyUnused(calls, "a.ts", "b.ts#c")
  {
    var calls := [Call("a.ts#b.ts", "c", UseSite(main, ImportUse))];
    assert VisitKey("a.ts#b.ts", "c") == VisitKey("a.ts", "b.ts#c");
    assert CountsFor(calls[0], VisitKey("a.ts", "b.ts#c"));
  }
}
