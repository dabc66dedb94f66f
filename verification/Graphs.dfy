/** A stack-driven walk over a finite, possibly cyclic graph. */
module Walks {
  import opened Terms

  datatype Digraph = Digraph(start: set<Name>, edges: map<Name, set<Name>>)

  function Next(g: Digraph, n: Name): set<Name> {
    if n in g.edges then g.edges[n] else {}
  }

  /** A chain of edges from a start node to `n`. */
  ghost predicate IsPath(g: Digraph, n: Name, path: seq<Name>) {
    && path != [] && path[0] in g.start && path[|path| - 1] == n
    && forall i :: 0 <= i < |path| - 1 ==> path[i + 1] in Next(g, path[i])
  }

  ghost predicate Reachable(g: Digraph, n: Name) {
    exists path :: IsPath(g, n, path)
  }

  ghost predicate ClosedNames(g: Digraph, names: set<Name>) {
    g.start <= names && forall n :: n in names ==> Next(g, n) <= names
  }

  lemma StartReachable(g: Digraph, n: Name)
    requires n in g.start
    ensures Reachable(g, n)
  {
    assert IsPath(g, n, [n]);
  }

  lemma NextReachable(g: Digraph, n: Name, m: Name)
    requires Reachable(g, n) && m in Next(g, n)
    ensures Reachable(g, m)
  {
    var path :| IsPath(g, n, path);
    assert IsPath(g, m, path + [m]);
  }

  lemma {:induction false} PathStaysInside(g: Digraph, names: set<Name>, n: Name, path: seq<Name>)
    requires ClosedNames(g, names) && IsPath(g, n, path)
    ensures n in names
    decreases |path|
  {
    if |path| > 1 {
      var m := path[|path| - 2];
      assert IsPath(g, m, path[..|path| - 1]);
      PathStaysInside(g, names, m, path[..|path| - 1]);
      assert path[|path| - 2 + 1] in Next(g, m);
    }
  }

  function Elements(names: seq<Name>): set<Name> {
    set n | n in names
  }

  /** Everything known so far, visited or waiting, covers the start and the successors of the visited. */
  ghost predicate WalkOk(g: Digraph, all: set<Name>, seen: set<Name>, stack: seq<Name>) {
    var known := seen + Elements(stack);
    && known <= all
    && (forall n :: n in known ==> Reachable(g, n))
    && g.start <= known
    && (forall n :: n in seen ==> Next(g, n) <= known)
  }

  /** `next` is the stack after visiting its top: new successors on top of the rest. */
  ghost predicate Visited(g: Digraph, seen: set<Name>, stack: seq<Name>, next: seq<Name>) {
    && stack != []
    && var l := |stack| - 1;
       && l <= |next| && next[..l] == stack[..l]
       && Elements(next[l..]) == Next(g, stack[l]) - seen
  }

  lemma WalkSteps(g: Digraph, all: set<Name>, seen: set<Name>, stack: seq<Name>, next: seq<Name>)
    requires WalkOk(g, all, seen, stack) && Visited(g, seen, stack, next)
    requires Next(g, stack[|stack| - 1]) <= all
    ensures WalkOk(g, all, seen + {stack[|stack| - 1]}, next)
    ensures stack[|stack| - 1] !in seen ==> all - (seen + {stack[|stack| - 1]}) < all - seen
  {
    var l := |stack| - 1;
    var n := stack[l];
    assert stack == stack[..l] + [n] && next == next[..l] + next[l..];
    assert Elements(stack) == Elements(stack[..l]) + {n};
    assert Elements(next) == Elements(stack[..l]) + Elements(next[l..]);
    assert seen + {n} + Elements(next) == seen + Elements(stack) + Next(g, n);
    assert Reachable(g, n);
    forall m | m in Next(g, n) ensures Reachable(g, m) { NextReachable(g, n, m); }
  }

  /** The walk visits exactly what is reachable. */
  lemma WalkEnds(g: Digraph, all: set<Name>, seen: set<Name>)
    requires WalkOk(g, all, seen, [])
    ensures ClosedNames(g, seen)
    ensures forall n :: n in seen <==> Reachable(g, n)
  {
    assert seen + Elements([]) == seen;
    forall n | Reachable(g, n) ensures n in seen {
      var path :| IsPath(g, n, path);
      PathStaysInside(g, seen, n, path);
    }
  }

  /** Whether the top of the stack was visited before. */
  predicate TopSeen(seen: set<Name>, stack: seq<Name>) {
    stack != [] && stack[|stack| - 1] in seen
  }

  /** A repeated visit queues only new names, so either the top is new afterwards or the stack is shorter. */
  lemma RepeatedVisit(g: Digraph, seen: set<Name>, stack: seq<Name>, next: seq<Name>)
    requires Visited(g, seen, stack, next) && TopSeen(seen, stack)
    ensures !TopSeen(seen, next) || |next| < |stack|
  {
    var l := |stack| - 1;
    if |next| > l {
      assert next[|next| - 1] == next[l..][|next| - 1 - l];
      assert next[|next| - 1] in Elements(next[l..]);
    }
  }
}

/** The dependency graph with its caches, and the walk that fills them. */
module Graphs {
  import opened Terms
  import opened Universes
  import opened Walks

  /** What the package index answers; a missing key is a "not found" error. */
  datatype Index = Index(versions: map<Name, set<Version>>, releases: map<PackageVersion, seq<Requirement>>)

  function FetchedOrEmpty(ix: Index, pv: PackageVersion): seq<Requirement> {
    if pv in ix.releases then ix.releases[pv] else []
  }

  function NamesOf(reqs: seq<Requirement>): set<Name> {
    set r | r in reqs :: r.name
  }

  /** The packages that the given versions of `n` depend on. */
  function Successors(ix: Index, n: Name, versions: set<Version>): set<Name> {
    set v, r | v in versions && r in FetchedOrEmpty(ix, Release(n, v)) :: r.name
  }

  function AllNames(ix: Index, reqs: seq<Requirement>): set<Name> {
    NamesOf(reqs) + set pv, r | pv in ix.releases && r in ix.releases[pv] :: r.name
  }

  /** An edge from a package to each package that any of its versions depends on. */
  function PackageGraph(ix: Index, reqs: seq<Requirement>): Digraph {
    Digraph(NamesOf(reqs), map n | n in AllNames(ix, reqs) :: Successors(ix, n, VersionsIn(ix.versions, n)))
  }

  lemma OneMoreVersion(ix: Index, n: Name, versions: set<Version>, v: Version)
    ensures Successors(ix, n, versions + {v}) ==
            Successors(ix, n, versions) + NamesOf(FetchedOrEmpty(ix, Release(n, v)))
  {
  }

  lemma EdgesAreDependencies(ix: Index, reqs: seq<Requirement>, n: Name)
    requires n in AllNames(ix, reqs)
    ensures Next(PackageGraph(ix, reqs), n) == Successors(ix, n, VersionsIn(ix.versions, n))
    ensures Next(PackageGraph(ix, reqs), n) <= AllNames(ix, reqs)
  {
    forall m | m in Successors(ix, n, VersionsIn(ix.versions, n)) ensures m in AllNames(ix, reqs) {
      var v, r :| v in VersionsIn(ix.versions, n) && r in FetchedOrEmpty(ix, Release(n, v)) && r.name == m;
      assert Release(n, v) in ix.releases;
    }
  }

  function Unvisited(reqs: seq<Requirement>, visited: set<Name>): (r: seq<Name>)
    ensures Elements(r) == NamesOf(reqs) - visited
  {
    if reqs == [] then []
    else
      assert forall r :: r in reqs <==> r == reqs[0] || r in reqs[1..];
      var rest := Unvisited(reqs[1..], visited);
      assert NamesOf(reqs) == {reqs[0].name} + NamesOf(reqs[1..]);
      var first := if reqs[0].name !in visited then [reqs[0].name] else [];
      assert Elements(first + rest) == Elements(first) + Elements(rest);
      first + rest
  }

  lemma WalkStarts(ix: Index, reqs: seq<Requirement>)
    ensures WalkOk(PackageGraph(ix, reqs), AllNames(ix, reqs), {}, Unvisited(reqs, {}))
  {
    forall n | n in NamesOf(reqs) ensures Reachable(PackageGraph(ix, reqs), n) { StartReachable(PackageGraph(ix, reqs), n); }
  }

  ghost predicate AllProbed(ix: Index, fetched: set<PackageVersion>, names: set<Name>) {
    forall n, v :: n in names && v in VersionsIn(ix.versions, n) ==> Release(n, v) in fetched
  }

  predicate Invalid(known: map<Name, set<Version>>, n: Name, v: Version) {
    n in known && v in known[n]
  }

  /** The caches agree with the index, and known-invalid versions are those probed without success. */
  ghost predicate CachesOk(ix: Index, fetched: map<PackageVersion, seq<Requirement>>, known: map<Name, set<Version>>) {
    && (forall pv :: pv in fetched && pv.Release? ==> fetched[pv] == FetchedOrEmpty(ix, pv))
    && (forall n, v :: Invalid(known, n, v) <==> Release(n, v) in fetched && Release(n, v) !in ix.releases)
  }

  lemma RootRecorded(ix: Index, fetched: map<PackageVersion, seq<Requirement>>, known: map<Name, set<Version>>,
                     reqs: seq<Requirement>)
    requires CachesOk(ix, fetched, known)
    ensures CachesOk(ix, fetched[RootVersion := reqs], known)
  {
  }

  class Graph {
    const index: Index
    var dependencyMap: map<PackageVersion, seq<Requirement>>
    var knownInvalid: map<Name, set<Version>>

    ghost predicate Valid()
      reads this
    {
      CachesOk(index, dependencyMap, knownInvalid)
    }

    constructor (ix: Index)
      ensures Valid() && index == ix && dependencyMap == map[] && knownInvalid == map[]
    {
      index, dependencyMap, knownInvalid := ix, map[], map[];
    }

    method DependenciesFor(pv: PackageVersion) returns (deps: seq<Requirement>)
      requires Valid() && (pv.RootVersion? ==> pv in dependencyMap)
      modifies this
      ensures Valid()
      ensures deps == if pv.RootVersion? then old(dependencyMap)[pv] else FetchedOrEmpty(index, pv)
      ensures dependencyMap == old(dependencyMap)[pv := deps]
      ensures old(knownInvalid).Keys <= knownInvalid.Keys
    {
      if pv in dependencyMap {
        deps := dependencyMap[pv];
        assert dependencyMap == dependencyMap[pv := deps];
        return;
      }
      if pv in index.releases {
        deps := index.releases[pv];
      } else {
        var known := if pv.name in knownInvalid then knownInvalid[pv.name] else {};
        knownInvalid := knownInvalid[pv.name := known + {pv.version}];
        deps := [];
      }
      dependencyMap := dependencyMap[pv := deps];
    }

    /** Fetches the dependencies of every version of a package and queues the packages not visited yet. */
    method Visit(n: Name, toVisit: seq<Name>, visited: set<Name>) returns (r: seq<Name>)
      requires Valid()
      modifies this
      ensures Valid() && AllProbed(index, dependencyMap.Keys, {n})
      ensures old(dependencyMap).Keys <= dependencyMap.Keys
      ensures |toVisit| <= |r| && r[..|toVisit|] == toVisit
      ensures Elements(r[|toVisit|..]) == Successors(index, n, VersionsIn(index.versions, n)) - visited
    {
      r := toVisit;
      var versions := VersionsIn(index.versions, n);
      ghost var done: set<Version> := {};
      assert Successors(index, n, {}) == {} && r[|toVisit|..] == [];
      while versions != {}
        invariant Valid() && done + versions == VersionsIn(index.versions, n)
        invariant old(dependencyMap).Keys <= dependencyMap.Keys
        invariant forall v :: v in done ==> Release(n, v) in dependencyMap
        invariant |toVisit| <= |r| && r[..|toVisit|] == toVisit
        invariant Elements(r[|toVisit|..]) == Successors(index, n, done) - visited
        decreases versions
      {
        var v := TakeOne(versions);
        versions := versions - {v};
        var deps := DependenciesFor(Release(n, v));
        OneMoreVersion(index, n, done, v);
        var more := Unvisited(deps, visited);
        assert (r + more)[|toVisit|..] == r[|toVisit|..] + more;
        assert Elements(r[|toVisit|..] + more) == Elements(r[|toVisit|..]) + Elements(more);
        r := r + more;
        done := done + {v};
      }
    }

    /** One round of the walk: visits the top of the stack. */
    method VisitTop(toVisit: seq<Name>, seen: set<Name>, ghost requirements: seq<Requirement>) returns (r: seq<Name>)
      requires Valid() && AllProbed(index, dependencyMap.Keys, seen)
      requires WalkOk(PackageGraph(index, requirements), AllNames(index, requirements), seen, toVisit) && toVisit != []
      modifies this
      ensures var n := toVisit[|toVisit| - 1];
              && Valid() && AllProbed(index, dependencyMap.Keys, seen + {n})
              && WalkOk(PackageGraph(index, requirements), AllNames(index, requirements), seen + {n}, r)
              && (n !in seen ==> AllNames(index, requirements) - (seen + {n}) < AllNames(index, requirements) - seen)
              && (n in seen ==> seen + {n} == seen)
              && (n in seen ==> !TopSeen(seen, r) || |r| < |toVisit|)
    {
      var n := toVisit[|toVisit| - 1];
      assert n in Elements(toVisit);
      EdgesAreDependencies(index, requirements, n);
      r := Visit(n, toVisit[..|toVisit| - 1], seen);
      ghost var g := PackageGraph(index, requirements);
      assert Visited(g, seen, toVisit, r);
      WalkSteps(g, AllNames(index, requirements), seen, toVisit, r);
      if n in seen { RepeatedVisit(g, seen, toVisit, r); }
    }

    /**
     * Duplicate and repeated entries on the stack are visited again, so the measure also looks at the
     * top of the stack.
     */
    method Walk(requirements: seq<Requirement>) returns (seen: set<Name>)
      requires Valid()
      modifies this
      ensures Valid() && AllProbed(index, dependencyMap.Keys, seen)
      ensures WalkOk(PackageGraph(index, requirements), AllNames(index, requirements), seen, [])
    {
      seen := {};
      var toVisit := Unvisited(requirements, {});
      WalkStarts(index, requirements);
      while toVisit != []
        invariant Valid() && AllProbed(index, dependencyMap.Keys, seen)
        invariant WalkOk(PackageGraph(index, requirements), AllNames(index, requirements), seen, toVisit)
        decreases AllNames(index, requirements) - seen, TopSeen(seen, toVisit), |toVisit|
      {
        var n := toVisit[|toVisit| - 1];
        toVisit := VisitTop(toVisit, seen, requirements);
        seen := seen + {n};
      }
    }

    /** Visits exactly the reachable packages; afterwards all of their versions have been probed. */
    method BuildTransitiveDependencyMap(requirements: seq<Requirement>) returns (ghost visited: set<Name>)
      requires Valid()
      modifies this
      ensures Valid()
      ensures forall n :: n in visited <==> Reachable(PackageGraph(index, requirements), n)
      ensures ClosedNames(PackageGraph(index, requirements), visited) && visited <= AllNames(index, requirements)
      ensures AllProbed(index, dependencyMap.Keys, visited)
      ensures RootVersion in dependencyMap && dependencyMap[RootVersion] == requirements
    {
      visited := Walk(requirements);
      WalkEnds(PackageGraph(index, requirements), AllNames(index, requirements), visited);
      RootRecorded(index, dependencyMap, knownInvalid, requirements);
      dependencyMap := dependencyMap[RootVersion := requirements];
    }
  }
}
