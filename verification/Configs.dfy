/** The configuration of a resolve: requirements, overrides and the dependency graph. */
module Configs {
  import opened Terms
  import opened Universes
  import opened Walks
  import opened Graphs
  import opened Machine

  function FactList(u: Universe, pv: PackageVersion, reqs: seq<Requirement>): seq<Incompatibility> {
    if reqs == [] then [] else [Fact(u, pv, reqs[0])] + FactList(u, pv, reqs[1..])
  }

  lemma {:induction false} FactListSnoc(u: Universe, pv: PackageVersion, reqs: seq<Requirement>, r: Requirement)
    ensures FactList(u, pv, reqs + [r]) == FactList(u, pv, reqs) + [Fact(u, pv, r)]
    decreases |reqs|
  {
    if reqs != [] {
      assert (reqs + [r])[1..] == reqs[1..] + [r];
      FactListSnoc(u, pv, reqs[1..], r);
    } else {
      assert ([] + [r])[1..] == [];
      assert reqs + [r] == [r];
    }
  }

  /**
   * "pv depends on r", term by term: the version itself (nothing for root) and the absence of every version that
   * the requirement asks for, or of every pinned version; the cause says which.
   */
  predicate Says(ix: Index, pins: map<Name, set<Version>>, pv: PackageVersion, r: Requirement, f: Incompatibility) {
    && |f.terms| == 2
    && (pv.RootVersion? ==> f.terms[0] == RootConstraint(true))
    && (pv.Release? ==> f.terms[0] == VersionConstraint(pv.name, {pv.version}, true, VersionsIn(ix.versions, pv.name)))
    && (r.name in pins ==>
          f.terms[1] == VersionConstraint(r.name, pins[r.name], false, VersionsIn(ix.versions, r.name)) && f.cause == OverrideCause)
    && (r.name !in pins ==>
          f.terms[1] == VersionConstraint(r.name, r.versions, false, VersionsIn(ix.versions, r.name)) && f.cause == DependencyCause)
  }

  /** One fact for each requirement, in the same order. */
  predicate SaysAll(ix: Index, pins: map<Name, set<Version>>, pv: PackageVersion, reqs: seq<Requirement>,
                    facts: seq<Incompatibility>) {
    |facts| == |reqs| && forall i :: 0 <= i < |reqs| ==> Says(ix, pins, pv, reqs[i], facts[i])
  }

  lemma {:induction false} FactListSays(u: Universe, ix: Index, pv: PackageVersion, reqs: seq<Requirement>)
    requires u.versions == ix.versions
    ensures SaysAll(ix, u.overrides, pv, reqs, FactList(u, pv, reqs))
    decreases |reqs|
  {
    if reqs == [] {
    } else {
      FactListSays(u, ix, pv, reqs[1..]);
      assert Says(ix, u.overrides, pv, reqs[0], Fact(u, pv, reqs[0]));
      forall i | 0 <= i < |reqs| ensures Says(ix, u.overrides, pv, reqs[i], FactList(u, pv, reqs)[i]) {
        if i > 0 { assert reqs[i] == reqs[1..][i - 1]; }
      }
    }
  }

  /** The walk visits every package that a known version depends on. */
  lemma VisitedIsClosed(u: Universe, ix: Index)
    requires u.versions == ix.versions && u.dependencies == ix.releases
    requires u.names <= AllNames(ix, u.requirements) && ClosedNames(PackageGraph(ix, u.requirements), u.names)
    ensures Closed(u)
  {
    forall pv, r | Known(u, pv) && r in Dependencies(u, pv) ensures r.name in u.names {
      if pv.RootVersion? {
        assert r.name in NamesOf(u.requirements);
      } else {
        EdgesAreDependencies(ix, u.requirements, pv.name);
        assert r.name in Successors(ix, pv.name, VersionsIn(ix.versions, pv.name));
      }
    }
  }

  function KnownBad(known: map<Name, set<Version>>, n: Name): set<Version> {
    if n in known then known[n] else {}
  }

  /** Once all versions of a package were probed, what is not known to be invalid is usable. */
  lemma ProbedVersionsAreJudged(u: Universe, ix: Index, fetched: map<PackageVersion, seq<Requirement>>,
                                known: map<Name, set<Version>>, n: Name)
    requires CachesOk(ix, fetched, known) && AllProbed(ix, fetched.Keys, u.names) && n in u.names
    requires u.versions == ix.versions && u.dependencies == ix.releases
    ensures VersionsIn(ix.versions, n) - KnownBad(known, n) == Usable(u, n)
  {
    forall v | v in VersionsIn(ix.versions, n) ensures v in KnownBad(known, n) <==> Release(n, v) !in ix.releases {
      assert Invalid(known, n, v) <==> v in KnownBad(known, n);
      assert Release(n, v) in fetched.Keys;
    }
    assert AllVersions(u, n) == VersionsIn(ix.versions, n);
    forall v ensures v in VersionsIn(ix.versions, n) - KnownBad(known, n) <==> v in Usable(u, n) {
    }
  }

  /** Comparing with one more package keeps the better of the two ahead of all compared so far. */
  lemma BetterOfTwo(u: Universe, open: map<Name, Term>, n: Name, m: Name, rest: set<Name>)
    requires forall x :: x in open ==> open[x].VersionConstraint?
    requires n in open && m in open
    requires forall x :: x in open && x !in rest ==> Precedes(u, open, n, x)
    ensures Precedes(u, open, n, m) ==> forall x :: x in open && x !in rest - {m} ==> Precedes(u, open, n, x)
    ensures !Precedes(u, open, n, m) ==> forall x :: x in open && x !in rest - {m} ==> Precedes(u, open, m, x)
  {
    if !Precedes(u, open, n, m) {
      forall x | x in open && x !in rest - {m} ensures Precedes(u, open, m, x) {
        if x !in rest { assert Precedes(u, open, n, x); }
      }
    }
  }

  class Config {
    const graph: Graph
    const requirements: seq<Requirement>
    const overrides: map<Name, set<Version>>
    const downgrades: set<Name>
    var listed: set<PackageVersion>
    ghost const universe: Universe

    ghost predicate Valid()
      reads this, graph
    {
      && graph.Valid()
      && universe.versions == graph.index.versions && universe.dependencies == graph.index.releases
      && universe.requirements == requirements && universe.overrides == overrides && universe.downgrades == downgrades
      && AllProbed(graph.index, graph.dependencyMap.Keys, universe.names)
      && RootVersion in graph.dependencyMap && graph.dependencyMap[RootVersion] == requirements
    }

    constructor (g: Graph, reqs: seq<Requirement>, pins: map<Name, set<Version>>, down: set<Name>)
      requires g.Valid()
      modifies g
      ensures Valid() && listed == {} && Closed(universe) && graph == g
      ensures universe.versions == g.index.versions && universe.dependencies == g.index.releases
      ensures universe.requirements == reqs && universe.overrides == pins && universe.downgrades == down
      ensures forall n :: n in universe.names <==> Reachable(PackageGraph(g.index, reqs), n)
      ensures universe.names <= AllNames(g.index, reqs)
    {
      ghost var names := g.BuildTransitiveDependencyMap(reqs);
      graph, requirements, overrides, downgrades := g, reqs, pins, down;
      listed := {};
      universe := Universe(names, g.index.versions, g.index.releases, reqs, pins, down);
      new;
      VisitedIsClosed(universe, g.index);
    }

    /** The facts of a version, the first time they are asked for. */
    method IncompatibilitiesFor(pv: PackageVersion) returns (facts: seq<Incompatibility>)
      requires Valid()
      modifies this, graph
      ensures Valid() && listed == old(listed) + {pv}
      ensures facts == FactList(universe, pv, if pv in old(listed) then [] else Dependencies(universe, pv))
      ensures pv in old(listed) ==> facts == []
      ensures pv !in old(listed) ==> SaysAll(graph.index, overrides, pv, Dependencies(universe, pv), facts)
    {
      facts := [];
      if pv in listed {
        assert listed == listed + {pv};
        return;
      }
      listed := listed + {pv};
      var dependee := match pv
        case RootVersion => RootConstraint(true)
        case Release(n, v) => VersionConstraint(n, {v}, true, VersionsIn(graph.index.versions, n));
      var deps := graph.DependenciesFor(pv);
      for i := 0 to |deps|
        invariant facts == FactList(universe, pv, deps[..i])
        modifies {}
      {
        var r := deps[i];
        var versions := if r.name in overrides then overrides[r.name] else r.versions;
        var dependency := VersionConstraint(r.name, versions, false, VersionsIn(graph.index.versions, r.name));
        var cause := if r.name in overrides then OverrideCause else DependencyCause;
        facts := facts + [Incompatibility([dependee, dependency], cause)];
        FactListSnoc(universe, pv, deps[..i], r);
        assert deps[..i + 1] == deps[..i] + [r];
      }
      assert deps[..|deps|] == deps;
      FactListSays(universe, graph.index, pv, deps);
    }

    /** Versions that meet the constraint and are not known to be invalid. */
    method ValidVersionsForPackage(n: Name, t: Term) returns (valid: set<Version>)
      requires Valid() && n in universe.names && t.VersionConstraint?
      modifies graph
      ensures Valid() && valid == ValidVersions(universe, n, t)
      ensures forall v :: v in valid <==>
                v in t.versions && v in VersionsIn(graph.index.versions, n) && Release(n, v) in graph.index.releases
    {
      if n !in graph.knownInvalid {
        var versions := t.versions;
        while versions != {}
          invariant Valid()
          decreases versions
        {
          var v := TakeOne(versions);
          versions := versions - {v};
          var deps := graph.DependenciesFor(Release(n, v));
        }
      }
      var bad := KnownBad(graph.knownInvalid, n);
      valid := (VersionsIn(graph.index.versions, n) - bad) * t.versions;
      ProbedVersionsAreJudged(universe, graph.index, graph.dependencyMap, graph.knownInvalid, n);
    }

    /** The undecided package with the fewest valid versions, ties by name. */
    method BestPackage(open: map<Name, Term>) returns (n: Name, valid: set<Version>)
      requires Valid() && open != map[] && open.Keys <= universe.names
      requires forall m :: m in open ==> open[m].VersionConstraint?
      modifies graph
      ensures Valid() && n == Best(universe, open) && valid == ValidVersions(universe, n, open[n])
      ensures n in open && forall m :: m in open ==>
                var b := |Usable(universe, m) * open[m].versions|;
                |valid| <= b && (|valid| == b ==> n <= m)
    {
      assert open.Keys != {};
      n := TakeOne(open.Keys);
      valid := ValidVersionsForPackage(n, open[n]);
      var rest := open.Keys - {n};
      while rest != {}
        invariant Valid() && n in open && rest <= open.Keys
        invariant valid == ValidVersions(universe, n, open[n])
        invariant forall m :: m in open && m !in rest ==> Precedes(universe, open, n, m)
        decreases rest
      {
        var m := TakeOne(rest);
        var candidates := ValidVersionsForPackage(m, open[m]);
        BetterOfTwo(universe, open, n, m, rest);
        rest := rest - {m};
        if |candidates| < |valid| || (|candidates| == |valid| && m < n) {
          assert !Precedes(universe, open, n, m);
          n, valid := m, candidates;
        }
      }
      assert IsBest(universe, open, n);
      BestIsUnique(universe, open, n, Best(universe, open));
    }

    method BestVersionForPackage(n: Name, valid: set<Version>) returns (v: Version)
      requires Valid() && valid != {}
      ensures v == BestVersion(universe, n, valid)
      ensures v in valid && forall w :: w in valid ==> if n in downgrades then v <= w else w <= v
    {
      v := TakeOne(valid);
      var rest := valid - {v};
      while rest != {}
        invariant v in valid && rest <= valid
        invariant forall w :: w in valid && w !in rest ==> if n in downgrades then v <= w else w <= v
        decreases rest
      {
        var w := TakeOne(rest);
        rest := rest - {w};
        if if n in downgrades then w < v else v < w { v := w; }
      }
      assert IsBestVersion(universe, n, valid, v);
      assert IsBestVersion(universe, n, valid, BestVersion(universe, n, valid));
    }
  }
}
