/** Overrides say nothing new: they stand for a universe whose requirements on pinned packages ask for the pin. */
module Overrides {
  import opened Terms
  import opened Universes

  function PinnedRequirement(pins: map<Name, set<Version>>, r: Requirement): Requirement {
    if r.name in pins then Requirement(r.name, pins[r.name]) else r
  }

  function PinnedList(pins: map<Name, set<Version>>, reqs: seq<Requirement>): seq<Requirement> {
    seq(|reqs|, i requires 0 <= i < |reqs| => PinnedRequirement(pins, reqs[i]))
  }

  /** The same packages without overrides, every requirement on a pinned package rewritten to the pin. */
  function Pinned(u: Universe): Universe {
    u.(requirements := PinnedList(u.overrides, u.requirements),
       dependencies := map pv | pv in u.dependencies :: PinnedList(u.overrides, u.dependencies[pv]),
       overrides := map[])
  }

  lemma PinnedMembers(pins: map<Name, set<Version>>, reqs: seq<Requirement>)
    ensures forall r :: r in reqs ==> PinnedRequirement(pins, r) in PinnedList(pins, reqs)
    ensures forall q :: q in PinnedList(pins, reqs) ==> exists r :: r in reqs && q == PinnedRequirement(pins, r)
  {
    forall r | r in reqs ensures PinnedRequirement(pins, r) in PinnedList(pins, reqs) {
      var i :| 0 <= i < |reqs| && reqs[i] == r;
      assert PinnedList(pins, reqs)[i] == PinnedRequirement(pins, r);
    }
  }

  /** Meeting all requirements of a list is meeting all rewritten ones. */
  lemma MeetsPinned(u: Universe, c: Choice, reqs: seq<Requirement>)
    ensures (forall r :: r in reqs ==> Meets(u, c, r)) <==>
            (forall q :: q in PinnedList(u.overrides, reqs) ==> Meets(Pinned(u), c, q))
  {
    var list := PinnedList(u.overrides, reqs);
    PinnedMembers(u.overrides, reqs);
    assert forall r :: Meets(u, c, r) <==> Meets(Pinned(u), c, PinnedRequirement(u.overrides, r));
    if forall q :: q in list ==> Meets(Pinned(u), c, q) {
      forall r | r in reqs ensures Meets(u, c, r) { assert PinnedRequirement(u.overrides, r) in list; }
    }
  }

  lemma DependenciesArePinned(u: Universe, pv: PackageVersion)
    ensures Dependencies(Pinned(u), pv) == PinnedList(u.overrides, Dependencies(u, pv))
  {
  }

  /** A pin replaces the versions that a requirement asks for, wherever it stands, and nothing else. */
  lemma OverridesArePins(u: Universe, c: Choice)
    ensures ValidSolution(u, c) <==> ValidSolution(Pinned(u), c)
  {
    assert forall n :: Usable(u, n) == Usable(Pinned(u), n);
    MeetsPinned(u, c, u.requirements);
    forall n | n in c
      ensures (forall r :: r in Dependencies(u, Release(n, c[n])) ==> Meets(u, c, r)) <==>
              (forall q :: q in Dependencies(Pinned(u), Release(n, c[n])) ==> Meets(Pinned(u), c, q))
    {
      DependenciesArePinned(u, Release(n, c[n]));
      MeetsPinned(u, c, Dependencies(u, Release(n, c[n])));
    }
  }

  /** What a fact forbids is what the rewritten requirement forbids; its cause says whether there was a pin. */
  lemma FactsArePinned(u: Universe, pv: PackageVersion, i: nat)
    requires i < |Dependencies(u, pv)|
    ensures |Dependencies(Pinned(u), pv)| == |Dependencies(u, pv)|
    ensures var r := Dependencies(u, pv)[i];
            var q := Dependencies(Pinned(u), pv)[i];
            && q.name == r.name && (r.name in u.overrides ==> q.versions == u.overrides[r.name])
            && (r.name !in u.overrides ==> q == r)
            && Fact(u, pv, r).terms == Fact(Pinned(u), pv, q).terms
            && Fact(Pinned(u), pv, q).cause == DependencyCause
            && (Fact(u, pv, r).cause == OverrideCause <==> r.name in u.overrides)
            && (Fact(u, pv, r).cause == DependencyCause <==> r.name !in u.overrides)
  {
    DependenciesArePinned(u, pv);
  }

  /** A pinned package that anything in the solution depends on is decided in its pin. */
  lemma PinsHold(u: Universe, c: Choice, pv: PackageVersion, r: Requirement)
    requires ValidSolution(u, c) && r in Dependencies(u, pv) && r.name in u.overrides
    requires pv.Release? ==> pv.name in c && c[pv.name] == pv.version
    ensures r.name in c && c[r.name] in u.overrides[r.name]
  {
    assert Meets(u, c, r);
  }
}
