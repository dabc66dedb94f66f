/** A package version that depends on its own package: why it must accept itself. */
module SelfDependencies {
  import opened Terms
  import opened Universes
  import opened Resolution
  import opened Logs
  import opened Conflicts
  import opened Machine
  import opened Invariants
  import opened Traces

  /** When one decision satisfies both terms of a conflict, the analysis returns to the level of that decision. */
  lemma {:induction false} TiedConflictStays(log: Log, i: Incompatibility, x: Term, y: Term)
    requires i.terms == [x, y] && SatAt(log, |log|, x) && SatAt(log, |log|, y)
    requires Satisfier(log, x) == Satisfier(log, y)
    requires var a := log[Satisfier(log, x)]; a.cause.None? && Satisfies(a.term, x) && Satisfies(a.term, y)
    ensures Resolve(log, i, |log|) == Learned(log[Satisfier(log, x)].level, i)
  {
    var k := Satisfier(log, x);
    var a := log[k];
    assert Difference(a.term, x).None? && Difference(a.term, y).None?;
    var ex, ey := Explained(x, k), Explained(y, k);
    assert [x, y][..1] == [x] && [x][..0] == [];
    assert SortTerms(log, [x]) == [ex];
    assert Insert([ex], ey) == [ex, ey];
    assert SortTerms(log, [x, y]) == [ex, ey];
    ResolveUnfolds(log, i, |log|, Analysis(y, k, a.level));
  }

  const A: Name := 0

  /** Version 2 of A needs version 1 of A. */
  const U := Universe({A}, map[A := {1, 2}], map[Release(A, 1) := [], Release(A, 2) := [Requirement(A, {1})]],
                      [Requirement(A, {1, 2})], map[], {})

  function OfA(versions: set<Version>, positive: bool): Term { VersionConstraint(A, versions, positive, {1, 2}) }

  const ROOT_NEEDS_A := Incompatibility([RootConstraint(true), OfA({1, 2}, false)], DependencyCause)
  const A2_NEEDS_A1 := Incompatibility([OfA({2}, true), OfA({1}, false)], DependencyCause)

  const L1: Log := [Assignment(RootConstraint(true), 1, 0, None)]
  const L2 := L1 + [Assignment(OfA({1, 2}, true), 1, 1, Some(IncompatibilityCause(ROOT_NEEDS_A)))]
  const L3 := L2 + [Assignment(OfA({2}, true), 2, 2, None)]

  lemma LogsSay()
    ensures forall log | log in [L1, L2, L3] :: TermAt(log, |log|, Root) == Some(RootConstraint(true))
    ensures TermAt(L1, 1, Package(A)) == None && TermAt(L2, 2, Package(A)) == Some(OfA({1, 2}, true))
    ensures TermAt(L3, 3, Package(A)) == Some(OfA({2}, true))
  {
    assert TermAt(L1, 0, Root) == None && TermAt(L1, 0, Package(A)) == None;
    OneMore(L1, L2[1], Root);
    OneMore(L1, L2[1], Package(A));
    OneMore(L2, L3[2], Root);
    OneMore(L2, L3[2], Package(A));
    assert Intersect(OfA({1, 2}, true), OfA({2}, true)) == Some(OfA({2}, true)) by {
      assert {1, 2} * {1, 2} * ({1, 2} * {2}) == {2};
    }
  }

  lemma Relations()
    ensures forall c | c in [OfA({1, 2}, true), OfA({2}, true)] ::
              !Satisfies(c, OfA({1, 2}, false)) && Intersect(c, OfA({1, 2}, false)).None?
    ensures !Satisfies(OfA({1, 2}, true), OfA({2}, true)) && Intersect(OfA({1, 2}, true), OfA({2}, true)).Some?
    ensures !Satisfies(OfA({1, 2}, true), OfA({1}, false))
    ensures Satisfies(OfA({2}, true), OfA({2}, true)) && Satisfies(OfA({2}, true), OfA({1}, false))
  {
    assert 1 in Allowed(OfA({1, 2}, true)) && 2 in Allowed(OfA({2}, true));
    assert 2 in Allowed(OfA({1, 2}, true)) * Allowed(OfA({2}, true));
  }

  lemma Outcomes()
    ensures Propagate(L1, ROOT_NEEDS_A) == Derived(OfA({1, 2}, false))
    ensures Propagate(L2, ROOT_NEEDS_A) == Quiet && Propagate(L2, A2_NEEDS_A1) == Quiet
    ensures Propagate(L3, ROOT_NEEDS_A) == Quiet && Propagate(L3, A2_NEEDS_A1) == Conflict
  {
    LogsSay();
    Relations();
    PropagateTwo(L1, ROOT_NEEDS_A);
    PropagateTwo(L2, ROOT_NEEDS_A);
    PropagateTwo(L2, A2_NEEDS_A1);
    PropagateTwo(L3, ROOT_NEEDS_A);
    PropagateTwo(L3, A2_NEEDS_A1);
  }

  /** The conflict keeps the decision that caused it. */
  lemma ConflictStays()
    ensures Resolve(L3, A2_NEEDS_A1, 3) == Learned(2, A2_NEEDS_A1) && Cut(L3, 2) == L3
  {
    LogsSay();
    Relations();
    var x, y := OfA({2}, true), OfA({1}, false);
    TermAtPrefix(L3, L1, 1, Package(A));
    TermAtPrefix(L3, L2, 2, Package(A));
    assert TermAt(L3, 0, Package(A)) == None;
    assert !SatAt(L3, 0, x) && !SatAt(L3, 1, x) && !SatAt(L3, 2, x);
    assert !SatAt(L3, 0, y) && !SatAt(L3, 1, y) && !SatAt(L3, 2, y);
    assert Satisfier(L3, x) == 2 && Satisfier(L3, y) == 2;
    TiedConflictStays(L3, A2_NEEDS_A1, x, y);
  }

  lemma {:induction false} ConflictRepeats(log: Log)
    requires log == L3
    ensures Propagate(log, A2_NEEDS_A1) == Conflict
    ensures Resolve(log, A2_NEEDS_A1, |log|) == Learned(2, A2_NEEDS_A1) && Cut(log, 2) == log
  {
    Outcomes();
    ConflictStays();
  }

  ghost predicate Looks(st: State, phase: Phase, log: Log, ofA: seq<Incompatibility>, listed: set<PackageVersion>,
                        queue: seq<Item>) {
    && Reached(U, st) && st.phase == phase && st.log == log && st.listed == listed && st.queue == queue
    && ListFor(st.store, Root) == [ROOT_NEEDS_A] && ListFor(st.store, Package(A)) == ofA
  }

  lemma Choices()
    ensures Undecided(U, L2) == map[A := OfA({1, 2}, true)] && Undecided(U, L3) == map[]
    ensures IsBestVersion(U, A, ValidVersions(U, A, OfA({1, 2}, true)), 2) && IsConflict(L2, A2_NEEDS_A1)
  {
    LogsSay();
    var none: Log := [];
    assert none + [L1[0]] == L1;
    DecidedMore(none, L1[0], Package(A));
    DecidedMore(L1, L2[1], Package(A));
    DecidedMore(L2, L3[2], Package(A));
    assert forall n :: n in U.names <==> n == A;
    assert Usable(U, A) == {1, 2};
  }

  lemma Required() returns (st: State)
    ensures Looks(st, Choosing, L2, [ROOT_NEEDS_A], {RootVersion}, [])
  {
    st := Init(U);
    Start(U);
    var r := Requirement(A, {1, 2});
    assert [r][1..] == [];
    assert AddFacts(U, map[], RootVersion, [r]) == Add(map[], ROOT_NEEDS_A);
    AddTwo(map[], ROOT_NEEDS_A, Root);
    AddTwo(map[], ROOT_NEEDS_A, Package(A));
    assert Looks(st, Scan(Changed(Root), 0), L1, [ROOT_NEEDS_A], {RootVersion}, []);
    Outcomes();
    st := ScanDerives(U, st, ROOT_NEEDS_A, OfA({1, 2}, false));
    st := ScanEnds(U, st);
    assert Looks(st, Scan(Changed(Package(A)), 0), L2, [ROOT_NEEDS_A], {RootVersion}, []);
    st := ScanQuiet(U, st, 1);
    st := ScanEnds(U, st);
  }

  /** The fact about version 2 is filed twice, and the version is not decided at first. */
  lemma {:induction false} Listed(st: State) returns (st': State)
    requires Looks(st, Choosing, L2, [ROOT_NEEDS_A], {RootVersion}, [])
    ensures Looks(st', Choosing, L2, [ROOT_NEEDS_A, A2_NEEDS_A1, A2_NEEDS_A1], {RootVersion, Release(A, 2)}, [])
  {
    Choices();
    Outcomes();
    AddTwice(st.store, A2_NEEDS_A1, Root);
    AddTwice(st.store, A2_NEEDS_A1, Package(A));
    st' := Selects(U, st, A, OfA({1, 2}, true), 2, Requirement(A, {1}));
    st' := ScanQuiet(U, st', 3);
    st' := ScanEnds(U, st');
  }

  lemma {:induction false} Decided(st: State) returns (st': State)
    requires Looks(st, Choosing, L2, [ROOT_NEEDS_A, A2_NEEDS_A1, A2_NEEDS_A1], {RootVersion, Release(A, 2)}, [])
    ensures Looks(st', Scan(Changed(Package(A)), 1), L3, [ROOT_NEEDS_A, A2_NEEDS_A1, A2_NEEDS_A1],
                  {RootVersion, Release(A, 2)}, [])
  {
    Choices();
    Outcomes();
    st' := SelectsAgain(U, st, A, OfA({1, 2}, true), 2);
    st' := ScanQuiet(U, st', 1);
  }

  lemma {:induction false} Stalls(st: State, next: nat, queue: seq<Item>) returns (st': State)
    requires Looks(st, Scan(Changed(Package(A)), next), L3, [ROOT_NEEDS_A, A2_NEEDS_A1, A2_NEEDS_A1],
                   {RootVersion, Release(A, 2)}, queue)
    requires 1 <= next <= 2
    ensures Looks(st', Scan(Changed(Package(A)), next + 1), L3, [ROOT_NEEDS_A, A2_NEEDS_A1, A2_NEEDS_A1],
                  {RootVersion, Release(A, 2)}, queue + [NotASubject])
  {
    ConflictRepeats(st.log);
    assert ListOf(st.store, st.phase.item)[next] == A2_NEEDS_A1;
    st' := ScanStalls(U, st, A2_NEEDS_A1, 2);
  }

  lemma {:induction false} Accepted(st: State) returns (st': State)
    requires Looks(st, Scan(Changed(Package(A)), 3), L3, [ROOT_NEEDS_A, A2_NEEDS_A1, A2_NEEDS_A1],
                   {RootVersion, Release(A, 2)}, [NotASubject, NotASubject])
    ensures Reached(U, st') && st'.phase.Solved? && st'.log == L3
  {
    Choices();
    st' := ScanEnds(U, st);
    st' := ScanEnds(U, st');
    st' := ScanEnds(U, st');
    st' := Solves(U, st');
  }

  lemma SelfDependent()
    ensures Closed(U) && Satisfiable(U) && !SelfAccepting(U)
  {
    forall pv, r | Known(U, pv) && r in Dependencies(U, pv)
      ensures r.name in U.names && Acceptable(U, r) * AllVersions(U, r.name) != {}
    {
      assert 1 in Acceptable(U, r) * AllVersions(U, r.name);
    }
    assert Known(U, Release(A, 2)) && Requirement(A, {1}) in Dependencies(U, Release(A, 2));
  }

  lemma NotASolution()
    ensures !ValidSolution(U, SolutionOf(L3))
  {
    var choice, r := SolutionOf(L3), Requirement(A, {1});
    assert DecisionsAt(L3, 3)[Package(A)] == OfA({2}, true);
    assert choice[A] == 2;
    assert r in Dependencies(U, Release(A, choice[A])) && !Meets(U, choice, r);
  }

  /** With a self-dependency a run can end in success with decisions that are no solution. */
  lemma SolvedWithoutSolution()
    ensures Closed(U) && Satisfiable(U) && !SelfAccepting(U)
    ensures exists k: nat :: Run(U, k).phase.Solved? && !ValidSolution(U, SolutionOf(Run(U, k).log))
  {
    SelfDependent();
    var st := Required();
    st := Listed(st);
    st := Decided(st);
    st := Stalls(st, 1, []);
    st := Stalls(st, 2, [NotASubject]);
    st := Accepted(st);
    var k := Position(U, st);
    NotASolution();
  }
}
