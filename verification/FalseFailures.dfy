/** A run that reports a failure although there is a solution. */
module FalseFailures {
  import opened Terms
  import opened Universes
  import opened Resolution
  import opened Logs
  import opened Conflicts
  import opened Machine
  import opened Invariants
  import opened Completeness
  import opened Traces

  const A: Name := 0
  const B: Name := 1

  /**
   * Version 1 of A cannot be fetched, version 2 needs nothing, and version 3 needs B. Both versions
   * of B need version 1 of A. Version 2 of A alone is a solution.
   */
  const U := Universe({A, B}, map[A := {1, 2, 3}, B := {1, 2}],
                      map[Release(A, 2) := [],
                          Release(A, 3) := [Requirement(B, {1, 2})],
                          Release(B, 1) := [Requirement(A, {1})],
                          Release(B, 2) := [Requirement(A, {1})]],
                      [Requirement(A, {1, 2, 3})], map[], {})

  function OfA(versions: set<Version>, positive: bool): Term { VersionConstraint(A, versions, positive, {1, 2, 3}) }

  function OfB(versions: set<Version>, positive: bool): Term { VersionConstraint(B, versions, positive, {1, 2}) }

  // ---------- The incompatibilities ----------

  const ROOT_NEEDS_A := Incompatibility([RootConstraint(true), OfA({1, 2, 3}, false)], DependencyCause)
  const A3_NEEDS_B := Incompatibility([OfA({3}, true), OfB({1, 2}, false)], DependencyCause)
  const B2_NEEDS_A1 := Incompatibility([OfB({2}, true), OfA({1}, false)], DependencyCause)
  const B1_NEEDS_A1 := Incompatibility([OfB({1}, true), OfA({1}, false)], DependencyCause)

  /** Follows from nothing: it forgets that B may be absent. */
  const A1_NEEDED := Incompatibility([OfA({1}, false)],
                                     ConflictCause(B1_NEEDS_A1, B2_NEEDS_A1, OfB({1}, true), OfB({2}, false)))
  const NO_A1 := Incompatibility([OfA({1}, true)], NoVersionsCause)

  // ---------- The logs ----------

  const L1: Log := [Assignment(RootConstraint(true), 1, 0, None)]
  const L2 := L1 + [Assignment(OfA({1, 2, 3}, true), 1, 1, Some(IncompatibilityCause(ROOT_NEEDS_A)))]
  const L3 := L2 + [Assignment(OfA({3}, true), 2, 2, None)]
  const L4 := L3 + [Assignment(OfB({1, 2}, true), 2, 3, Some(IncompatibilityCause(A3_NEEDS_B)))]
  const L5 := L4 + [Assignment(OfB({2}, true), 3, 4, None)]
  const M5 := L4 + [Assignment(OfB({2}, false), 2, 4, Some(IncompatibilityCause(B2_NEEDS_A1)))]
  const M3 := L2 + [Assignment(OfA({1}, true), 1, 2, Some(IncompatibilityCause(A1_NEEDED)))]

  /** What the log says about A and B. */
  ghost predicate Says(log: Log, a: Option<Term>, b: Option<Term>) {
    && TermAt(log, |log|, Root) == Some(RootConstraint(true))
    && TermAt(log, |log|, Package(A)) == a && TermAt(log, |log|, Package(B)) == b
  }

  lemma {:induction false} SaysMore(log: Log, x: Assignment, a: Option<Term>, b: Option<Term>,
                                    a': Option<Term>, b': Option<Term>)
    requires Says(log, a, b) && x.term.VersionConstraint?
    requires match SubjectOf(x.term)
             case Package(n) =>
               if n == A then b' == b && a' == (if a.None? then Some(x.term) else Intersect(a.value, x.term))
               else n == B && a' == a && b' == (if b.None? then Some(x.term) else Intersect(b.value, x.term))
             case _ => false
    requires (a.Some? ==> SubjectOf(a.value) == Package(A)) && (b.Some? ==> SubjectOf(b.value) == Package(B))
    ensures Says(log + [x], a', b')
  {
    OneMore(log, x, Root);
    OneMore(log, x, Package(A));
    OneMore(log, x, Package(B));
  }

  lemma LogsSay()
    ensures Says(L1, None, None)
    ensures Says(L2, Some(OfA({1, 2, 3}, true)), None)
    ensures Says(L3, Some(OfA({3}, true)), None)
    ensures Says(L4, Some(OfA({3}, true)), Some(OfB({1, 2}, true)))
    ensures Says(L5, Some(OfA({3}, true)), Some(OfB({2}, true)))
    ensures Says(M5, Some(OfA({3}, true)), Some(OfB({1}, true)))
    ensures Says(M3, Some(OfA({1}, true)), None)
  {
    assert Says(L1, None, None) by {
      assert TermAt(L1, 0, Root) == None && TermAt(L1, 0, Package(A)) == None && TermAt(L1, 0, Package(B)) == None;
    }
    Intersections();
    SaysMore(L1, L2[1], None, None, Some(OfA({1, 2, 3}, true)), None);
    SaysMore(L2, L3[2], Some(OfA({1, 2, 3}, true)), None, Some(OfA({3}, true)), None);
    SaysMore(L3, L4[3], Some(OfA({3}, true)), None, Some(OfA({3}, true)), Some(OfB({1, 2}, true)));
    SaysMore(L4, L5[4], Some(OfA({3}, true)), Some(OfB({1, 2}, true)), Some(OfA({3}, true)), Some(OfB({2}, true)));
    SaysMore(L4, M5[4], Some(OfA({3}, true)), Some(OfB({1, 2}, true)), Some(OfA({3}, true)), Some(OfB({1}, true)));
    SaysMore(L2, M3[2], Some(OfA({1, 2, 3}, true)), None, Some(OfA({1}, true)), None);
  }

  lemma Intersections()
    ensures Intersect(OfA({1, 2, 3}, true), OfA({3}, true)) == Some(OfA({3}, true))
    ensures Intersect(OfA({1, 2, 3}, true), OfA({1}, true)) == Some(OfA({1}, true))
    ensures Intersect(OfB({1, 2}, true), OfB({2}, true)) == Some(OfB({2}, true))
    ensures Intersect(OfB({1, 2}, true), OfB({2}, false)) == Some(OfB({1}, true))
  {
    assert {1, 2, 3} * {1, 2, 3} * ({1, 2, 3} * {3}) == {3};
    assert {1, 2, 3} * {1, 2, 3} * ({1, 2, 3} * {1}) == {1};
    assert {1, 2} * {1, 2} * ({1, 2} * {2}) == {2};
    assert {1, 2} * {1, 2} * ({1, 2} - {2}) == {1};
  }

  // ---------- Unit propagation ----------

  lemma Relations()
    ensures forall c | c in [OfA({1, 2, 3}, true), OfA({3}, true), OfA({1}, true)] ::
              !Satisfies(c, OfA({1, 2, 3}, false)) && Intersect(c, OfA({1, 2, 3}, false)).None?
    ensures !Satisfies(OfA({1, 2, 3}, true), OfA({3}, true))
    ensures Satisfies(OfA({3}, true), OfA({3}, true)) && Satisfies(OfA({3}, true), OfA({1}, false))
    ensures !Satisfies(OfA({1, 2, 3}, true), OfA({1}, false)) && Intersect(OfA({1, 2, 3}, true), OfA({1}, false)).Some?
    ensures !Satisfies(OfA({1}, true), OfA({3}, true)) && Intersect(OfA({1}, true), OfA({3}, true)).None?
    ensures !Satisfies(OfA({1}, true), OfA({1}, false)) && Intersect(OfA({1}, true), OfA({1}, false)).None?
    ensures Satisfies(OfA({1}, true), OfA({1}, true)) && !Satisfies(OfA({1, 2, 3}, true), OfA({1}, true))
    ensures forall c | c in [OfB({1, 2}, true), OfB({2}, true), OfB({1}, true)] ::
              !Satisfies(c, OfB({1, 2}, false)) && Intersect(c, OfB({1, 2}, false)).None?
    ensures !Satisfies(OfB({1, 2}, true), OfB({2}, true)) && Intersect(OfB({1, 2}, true), OfB({2}, true)).Some?
    ensures Satisfies(OfB({2}, true), OfB({2}, true)) && Satisfies(OfB({1}, true), OfB({1}, true))
    ensures !Satisfies(OfB({1}, true), OfB({2}, true)) && Intersect(OfB({1}, true), OfB({2}, true)).None?
    ensures !Satisfies(OfB({1, 2}, true), OfB({1}, true))
  {
    assert 1 in Allowed(OfA({1, 2, 3}, true)) && 2 in Allowed(OfA({1, 2, 3}, true)) && 3 in Allowed(OfA({3}, true));
    assert 1 in Allowed(OfA({1}, true)) && 1 !in Allowed(OfA({1}, false)) && 2 in Allowed(OfA({1}, false));
    assert 1 in Allowed(OfB({1, 2}, true)) && 2 in Allowed(OfB({1, 2}, true));
    assert 1 in Allowed(OfB({1}, true)) && 2 in Allowed(OfB({2}, true));
    assert 2 in Allowed(OfA({1, 2, 3}, true)) * Allowed(OfA({1}, false));
    assert 2 in Allowed(OfB({1, 2}, true)) * Allowed(OfB({2}, true));
  }

  lemma Outcomes()
    ensures Propagate(L1, ROOT_NEEDS_A) == Derived(OfA({1, 2, 3}, false))
    ensures Propagate(L2, ROOT_NEEDS_A) == Quiet && Propagate(L2, A1_NEEDED) == Derived(OfA({1}, false))
    ensures Propagate(L3, ROOT_NEEDS_A) == Quiet && Propagate(L3, A3_NEEDS_B) == Derived(OfB({1, 2}, false))
    ensures Propagate(L4, A3_NEEDS_B) == Quiet && Propagate(L4, B2_NEEDS_A1) == Derived(OfB({2}, true))
    ensures Propagate(L5, A3_NEEDS_B) == Quiet && Propagate(L5, B2_NEEDS_A1) == Conflict
  {
    LogsSay();
    Relations();
    PropagateTwo(L1, ROOT_NEEDS_A);
    PropagateTwo(L2, ROOT_NEEDS_A);
    PropagateOne(L2, A1_NEEDED);
    PropagateTwo(L3, ROOT_NEEDS_A);
    PropagateTwo(L3, A3_NEEDS_B);
    PropagateTwo(L4, A3_NEEDS_B);
    PropagateTwo(L4, B2_NEEDS_A1);
    PropagateTwo(L5, A3_NEEDS_B);
    PropagateTwo(L5, B2_NEEDS_A1);
  }

  lemma LaterOutcomes()
    ensures Propagate(M5, A3_NEEDS_B) == Quiet && Propagate(M5, B2_NEEDS_A1) == Quiet
    ensures Propagate(M5, B1_NEEDS_A1) == Conflict
    ensures forall i :: i in [ROOT_NEEDS_A, A3_NEEDS_B, B2_NEEDS_A1, B1_NEEDS_A1, A1_NEEDED] ==> Propagate(M3, i) == Quiet
    ensures Propagate(M3, NO_A1) == Conflict
  {
    LogsSay();
    Relations();
    PropagateTwo(M5, A3_NEEDS_B);
    PropagateTwo(M5, B2_NEEDS_A1);
    PropagateTwo(M5, B1_NEEDS_A1);
    PropagateTwo(M3, ROOT_NEEDS_A);
    PropagateTwo(M3, A3_NEEDS_B);
    PropagateTwo(M3, B2_NEEDS_A1);
    PropagateTwo(M3, B1_NEEDS_A1);
    PropagateOne(M3, A1_NEEDED);
    PropagateOne(M3, NO_A1);
  }

  // ---------- Conflict analysis ----------

  lemma FirstConflict()
    requires GoodLog(U, L5)
    ensures Resolve(L5, B2_NEEDS_A1, 5) == Learned(2, B2_NEEDS_A1)
  {
    LogsSay();
    Relations();
    var x, y := OfB({2}, true), OfA({1}, false);
    SatisfierIs(U, L5, L4, x, Some(OfB({1, 2}, true)), OfB({2}, true));
    assert TermAt(L5, 3, Package(A)) == Some(OfA({3}, true)) by { TermAtPrefix(L5, L3, 3, Package(A)); }
    SatisfierIs(U, L5, L2, y, Some(OfA({1, 2, 3}, true)), OfA({3}, true));
    assert Difference(x, x).None?;
    AnalyseTwo(L5, x, y);
    ResolveUnfolds(L5, B2_NEEDS_A1, 5, Analysis(x, 4, 2));
  }

  lemma SecondConflict()
    requires GoodLog(U, M5)
    ensures Resolve(M5, B1_NEEDS_A1, 5) == Resolve(M5, A1_NEEDED, 4)
  {
    LogsSay();
    Relations();
    var x, y := OfB({1}, true), OfA({1}, false);
    SatisfierIs(U, M5, L4, x, Some(OfB({1, 2}, true)), OfB({1}, true));
    assert TermAt(M5, 3, Package(A)) == Some(OfA({3}, true)) by { TermAtPrefix(M5, L3, 3, Package(A)); }
    SatisfierIs(U, M5, L2, y, Some(OfA({1, 2, 3}, true)), OfA({3}, true));
    assert Difference(OfB({2}, false), x).None? by { assert {1, 2} - {2} == {1, 2} * {1}; }
    AnalyseTwo(M5, x, y);
    ResolveUnfolds(M5, B1_NEEDS_A1, 5, Analysis(x, 4, 2));
    ForgetsAbsence();
  }

  lemma RootCause()
    requires GoodLog(U, M5)
    ensures Resolve(M5, A1_NEEDED, 4) == Learned(1, A1_NEEDED)
  {
    LogsSay();
    Relations();
    var y := OfA({1}, false);
    assert TermAt(M5, 3, Package(A)) == Some(OfA({3}, true)) by { TermAtPrefix(M5, L3, 3, Package(A)); }
    SatisfierIs(U, M5, L2, y, Some(OfA({1, 2, 3}, true)), OfA({3}, true));
    assert Difference(OfA({3}, true), y).None? by { assert {1, 2, 3} * {3} <= {1, 2, 3} - {1}; }
    AnalyseOne(M5, y);
    ResolveUnfolds(M5, A1_NEEDED, 4, Analysis(y, 2, 1));
  }

  lemma {:induction false} MergeSame(y: Term)
    requires Intersect(y, y) == Some(y)
    ensures Merge([y, y]) == Some([y])
  {
    var none: seq<Term> := [];
    assert none + [y] == [y] && [y][0 := y] == [y] && [y, y][1..] == [y] && [y][1..] == [];
    assert MergeInto(none, y) == Some([y]) && MergeInto([y], y) == Some([y]);
    assert MergeFrom([y], [y]) == MergeFrom([y], none);
  }

  /** The lossy step: whichever version of B is taken, version 1 of A is needed, so it is always needed. */
  lemma ForgetsAbsence()
    ensures Resolvent(M5, B1_NEEDS_A1, Analysis(OfB({1}, true), 4, 2)) == Some(A1_NEEDED)
  {
    var x, y := OfB({1}, true), OfA({1}, false);
    assert Difference(OfB({2}, false), x).None? by { assert {1, 2} - {2} == {1, 2} * {1}; }
    assert B1_NEEDS_A1.terms[1..] == [y] && B2_NEEDS_A1.terms[1..] == [y] && [y][1..] == [];
    assert Without(B1_NEEDS_A1.terms, x) == [y] && WithoutSubject(B2_NEEDS_A1.terms, Package(B)) == [y];
    assert [y] + [y] + [] == [y, y];
    assert Intersect(y, y) == Some(y) by { assert {1} + {1} == {1}; }
    MergeSame(y);
  }

  lemma LastConflict()
    requires GoodLog(U, M3)
    ensures Resolve(M3, NO_A1, 3).Failed?
  {
    LogsSay();
    Relations();
    var x := OfA({1}, true);
    SatisfierIs(U, M3, L2, x, Some(OfA({1, 2, 3}, true)), x);
    assert Difference(x, x).None?;
    AnalyseOne(M3, x);
    ResolveUnfolds(M3, NO_A1, 3, Analysis(x, 2, 1));
    assert Without([x], x) == [] && WithoutSubject(A1_NEEDED.terms, Package(A)) == [];
    assert NewTerms([x], A1_NEEDED.terms, x, x) == [];
  }

  // ---------- The run ----------

  lemma UniverseIsGood()
    ensures GoodUniverse(U) && Satisfiable(U) && ValidSolution(U, map[A := 2])
  {
    forall pv, r | Known(U, pv) && r in Dependencies(U, pv)
      ensures r.name in U.names && (pv.RootVersion? || r.name != pv.name)
      ensures Acceptable(U, r) * AllVersions(U, r.name) != {}
    {
      assert 1 in Acceptable(U, r) * AllVersions(U, r.name);
    }
    assert Release(A, 2) in U.dependencies;
  }

  /** What a state looks like. */
  ghost predicate Looks(st: State, phase: Phase, log: Log, ofA: seq<Incompatibility>, ofB: seq<Incompatibility>,
                        listed: set<PackageVersion>, queue: seq<Item>) {
    && Reached(U, st) && st.phase == phase && st.log == log && st.listed == listed && st.queue == queue
    && ListFor(st.store, Root) == [ROOT_NEEDS_A]
    && ListFor(st.store, Package(A)) == ofA && ListFor(st.store, Package(B)) == ofB
  }

  lemma Decided()
    ensures forall log | log in [L2, M3] :: Package(A) !in DecisionsAt(log, |log|)
    ensures forall log | log in [L4, M5] :: Package(A) in DecisionsAt(log, |log|) && Package(B) !in DecisionsAt(log, |log|)
  {
    var none: Log := [];
    assert none + [L1[0]] == L1;
    DecidedMore(none, L1[0], Package(A));
    DecidedMore(L1, L2[1], Package(A));
    DecidedMore(L2, L3[2], Package(A));
    DecidedMore(L3, L4[3], Package(A));
    DecidedMore(L4, M5[4], Package(A));
    DecidedMore(L2, M3[2], Package(A));
    DecidedMore(none, L1[0], Package(B));
    DecidedMore(L1, L2[1], Package(B));
    DecidedMore(L2, L3[2], Package(B));
    DecidedMore(L3, L4[3], Package(B));
    DecidedMore(L4, M5[4], Package(B));
  }

  lemma {:induction false} OnlyOpen(log: Log, n: Name, m: Name, c: Term)
    requires {n, m} == {A, B} && TermAt(log, |log|, Package(n)) == Some(c) && c.positive
    requires Package(n) !in DecisionsAt(log, |log|)
    requires TermAt(log, |log|, Package(m)).None? || Package(m) in DecisionsAt(log, |log|)
    ensures Undecided(U, log) == map[n := c]
  {
    assert forall x :: x in U.names <==> x == n || x == m;
    assert forall x :: x in Undecided(U, log) <==> x == n;
  }

  // ---------- Step by step ----------

  /** A is required. */
  lemma RequireA() returns (st: State)
    ensures Looks(st, Choosing, L2, [ROOT_NEEDS_A], [], {RootVersion}, [])
  {
    st := Init(U);
    Start(U);
    var r := Requirement(A, {1, 2, 3});
    assert [r][1..] == [];
    assert AddFacts(U, map[], RootVersion, [r]) == Add(map[], ROOT_NEEDS_A);
    AddTwo(map[], ROOT_NEEDS_A, Root);
    AddTwo(map[], ROOT_NEEDS_A, Package(A));
    AddTwo(map[], ROOT_NEEDS_A, Package(B));
    assert Looks(st, Scan(Changed(Root), 0), L1, [ROOT_NEEDS_A], [], {RootVersion}, []);
    Outcomes();
    st := ScanDerives(U, st, ROOT_NEEDS_A, OfA({1, 2, 3}, false));
    st := ScanEnds(U, st);
    assert Looks(st, Scan(Changed(Package(A)), 0), L2, [ROOT_NEEDS_A], [], {RootVersion}, []);
    st := ScanQuiet(U, st, 1);
    st := ScanEnds(U, st);
  }

  lemma {:induction false} Filed(store: Store, i: Incompatibility)
    requires |i.terms| == 2 && SubjectOf(i.terms[0]).Package? && SubjectOf(i.terms[1]).Package?
    requires SubjectOf(i.terms[0]) != SubjectOf(i.terms[1])
    ensures ListFor(Add(store, i), Root) == ListFor(store, Root)
    ensures forall t :: t in i.terms ==> ListFor(Add(store, i), SubjectOf(t)) == ListFor(store, SubjectOf(t)) + [i]
  {
    AddTwo(store, i, Root);
    AddTwo(store, i, SubjectOf(i.terms[0]));
    AddTwo(store, i, SubjectOf(i.terms[1]));
  }

  lemma Usables()
    ensures Usable(U, A) == {2, 3} && Usable(U, B) == {1, 2}
  {
  }

  lemma EarlyConflicts()
    ensures !IsConflict(L2, A3_NEEDS_B) && !IsConflict(L4, B2_NEEDS_A1) && IsConflict(M5, B1_NEEDS_A1)
  {
    LogsSay();
    Relations();
    assert OfA({3}, true) in A3_NEEDS_B.terms && OfB({1, 2}, false) in A3_NEEDS_B.terms;
    assert OfB({2}, true) in B2_NEEDS_A1.terms && OfA({1}, false) in B2_NEEDS_A1.terms;
  }

  lemma BeforeA3()
    ensures Undecided(U, L2) == map[A := OfA({1, 2, 3}, true)]
    ensures IsBestVersion(U, A, ValidVersions(U, A, OfA({1, 2, 3}, true)), 3)
  {
    LogsSay();
    Decided();
    Usables();
    OnlyOpen(L2, A, B, OfA({1, 2, 3}, true));
  }

  /** Version 3 of A is tried. */
  lemma {:induction false} ChooseA3(st: State) returns (st': State)
    requires Looks(st, Choosing, L2, [ROOT_NEEDS_A], [], {RootVersion}, [])
    ensures Looks(st', Scan(Changed(Package(A)), 0), L3, [ROOT_NEEDS_A, A3_NEEDS_B], [A3_NEEDS_B],
                  {RootVersion, Release(A, 3)}, [])
  {
    BeforeA3();
    EarlyConflicts();
    Filed(st.store, A3_NEEDS_B);
    assert OfA({3}, true) in A3_NEEDS_B.terms && OfB({1, 2}, false) in A3_NEEDS_B.terms;
    st' := Selects(U, st, A, OfA({1, 2, 3}, true), 3, Requirement(B, {1, 2}));
  }

  /** So B is required. */
  lemma {:induction false} ScanA3(st: State) returns (st': State)
    requires Looks(st, Scan(Changed(Package(A)), 0), L3, [ROOT_NEEDS_A, A3_NEEDS_B], [A3_NEEDS_B],
                   {RootVersion, Release(A, 3)}, [])
    ensures Looks(st', Choosing, L4, [ROOT_NEEDS_A, A3_NEEDS_B], [A3_NEEDS_B], {RootVersion, Release(A, 3)}, [])
  {
    Outcomes();
    st' := ScanQuiet(U, st, 1);
    st' := ScanDerives(U, st', A3_NEEDS_B, OfB({1, 2}, false));
    st' := ScanEnds(U, st');
    st' := ScanQuiet(U, st', 1);
    st' := ScanEnds(U, st');
  }

  lemma BeforeB2()
    ensures Undecided(U, L4) == map[B := OfB({1, 2}, true)]
    ensures IsBestVersion(U, B, ValidVersions(U, B, OfB({1, 2}, true)), 2)
  {
    LogsSay();
    Decided();
    Usables();
    OnlyOpen(L4, B, A, OfB({1, 2}, true));
  }

  /** Version 2 of B is tried. */
  lemma {:induction false} ChooseB2(st: State) returns (st': State)
    requires Looks(st, Choosing, L4, [ROOT_NEEDS_A, A3_NEEDS_B], [A3_NEEDS_B], {RootVersion, Release(A, 3)}, [])
    ensures Looks(st', Scan(Changed(Package(B)), 0), L5, [ROOT_NEEDS_A, A3_NEEDS_B, B2_NEEDS_A1], [A3_NEEDS_B, B2_NEEDS_A1],
                  {RootVersion, Release(A, 3), Release(B, 2)}, [])
  {
    BeforeB2();
    EarlyConflicts();
    Filed(st.store, B2_NEEDS_A1);
    assert OfB({2}, true) in B2_NEEDS_A1.terms && OfA({1}, false) in B2_NEEDS_A1.terms;
    st' := Selects(U, st, B, OfB({1, 2}, true), 2, Requirement(A, {1}));
  }

  /** It conflicts with version 3 of A and is excluded. */
  lemma {:induction false} LearnB2(st: State) returns (st': State)
    requires Looks(st, Scan(Changed(Package(B)), 1), L5, [ROOT_NEEDS_A, A3_NEEDS_B, B2_NEEDS_A1], [A3_NEEDS_B, B2_NEEDS_A1],
                   {RootVersion, Release(A, 3), Release(B, 2)}, [])
    ensures Looks(st', Scan(Changed(Package(B)), 2), M5, [ROOT_NEEDS_A, A3_NEEDS_B, B2_NEEDS_A1], [A3_NEEDS_B, B2_NEEDS_A1],
                  {RootVersion, Release(A, 3), Release(B, 2)}, [Changed(Package(B))])
  {
    Outcomes();
    UniverseIsGood();
    ReachedIsGood(U, st);
    FirstConflict();
    CutLast(L4, L5[4], 2);
    CutLast(L3, L4[3], 2);
    st' := ScanLearns(U, st, B2_NEEDS_A1, 2, B2_NEEDS_A1, OfB({2}, true));
  }

  lemma {:induction false} ScanB2(st: State) returns (st': State)
    requires Looks(st, Scan(Changed(Package(B)), 0), L5, [ROOT_NEEDS_A, A3_NEEDS_B, B2_NEEDS_A1], [A3_NEEDS_B, B2_NEEDS_A1],
                   {RootVersion, Release(A, 3), Release(B, 2)}, [])
    ensures Looks(st', Choosing, M5, [ROOT_NEEDS_A, A3_NEEDS_B, B2_NEEDS_A1], [A3_NEEDS_B, B2_NEEDS_A1],
                  {RootVersion, Release(A, 3), Release(B, 2)}, [])
  {
    Outcomes();
    LaterOutcomes();
    st' := ScanQuiet(U, st, 1);
    st' := LearnB2(st');
    st' := ScanEnds(U, st');
    st' := ScanQuiet(U, st', 2);
    st' := ScanEnds(U, st');
  }

  lemma BeforeB1()
    ensures Undecided(U, M5) == map[B := OfB({1}, true)] && IsBestVersion(U, B, ValidVersions(U, B, OfB({1}, true)), 1)
  {
    LogsSay();
    Decided();
    Usables();
    OnlyOpen(M5, B, A, OfB({1}, true));
  }

  /** Version 1 of B conflicts at once. */
  lemma {:induction false} ChooseB1(st: State) returns (st': State)
    requires Looks(st, Choosing, M5, [ROOT_NEEDS_A, A3_NEEDS_B, B2_NEEDS_A1], [A3_NEEDS_B, B2_NEEDS_A1],
                   {RootVersion, Release(A, 3), Release(B, 2)}, [])
    ensures Looks(st', Scan(Changed(Package(B)), 0), M5, [ROOT_NEEDS_A, A3_NEEDS_B, B2_NEEDS_A1, B1_NEEDS_A1],
                  [A3_NEEDS_B, B2_NEEDS_A1, B1_NEEDS_A1], {RootVersion, Release(A, 3), Release(B, 2), Release(B, 1)}, [])
  {
    BeforeB1();
    EarlyConflicts();
    Filed(st.store, B1_NEEDS_A1);
    assert OfB({1}, true) in B1_NEEDS_A1.terms && OfA({1}, false) in B1_NEEDS_A1.terms;
    st' := Selects(U, st, B, OfB({1}, true), 1, Requirement(A, {1}));
  }

  /** The lossy step: version 1 of A is now required, with or without B. */
  lemma {:induction false} LearnB1(st: State) returns (st': State)
    requires Looks(st, Scan(Changed(Package(B)), 2), M5, [ROOT_NEEDS_A, A3_NEEDS_B, B2_NEEDS_A1, B1_NEEDS_A1],
                   [A3_NEEDS_B, B2_NEEDS_A1, B1_NEEDS_A1], {RootVersion, Release(A, 3), Release(B, 2), Release(B, 1)}, [])
    ensures Looks(st', Scan(Changed(Package(B)), 3), M3, [ROOT_NEEDS_A, A3_NEEDS_B, B2_NEEDS_A1, B1_NEEDS_A1, A1_NEEDED],
                  [A3_NEEDS_B, B2_NEEDS_A1, B1_NEEDS_A1], {RootVersion, Release(A, 3), Release(B, 2), Release(B, 1)},
                  [Changed(Package(A))])
  {
    UniverseIsGood();
    ReachedIsGood(U, st);
    LessonOfB1();
    FiledOne(st.store, A1_NEEDED);
    st' := ScanLearns(U, st, B1_NEEDS_A1, 1, A1_NEEDED, OfA({1}, false));
  }

  lemma LessonOfB1()
    requires GoodLog(U, M5)
    ensures Propagate(M5, B1_NEEDS_A1) == Conflict && Resolve(M5, B1_NEEDS_A1, 5) == Learned(1, A1_NEEDED)
    ensures Cut(M5, 1) == L2 && Propagate(L2, A1_NEEDED) == Derived(OfA({1}, false))
  {
    Outcomes();
    LaterOutcomes();
    SecondConflict();
    RootCause();
    CutToL2();
  }

  lemma {:induction false} FiledOne(store: Store, i: Incompatibility)
    requires |i.terms| == 1 && SubjectOf(i.terms[0]) == Package(A)
    ensures ListFor(Add(store, i), Root) == ListFor(store, Root)
    ensures ListFor(Add(store, i), Package(A)) == ListFor(store, Package(A)) + [i]
    ensures ListFor(Add(store, i), Package(B)) == ListFor(store, Package(B))
  {
    AddOne(store, i, Root);
    AddOne(store, i, Package(A));
    AddOne(store, i, Package(B));
  }

  lemma CutToL2()
    ensures Cut(M5, 1) == L2
  {
    CutLast(L4, M5[4], 1);
    CutLast(L3, L4[3], 1);
    CutLast(L2, L3[2], 1);
    CutLast(L1, L2[1], 1);
  }

  lemma {:induction false} ScanB1(st: State) returns (st': State)
    requires Looks(st, Scan(Changed(Package(B)), 0), M5, [ROOT_NEEDS_A, A3_NEEDS_B, B2_NEEDS_A1, B1_NEEDS_A1],
                   [A3_NEEDS_B, B2_NEEDS_A1, B1_NEEDS_A1], {RootVersion, Release(A, 3), Release(B, 2), Release(B, 1)}, [])
    ensures Looks(st', Choosing, M3, [ROOT_NEEDS_A, A3_NEEDS_B, B2_NEEDS_A1, B1_NEEDS_A1, A1_NEEDED],
                  [A3_NEEDS_B, B2_NEEDS_A1, B1_NEEDS_A1], {RootVersion, Release(A, 3), Release(B, 2), Release(B, 1)}, [])
  {
    LaterOutcomes();
    st' := ScanQuiet(U, st, 2);
    st' := LearnB1(st');
    st' := ScanEnds(U, st');
    st' := ScanQuiet(U, st', 5);
    st' := ScanEnds(U, st');
  }

  lemma BeforeNoVersion()
    ensures Undecided(U, M3) == map[A := OfA({1}, true)] && ValidVersions(U, A, OfA({1}, true)) == {}
  {
    LogsSay();
    Decided();
    OnlyOpen(M3, A, B, OfA({1}, true));
  }

  /** But it cannot be fetched. */
  lemma {:induction false} NoVersionLeft(st: State) returns (st': State)
    requires Looks(st, Choosing, M3, [ROOT_NEEDS_A, A3_NEEDS_B, B2_NEEDS_A1, B1_NEEDS_A1, A1_NEEDED],
                   [A3_NEEDS_B, B2_NEEDS_A1, B1_NEEDS_A1], {RootVersion, Release(A, 3), Release(B, 2), Release(B, 1)}, [])
    ensures Reached(U, st') && st'.phase.Unsolvable?
  {
    BeforeNoVersion();
    LaterOutcomes();
    var c := OfA({1}, true);
    AddOne(st.store, NO_A1, Package(A));
    st' := NothingToSelect(U, st, A, c);
    st' := ScanQuiet(U, st', 5);
    UniverseIsGood();
    ReachedIsGood(U, st');
    LastConflict();
    st' := ScanFails(U, st', NO_A1);
  }

  /**
   * A failure is reported although there is a solution and every dependency accepts an existing version.
   * B has two troublesome versions and is not mandatory, so the input is not a forgiving one.
   */
  lemma FailureDespiteSolution()
    ensures GoodUniverse(U) && Satisfiable(U)
    ensures ValidSolution(U, map[A := 2]) && !Forgiving(U)
    ensures exists k: nat :: Run(U, k).phase.Unsolvable?
  {
    UniverseIsGood();
    var st := RequireA();
    st := ChooseA3(st);
    st := ScanA3(st);
    st := ChooseB2(st);
    st := ScanB2(st);
    st := ChooseB1(st);
    st := ScanB1(st);
    st := NoVersionLeft(st);
    var k := Position(U, st);
    if Forgiving(U) { RunDecides(U, k); }
  }
}
