/** A run that raises the "mutually exclusive terms" error although there is a solution. */
module MergeErrors {
  import opened Terms
  import opened Universes
  import opened Resolution
  import opened Logs
  import opened Conflicts
  import opened Machine
  import opened Invariants
  import opened Traces

  const A: Name := 0
  const B: Name := 1
  const C: Name := 2

  /**
   * Version 1 of A needs nothing; version 2 needs B and C. Both versions of B need C but accept no
   * version of it. Version 1 of A alone is a solution.
   */
  const U := Universe({A, B, C}, map[A := {1, 2}, B := {1, 2}, C := {1, 2}],
                      map[Release(A, 1) := [],
                          Release(A, 2) := [Requirement(B, {1, 2}), Requirement(C, {1, 2})],
                          Release(B, 1) := [Requirement(C, {})],
                          Release(B, 2) := [Requirement(C, {})],
                          Release(C, 1) := [],
                          Release(C, 2) := []],
                      [Requirement(A, {1, 2})], map[], {})

  function Of(n: Name, versions: set<Version>, positive: bool): Term {
    VersionConstraint(n, versions, positive, {1, 2})
  }

  // ---------- The incompatibilities and the logs ----------

  const ROOT_NEEDS_A := Incompatibility([RootConstraint(true), Of(A, {1, 2}, false)], DependencyCause)
  const A2_NEEDS_B := Incompatibility([Of(A, {2}, true), Of(B, {1, 2}, false)], DependencyCause)
  const A2_NEEDS_C := Incompatibility([Of(A, {2}, true), Of(C, {1, 2}, false)], DependencyCause)
  const B2_NEEDS_C := Incompatibility([Of(B, {2}, true), Of(C, {}, false)], DependencyCause)
  const B1_NEEDS_C := Incompatibility([Of(B, {1}, true), Of(C, {}, false)], DependencyCause)

  const L1: Log := [Assignment(RootConstraint(true), 1, 0, None)]
  const L2 := L1 + [Assignment(Of(A, {1, 2}, true), 1, 1, Some(IncompatibilityCause(ROOT_NEEDS_A)))]
  const L3 := L2 + [Assignment(Of(A, {2}, true), 2, 2, None)]
  const L4 := L3 + [Assignment(Of(B, {1, 2}, true), 2, 3, Some(IncompatibilityCause(A2_NEEDS_B)))]
  const L5 := L4 + [Assignment(Of(C, {1, 2}, true), 2, 4, Some(IncompatibilityCause(A2_NEEDS_C)))]
  const L6 := L5 + [Assignment(Of(B, {2}, true), 3, 5, None)]
  const M6 := L5 + [Assignment(Of(B, {2}, false), 2, 5, Some(IncompatibilityCause(B2_NEEDS_C)))]

  /** What the log says about the three packages. */
  ghost predicate Says(log: Log, a: Option<Term>, b: Option<Term>, c: Option<Term>) {
    && TermAt(log, |log|, Root) == Some(RootConstraint(true))
    && TermAt(log, |log|, Package(A)) == a && TermAt(log, |log|, Package(B)) == b && TermAt(log, |log|, Package(C)) == c
  }

  ghost function Updated(before: Option<Term>, n: Name, t: Term): Option<Term>
    requires before.Some? ==> SubjectOf(before.value) == Package(n)
  {
    if SubjectOf(t) != Package(n) then before else if before.None? then Some(t) else Intersect(before.value, t)
  }

  lemma {:induction false} SaysMore(log: Log, x: Assignment, a: Option<Term>, b: Option<Term>, c: Option<Term>)
    requires Says(log, a, b, c) && x.term.VersionConstraint?
    requires (a.Some? ==> SubjectOf(a.value) == Package(A)) && (b.Some? ==> SubjectOf(b.value) == Package(B))
    requires c.Some? ==> SubjectOf(c.value) == Package(C)
    ensures Says(log + [x], Updated(a, A, x.term), Updated(b, B, x.term), Updated(c, C, x.term))
  {
    OneMore(log, x, Root);
    OneMore(log, x, Package(A));
    OneMore(log, x, Package(B));
    OneMore(log, x, Package(C));
  }

  lemma LogsSay()
    ensures Says(L1, None, None, None)
    ensures Says(L2, Some(Of(A, {1, 2}, true)), None, None)
    ensures Says(L3, Some(Of(A, {2}, true)), None, None)
    ensures Says(L4, Some(Of(A, {2}, true)), Some(Of(B, {1, 2}, true)), None)
    ensures Says(L5, Some(Of(A, {2}, true)), Some(Of(B, {1, 2}, true)), Some(Of(C, {1, 2}, true)))
    ensures Says(L6, Some(Of(A, {2}, true)), Some(Of(B, {2}, true)), Some(Of(C, {1, 2}, true)))
    ensures Says(M6, Some(Of(A, {2}, true)), Some(Of(B, {1}, true)), Some(Of(C, {1, 2}, true)))
  {
    assert Says(L1, None, None, None) by {
      assert TermAt(L1, 0, Root) == None && TermAt(L1, 0, Package(A)) == None;
      assert TermAt(L1, 0, Package(B)) == None && TermAt(L1, 0, Package(C)) == None;
    }
    var a12, b12, c12 := Some(Of(A, {1, 2}, true)), Some(Of(B, {1, 2}, true)), Some(Of(C, {1, 2}, true));
    var a2 := Some(Of(A, {2}, true));
    Intersections();
    SaysMore(L1, L2[1], None, None, None);
    SaysMore(L2, L3[2], a12, None, None);
    SaysMore(L3, L4[3], a2, None, None);
    SaysMore(L4, L5[4], a2, b12, None);
    SaysMore(L5, L6[5], a2, b12, c12);
    SaysMore(L5, M6[5], a2, b12, c12);
  }

  lemma Intersections()
    ensures forall n :: Intersect(Of(n, {1, 2}, true), Of(n, {2}, true)) == Some(Of(n, {2}, true))
    ensures Intersect(Of(B, {1, 2}, true), Of(B, {2}, false)) == Some(Of(B, {1}, true))
  {
    assert {1, 2} * {1, 2} * ({1, 2} * {2}) == {2};
    assert {1, 2} * {1, 2} * ({1, 2} - {2}) == {1};
  }

  // ---------- Unit propagation ----------

  /** How the terms of the run relate. */
  lemma Relations(n: Name)
    ensures forall c | c in [Of(n, {1, 2}, true), Of(n, {2}, true), Of(n, {1}, true)] ::
              !Satisfies(c, Of(n, {1, 2}, false)) && Intersect(c, Of(n, {1, 2}, false)).None?
    ensures !Satisfies(Of(n, {1, 2}, true), Of(n, {2}, true)) && Intersect(Of(n, {1, 2}, true), Of(n, {2}, true)).Some?
    ensures !Satisfies(Of(n, {1, 2}, true), Of(n, {1}, true))
    ensures Satisfies(Of(n, {2}, true), Of(n, {2}, true)) && Satisfies(Of(n, {1}, true), Of(n, {1}, true))
    ensures !Satisfies(Of(n, {1}, true), Of(n, {2}, true)) && Intersect(Of(n, {1}, true), Of(n, {2}, true)).None?
    ensures Satisfies(Of(n, {1, 2}, true), Of(n, {}, false))
  {
    assert 1 in Allowed(Of(n, {1, 2}, true)) && 2 in Allowed(Of(n, {1, 2}, true));
    assert 1 in Allowed(Of(n, {1}, true)) && 2 in Allowed(Of(n, {2}, true));
    assert 2 in Allowed(Of(n, {1, 2}, true)) * Allowed(Of(n, {2}, true));
  }

  lemma Outcomes()
    ensures Propagate(L1, ROOT_NEEDS_A) == Derived(Of(A, {1, 2}, false)) && Propagate(L2, ROOT_NEEDS_A) == Quiet
    ensures Propagate(L3, ROOT_NEEDS_A) == Quiet && Propagate(L3, A2_NEEDS_B) == Derived(Of(B, {1, 2}, false))
    ensures Propagate(L4, A2_NEEDS_C) == Derived(Of(C, {1, 2}, false))
    ensures Propagate(L5, A2_NEEDS_B) == Quiet && Propagate(L5, A2_NEEDS_C) == Quiet
    ensures Propagate(L5, B2_NEEDS_C) == Derived(Of(B, {2}, true))
  {
    LogsSay();
    Relations(A);
    Relations(B);
    Relations(C);
    PropagateTwo(L1, ROOT_NEEDS_A);
    PropagateTwo(L2, ROOT_NEEDS_A);
    PropagateTwo(L3, ROOT_NEEDS_A);
    PropagateTwo(L3, A2_NEEDS_B);
    PropagateTwo(L4, A2_NEEDS_C);
    PropagateTwo(L5, A2_NEEDS_B);
    PropagateTwo(L5, A2_NEEDS_C);
    PropagateTwo(L5, B2_NEEDS_C);
  }

  lemma LaterOutcomes()
    ensures Propagate(L6, A2_NEEDS_B) == Quiet && Propagate(L6, B2_NEEDS_C) == Conflict
    ensures Propagate(M6, A2_NEEDS_B) == Quiet && Propagate(M6, B2_NEEDS_C) == Quiet
    ensures Propagate(M6, B1_NEEDS_C) == Conflict
  {
    LogsSay();
    Relations(A);
    Relations(B);
    Relations(C);
    PropagateTwo(L6, A2_NEEDS_B);
    PropagateTwo(L6, B2_NEEDS_C);
    PropagateTwo(M6, A2_NEEDS_B);
    PropagateTwo(M6, B2_NEEDS_C);
    PropagateTwo(M6, B1_NEEDS_C);
  }

  // ---------- Conflict analysis ----------

  /** C is required just before the last entry of the log, and that satisfies "not one of no versions". */
  lemma {:induction false} CIsSatisfied(log: Log)
    requires (log == L6 || log == M6) && GoodLog(U, log)
    ensures SatAt(log, |log|, Of(C, {}, false)) && Satisfier(log, Of(C, {}, false)) == 4
  {
    LogsSay();
    Relations(C);
    TermAtPrefix(log, L5, 5, Package(C));
    SatisfierIs(U, log, L4, Of(C, {}, false), None, Of(C, {1, 2}, true));
  }

  lemma {:induction false} FirstConflict(log: Log)
    requires log == L6 && GoodLog(U, log)
    ensures Resolve(log, B2_NEEDS_C, |log|) == Learned(2, B2_NEEDS_C) && Cut(log, 2) == L5
  {
    LogsSay();
    Relations(B);
    var x, y := Of(B, {2}, true), Of(C, {}, false);
    CIsSatisfied(log);
    SatisfierIs(U, log, L5, x, Some(Of(B, {1, 2}, true)), x);
    assert Difference(x, x).None?;
    AnalyseTwo(log, x, y);
    ResolveUnfolds(log, B2_NEEDS_C, |log|, Analysis(x, 5, 2));
    CutLast(L5, L6[5], 2);
    CutLast(L4, L5[4], 2);
  }

  /** The parents agree on a term that excludes nothing, and merging it with itself fails. */
  lemma {:induction false} SecondConflict(log: Log)
    requires log == M6 && GoodLog(U, log)
    ensures Resolve(log, B1_NEEDS_C, |log|) == MergeError
  {
    LogsSay();
    Relations(B);
    var x, y := Of(B, {1}, true), Of(C, {}, false);
    CIsSatisfied(log);
    SatisfierIs(U, log, L5, x, Some(Of(B, {1, 2}, true)), x);
    assert Difference(Of(B, {2}, false), x).None? by { assert {1, 2} - {2} == {1, 2} * {1}; }
    AnalyseTwo(log, x, y);
    ResolveUnfolds(log, B1_NEEDS_C, |log|, Analysis(x, 5, 2));
    NothingExcludedTwice(x, y);
  }

  lemma {:induction false} NothingExcludedTwice(x: Term, y: Term)
    requires x == Of(B, {1}, true) && y == Of(C, {}, false)
    ensures Merge(NewTerms(B1_NEEDS_C.terms, B2_NEEDS_C.terms, x, Of(B, {2}, false))).None?
  {
    RestOfTwo(x, y);
    RestOfTwo(Of(B, {2}, true), y);
    assert Difference(Of(B, {2}, false), x).None? by { assert {1, 2} - {2} == {1, 2} * {1}; }
    assert [y] + [y] + [] == [y, y];
    SameTermTwice(y);
  }

  lemma {:induction false} SameTermTwice(y: Term)
    requires y == Of(C, {}, false)
    ensures Merge([y, y]).None? && Meaning(y) == Domain(y)
  {
    var none: seq<Term> := [];
    assert none + [y] == [y] && [y, y][1..] == [y];
    assert MergeInto(none, y) == Some([y]) && MergeInto([y], y).None?;
    assert MergeFrom([y], [y]).None?;
  }

  // ---------- The run ----------

  lemma UniverseIsGood()
    ensures GoodUniverse(U) && !Satisfiable(U) && ValidSolution(U, map[A := 1])
  {
    forall pv, r | Known(U, pv) && r in Dependencies(U, pv) ensures r.name in U.names && !IsSelf(pv, r) {}
    assert Known(U, Release(B, 1)) && Requirement(C, {}) in Dependencies(U, Release(B, 1));
    assert Release(A, 1) in U.dependencies;
  }

  /** What a state looks like. */
  ghost predicate Looks(st: State, phase: Phase, log: Log, ofA: seq<Incompatibility>, ofB: seq<Incompatibility>,
                        ofC: seq<Incompatibility>, listed: set<PackageVersion>, queue: seq<Item>) {
    && Reached(U, st) && st.phase == phase && st.log == log && st.listed == listed && st.queue == queue
    && ListFor(st.store, Root) == [ROOT_NEEDS_A] && ListFor(st.store, Package(A)) == ofA
    && ListFor(st.store, Package(B)) == ofB && ListFor(st.store, Package(C)) == ofC
  }

  /** Filing an incompatibility between two packages; `z` is the third one. */
  lemma {:induction false} Filed(store: Store, i: Incompatibility, x: Subject, y: Subject, z: Subject)
    requires |i.terms| == 2 && SubjectOf(i.terms[0]) == x && SubjectOf(i.terms[1]) == y
    requires x.Package? && y.Package? && z.Package? && x != y && y != z && x != z
    ensures var next := Add(store, i);
            && ListFor(next, Root) == ListFor(store, Root) && ListFor(next, z) == ListFor(store, z)
            && ListFor(next, x) == ListFor(store, x) + [i] && ListFor(next, y) == ListFor(store, y) + [i]
  {
    AddTwo(store, i, Root);
    AddTwo(store, i, x);
    AddTwo(store, i, y);
    AddTwo(store, i, z);
  }

  lemma {:induction false} DecidedOf(s: Subject)
    requires s.Package?
    ensures s !in DecisionsAt(L2, 2) && (s in DecisionsAt(L5, 5) <==> s == Package(A))
    ensures s in DecisionsAt(M6, 6) <==> s == Package(A)
  {
    var none: Log := [];
    assert none + [L1[0]] == L1;
    DecidedMore(none, L1[0], s);
    DecidedMore(L1, L2[1], s);
    DecidedMore(L2, L3[2], s);
    DecidedMore(L3, L4[3], s);
    DecidedMore(L4, L5[4], s);
    DecidedMore(L5, M6[5], s);
  }

  lemma Usables()
    ensures forall n :: n in U.names ==> Usable(U, n) == {1, 2}
  {
  }

  lemma OpenAtL2()
    ensures Undecided(U, L2) == map[A := Of(A, {1, 2}, true)]
  {
    LogsSay();
    DecidedOf(Package(A));
    assert forall n :: n in Undecided(U, L2) <==> n == A;
  }

  lemma {:induction false} BeforeA2(log: Log)
    requires log == L2
    ensures IsBest(U, Undecided(U, log), A) && IsBestVersion(U, A, ValidVersions(U, A, Undecided(U, log)[A]), 2)
    ensures !IsConflict(log, A2_NEEDS_B) && !IsConflict(log, A2_NEEDS_C)
  {
    OpenAtL2();
    Usables();
    OneCandidate(U, Undecided(U, log), A, Of(A, {1, 2}, true));
    NoEarlyConflict();
  }

  lemma {:induction false} OpenBAndC(log: Log, left: set<Version>)
    requires left == {1} || left == {1, 2}
    requires Says(log, Some(Of(A, {2}, true)), Some(Of(B, left, true)), Some(Of(C, {1, 2}, true)))
    requires forall s: Subject :: s.Package? ==> (s in DecisionsAt(log, |log|) <==> s == Package(A))
    ensures Undecided(U, log) == map[B := Of(B, left, true), C := Of(C, {1, 2}, true)]
  {
    assert forall n :: n in U.names <==> n == A || n == B || n == C;
  }

  /** B comes first by its name, or because fewer versions are left. */
  lemma {:induction false} BIsBest(open: map<Name, Term>, left: set<Version>)
    requires left == {1} || left == {1, 2}
    requires open == map[B := Of(B, left, true), C := Of(C, {1, 2}, true)]
    ensures IsBest(U, open, B) && ValidVersions(U, B, open[B]) == left
  {
    Usables();
    assert ValidVersions(U, B, open[B]) == left && ValidVersions(U, C, open[C]) == {1, 2};
    assert |{1}| == 1 && |{1, 2}| == 2;
    forall m | m in open ensures Precedes(U, open, B, m) { assert m == B || m == C; }
  }

  lemma {:induction false} OpenAfterL5(log: Log, left: set<Version>, v: Version)
    requires (log == L5 && left == {1, 2} && v == 2) || (log == M6 && left == {1} && v == 1)
    ensures B in Undecided(U, log) && Undecided(U, log)[B] == Of(B, left, true) && IsBest(U, Undecided(U, log), B)
    ensures IsBestVersion(U, B, ValidVersions(U, B, Undecided(U, log)[B]), v)
    ensures IsConflict(log, if log == L5 then B2_NEEDS_C else B1_NEEDS_C) <==> log == M6
  {
    LogsSay();
    NoEarlyConflict();
    forall s: Subject | s.Package? ensures s in DecisionsAt(log, |log|) <==> s == Package(A) { DecidedOf(s); }
    OpenBAndC(log, left);
    BIsBest(Undecided(U, log), left);
  }

  // ---------- Step by step ----------

  /** A is required. */
  lemma RequireA() returns (st: State)
    ensures Looks(st, Choosing, L2, [ROOT_NEEDS_A], [], [], {RootVersion}, [])
  {
    st := Init(U);
    Start(U);
    OneFact(U, map[], RootVersion, Requirement(A, {1, 2}));
    AddTwo(map[], ROOT_NEEDS_A, Root);
    AddTwo(map[], ROOT_NEEDS_A, Package(A));
    AddTwo(map[], ROOT_NEEDS_A, Package(B));
    AddTwo(map[], ROOT_NEEDS_A, Package(C));
    assert Looks(st, Scan(Changed(Root), 0), L1, [ROOT_NEEDS_A], [], [], {RootVersion}, []);
    Outcomes();
    st := ScanDerives(U, st, ROOT_NEEDS_A, Of(A, {1, 2}, false));
    st := ScanEnds(U, st);
    assert Looks(st, Scan(Changed(Package(A)), 0), L2, [ROOT_NEEDS_A], [], [], {RootVersion}, []);
    st := ScanQuiet(U, st, 1);
    st := ScanEnds(U, st);
  }

  lemma NoEarlyConflict()
    ensures !IsConflict(L2, A2_NEEDS_B) && !IsConflict(L2, A2_NEEDS_C) && !IsConflict(L5, B2_NEEDS_C)
    ensures IsConflict(M6, B1_NEEDS_C)
  {
    LogsSay();
    Relations(A);
    Relations(B);
    Relations(C);
    assert Of(A, {2}, true) in A2_NEEDS_B.terms && Of(B, {1, 2}, false) in A2_NEEDS_B.terms;
    assert Of(A, {2}, true) in A2_NEEDS_C.terms && Of(C, {1, 2}, false) in A2_NEEDS_C.terms;
    assert Of(B, {2}, true) in B2_NEEDS_C.terms && Of(C, {}, false) in B2_NEEDS_C.terms;
  }

  /** Version 2 of A is tried. */
  lemma {:induction false} ChooseA2(st: State) returns (st': State)
    requires Looks(st, Choosing, L2, [ROOT_NEEDS_A], [], [], {RootVersion}, [])
    ensures Looks(st', Scan(Changed(Package(A)), 0), L3, [ROOT_NEEDS_A, A2_NEEDS_B, A2_NEEDS_C], [A2_NEEDS_B],
                  [A2_NEEDS_C], {RootVersion, Release(A, 2)}, [])
  {
    BeforeA2(st.log);
    var pv, q, r := Release(A, 2), Requirement(B, {1, 2}), Requirement(C, {1, 2});
    assert Dependencies(U, pv) == [q, r] && Fact(U, pv, q) == A2_NEEDS_B && Fact(U, pv, r) == A2_NEEDS_C;
    Filed(st.store, A2_NEEDS_B, Package(A), Package(B), Package(C));
    Filed(Add(st.store, A2_NEEDS_B), A2_NEEDS_C, Package(A), Package(C), Package(B));
    st' := SelectsTwo(U, st, A, 2, q, r);
  }

  /** So B and C are required. */
  lemma {:induction false} ScanA2(st: State) returns (st': State)
    requires Looks(st, Scan(Changed(Package(A)), 0), L3, [ROOT_NEEDS_A, A2_NEEDS_B, A2_NEEDS_C], [A2_NEEDS_B],
                   [A2_NEEDS_C], {RootVersion, Release(A, 2)}, [])
    ensures Looks(st', Choosing, L5, [ROOT_NEEDS_A, A2_NEEDS_B, A2_NEEDS_C], [A2_NEEDS_B],
                  [A2_NEEDS_C], {RootVersion, Release(A, 2)}, [])
  {
    Outcomes();
    st' := ScanQuiet(U, st, 1);
    st' := ScanDerives(U, st', A2_NEEDS_B, Of(B, {1, 2}, false));
    st' := ScanDerives(U, st', A2_NEEDS_C, Of(C, {1, 2}, false));
    st' := ScanEnds(U, st');
    st' := ScanQuiet(U, st', 1);
    st' := ScanEnds(U, st');
    st' := ScanQuiet(U, st', 1);
    st' := ScanEnds(U, st');
  }

  /** Version 2 of B is tried. */
  lemma {:induction false} ChooseB2(st: State) returns (st': State)
    requires Looks(st, Choosing, L5, [ROOT_NEEDS_A, A2_NEEDS_B, A2_NEEDS_C], [A2_NEEDS_B],
                   [A2_NEEDS_C], {RootVersion, Release(A, 2)}, [])
    ensures Looks(st', Scan(Changed(Package(B)), 0), L6, [ROOT_NEEDS_A, A2_NEEDS_B, A2_NEEDS_C],
                  [A2_NEEDS_B, B2_NEEDS_C], [A2_NEEDS_C, B2_NEEDS_C], {RootVersion, Release(A, 2), Release(B, 2)}, [])
  {
    OpenAfterL5(st.log, {1, 2}, 2);
    var pv, r := Release(B, 2), Requirement(C, {});
    assert Dependencies(U, pv) == [r] && Fact(U, pv, r) == B2_NEEDS_C;
    Filed(st.store, B2_NEEDS_C, Package(B), Package(C), Package(A));
    st' := SelectsOne(U, st, B, 2, r);
  }

  /** It conflicts with the requirement on C and is excluded. */
  lemma {:induction false} LearnB2(st: State) returns (st': State)
    requires Looks(st, Scan(Changed(Package(B)), 1), L6, [ROOT_NEEDS_A, A2_NEEDS_B, A2_NEEDS_C],
                   [A2_NEEDS_B, B2_NEEDS_C], [A2_NEEDS_C, B2_NEEDS_C], {RootVersion, Release(A, 2), Release(B, 2)}, [])
    ensures Looks(st', Scan(Changed(Package(B)), 2), M6, [ROOT_NEEDS_A, A2_NEEDS_B, A2_NEEDS_C],
                  [A2_NEEDS_B, B2_NEEDS_C], [A2_NEEDS_C, B2_NEEDS_C], {RootVersion, Release(A, 2), Release(B, 2)},
                  [Changed(Package(B))])
  {
    Outcomes();
    LaterOutcomes();
    UniverseIsGood();
    ReachedIsGood(U, st);
    FirstConflict(st.log);
    st' := ScanLearns(U, st, B2_NEEDS_C, 2, B2_NEEDS_C, Of(B, {2}, true));
  }

  lemma {:induction false} ScanB2(st: State) returns (st': State)
    requires Looks(st, Scan(Changed(Package(B)), 0), L6, [ROOT_NEEDS_A, A2_NEEDS_B, A2_NEEDS_C],
                   [A2_NEEDS_B, B2_NEEDS_C], [A2_NEEDS_C, B2_NEEDS_C], {RootVersion, Release(A, 2), Release(B, 2)}, [])
    ensures Looks(st', Choosing, M6, [ROOT_NEEDS_A, A2_NEEDS_B, A2_NEEDS_C],
                  [A2_NEEDS_B, B2_NEEDS_C], [A2_NEEDS_C, B2_NEEDS_C], {RootVersion, Release(A, 2), Release(B, 2)}, [])
  {
    LaterOutcomes();
    st' := ScanQuiet(U, st, 1);
    st' := LearnB2(st');
    st' := ScanEnds(U, st');
    st' := ScanQuiet(U, st', 2);
    st' := ScanEnds(U, st');
  }

  /** Version 1 of B conflicts at once. */
  lemma {:induction false} ChooseB1(st: State) returns (st': State)
    requires Looks(st, Choosing, M6, [ROOT_NEEDS_A, A2_NEEDS_B, A2_NEEDS_C],
                   [A2_NEEDS_B, B2_NEEDS_C], [A2_NEEDS_C, B2_NEEDS_C], {RootVersion, Release(A, 2), Release(B, 2)}, [])
    ensures Reached(U, st') && st'.phase == Scan(Changed(Package(B)), 0) && st'.log == M6
    ensures ListFor(st'.store, Package(B)) == [A2_NEEDS_B, B2_NEEDS_C, B1_NEEDS_C]
  {
    OpenAfterL5(st.log, {1}, 1);
    var pv, r := Release(B, 1), Requirement(C, {});
    assert Dependencies(U, pv) == [r] && Fact(U, pv, r) == B1_NEEDS_C;
    Filed(st.store, B1_NEEDS_C, Package(B), Package(C), Package(A));
    st' := SelectsOne(U, st, B, 1, r);
  }

  lemma {:induction false} Breaks(st: State) returns (st': State)
    requires Reached(U, st) && st.phase == Scan(Changed(Package(B)), 0) && st.log == M6
    requires ListFor(st.store, Package(B)) == [A2_NEEDS_B, B2_NEEDS_C, B1_NEEDS_C]
    ensures Reached(U, st') && st'.phase.Broken?
  {
    LaterOutcomes();
    st' := ScanQuiet(U, st, 2);
    UniverseIsGood();
    ReachedIsGood(U, st');
    SecondConflict(st'.log);
    st' := ScanBreaks(U, st', B1_NEEDS_C);
  }

  /** The error is raised although there is a solution, and for terms that do not exclude each other. */
  lemma BrokenDespiteSolution()
    ensures GoodUniverse(U) && !Satisfiable(U) && ValidSolution(U, map[A := 1])
    ensures exists k: nat :: Run(U, k).phase.Broken?
  {
    UniverseIsGood();
    var st := RequireA();
    st := ChooseA2(st);
    st := ScanA2(st);
    st := ChooseB2(st);
    st := ScanB2(st);
    st := ChooseB1(st);
    st := Breaks(st);
    var k := Position(U, st);
  }
}
