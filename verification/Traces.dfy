/** Following a run of the state machine step by step. */
module Traces {
  import opened Terms
  import opened Universes
  import opened Resolution
  import opened Logs
  import opened Conflicts
  import opened Machine
  import opened Invariants

  // ---------- The end of the log ----------

  lemma {:induction false} OneMore(log: Log, x: Assignment, s: Subject)
    ensures TermAt(log + [x], |log| + 1, s) ==
            var before := TermAt(log, |log|, s);
            if SubjectOf(x.term) != s then before
            else if before.None? then Some(x.term)
            else Intersect(before.value, x.term)
  {
    assert (log + [x])[..|log|] == log[..|log|];
    TermAtPrefix(log, log + [x], |log|, s);
  }

  lemma {:induction false} DecidedMore(log: Log, x: Assignment, s: Subject)
    ensures s in DecisionsAt(log + [x], |log| + 1) <==>
            s in DecisionsAt(log, |log|) || (x.cause.None? && SubjectOf(x.term) == s)
  {
    assert (log + [x])[..|log|] == log[..|log|];
    DecisionsAtPrefix(log, log + [x], |log|);
  }

  // ---------- Analysis of short incompatibilities ----------

  lemma {:induction false} SatisfierIs(u: Universe, log: Log, short: Log, t: Term, before: Option<Term>, after: Term)
    requires GoodLog(u, log) && GoodTerm(u, t) && |short| < |log| && short == log[..|short|]
    requires TermAt(short, |short|, SubjectOf(t)) == before && SubjectOf(after) == SubjectOf(t)
    requires before.None? || !Satisfies(before.value, t)
    requires TermAt(log, |short| + 1, SubjectOf(t)) == Some(after) && Satisfies(after, t)
    ensures SatAt(log, |log|, t) && Satisfier(log, t) == |short|
  {
    var k := |short|;
    assert log[..k] == short[..k];
    TermAtPrefix(log, short, k, SubjectOf(t));
    assert SatAt(log, k + 1, t) && !SatAt(log, k, t);
    SatStays(u, log, k + 1, |log|, t);
    var s := Satisfier(log, t);
    if s < k { SatStays(u, log, s + 1, k, t); }
  }

  lemma {:induction false} RestOfTwo(x: Term, y: Term)
    requires SubjectOf(x) != SubjectOf(y)
    ensures Without([x, y], x) == [y] && WithoutSubject([x, y], SubjectOf(x)) == [y]
  {
    assert [x, y][1..] == [y] && [y][1..] == [];
    assert Without([y], x) == [y] && WithoutSubject([y], SubjectOf(x)) == [y];
  }

  lemma {:induction false} AnalyseTwo(log: Log, x: Term, y: Term)
    requires SatAt(log, |log|, x) && SatAt(log, |log|, y) && Satisfier(log, y) < Satisfier(log, x)
    requires Difference(log[Satisfier(log, x)].term, x).None?
    ensures Analyse(log, [x, y]) == Some(Analysis(x, Satisfier(log, x), log[Satisfier(log, y)].level))
  {
    var terms := [x, y];
    assert terms[..1] == [x] && [x][..0] == [];
    var ex, ey := Explained(x, Satisfier(log, x)), Explained(y, Satisfier(log, y));
    assert SortTerms(log, [x]) == [ex];
    assert [ex][..0] == [];
    assert Insert([ex], ey) == [ey, ex];
    assert SortTerms(log, terms) == [ey, ex];
  }

  lemma {:induction false} AnalyseOne(log: Log, x: Term)
    requires SatAt(log, |log|, x) && Difference(log[Satisfier(log, x)].term, x).None?
    ensures Analyse(log, [x]) == Some(Analysis(x, Satisfier(log, x), 1))
  {
    assert [x][..0] == [];
    assert SortTerms(log, [x]) == [Explained(x, Satisfier(log, x))];
  }

  // ---------- The store and backtracking ----------

  lemma {:induction false} AddTwo(store: Store, i: Incompatibility, s: Subject)
    requires |i.terms| == 2 && SubjectOf(i.terms[0]) != SubjectOf(i.terms[1])
    ensures ListFor(Add(store, i), s) ==
            ListFor(store, s) + (if s == SubjectOf(i.terms[0]) || s == SubjectOf(i.terms[1]) then [i] else [])
  {
    var y := i.terms[1];
    assert i.terms[1..] == [y] && [y][1..] == [];
    var one := store[SubjectOf(i.terms[0]) := ListFor(store, SubjectOf(i.terms[0])) + [i]];
    assert AddUnder(one, i, [y]) == one[SubjectOf(y) := ListFor(one, SubjectOf(y)) + [i]];
  }

  lemma {:induction false} AddTwice(store: Store, i: Incompatibility, s: Subject)
    requires |i.terms| == 2 && SubjectOf(i.terms[0]) == SubjectOf(i.terms[1])
    ensures ListFor(Add(store, i), s) == ListFor(store, s) + (if s == SubjectOf(i.terms[0]) then [i, i] else [])
  {
    var x, y := SubjectOf(i.terms[0]), i.terms[1];
    assert i.terms[1..] == [y] && [y][1..] == [];
    var one := store[x := ListFor(store, x) + [i]];
    assert AddUnder(one, i, [y]) == one[x := ListFor(one, x) + [i]];
  }

  lemma {:induction false} AddOne(store: Store, i: Incompatibility, s: Subject)
    requires |i.terms| == 1
    ensures ListFor(Add(store, i), s) == ListFor(store, s) + (if s == SubjectOf(i.terms[0]) then [i] else [])
  {
    var x := SubjectOf(i.terms[0]);
    assert i.terms[1..] == [];
    assert AddUnder(store, i, i.terms) == store[x := ListFor(store, x) + [i]];
  }

  lemma {:induction false} CutLast(log: Log, x: Assignment, level: nat)
    ensures Cut(log + [x], level) == if x.level > level then Cut(log, level) else log + [x]
  {
    assert (log + [x])[..|log|] == log;
  }

  // ---------- Reachable states ----------

  ghost predicate Reached(u: Universe, st: State) {
    exists run: nat -> State, k: nat :: IsRun(u, run) && run(k) == st
  }

  lemma Start(u: Universe)
    ensures Reached(u, Init(u))
  {
    var run := (k: nat) => Run(u, k);
    assert IsRun(u, run) && run(0) == Run(u, 0);
  }

  lemma Onward(u: Universe, st: State)
    requires Reached(u, st)
    ensures Reached(u, Step(u, st))
  {
    var run: nat -> State, k: nat :| IsRun(u, run) && run(k) == st;
    assert Run(u, k + 1) == Step(u, Run(u, k));
    assert run(k + 1) == Step(u, st);
  }

  lemma Position(u: Universe, st: State) returns (k: nat)
    requires Reached(u, st)
    ensures Run(u, k) == st
  {
    var run: nat -> State, j: nat :| IsRun(u, run) && run(j) == st;
    k := j;
    assert run(k) == Run(u, k);
  }

  lemma ReachedIsGood(u: Universe, st: State)
    requires GoodUniverse(u) && Reached(u, st)
    ensures GoodLog(u, st.log)
  {
    var k := Position(u, st);
    RunInv(u, k);
  }

  lemma {:induction false} ScanQuiet(u: Universe, st: State, upTo: nat) returns (st': State)
    requires Reached(u, st) && st.phase.Scan? && st.phase.next <= upTo <= |ListOf(st.store, st.phase.item)|
    requires forall j :: st.phase.next <= j < upTo ==> Propagate(st.log, ListOf(st.store, st.phase.item)[j]) == Quiet
    ensures Reached(u, st') && st' == st.(phase := Scan(st.phase.item, upTo))
    decreases upTo - st.phase.next
  {
    st' := st;
    if st.phase.next < upTo {
      Onward(u, st);
      assert Propagate(st.log, ListOf(st.store, st.phase.item)[st.phase.next]) == Quiet;
      st' := ScanQuiet(u, Step(u, st), upTo);
    }
  }

  lemma {:induction false} ScanEnds(u: Universe, st: State) returns (st': State)
    requires Reached(u, st) && st.phase.Scan? && st.phase.next == |ListOf(st.store, st.phase.item)|
    ensures Reached(u, st')
    ensures st' == if st.queue != [] then st.(phase := Scan(st.queue[0], 0), queue := st.queue[1..])
                   else st.(phase := Choosing)
  {
    Onward(u, st);
    st' := Step(u, st);
  }

  lemma {:induction false} ScanDerives(u: Universe, st: State, i: Incompatibility, open: Term) returns (st': State)
    requires Reached(u, st) && st.phase.Scan? && st.phase.next < |ListOf(st.store, st.phase.item)|
    requires ListOf(st.store, st.phase.item)[st.phase.next] == i && Propagate(st.log, i) == Derived(open)
    ensures Reached(u, st')
    ensures st' == st.(phase := Scan(st.phase.item, st.phase.next + 1), log := Derive(st.log, open, i),
                       queue := st.queue + [Changed(SubjectOf(open))])
  {
    Onward(u, st);
    st' := Step(u, st);
  }

  lemma {:induction false} StepExamines(u: Universe, st: State, i: Incompatibility)
    requires st.phase.Scan? && st.phase.next < |ListOf(st.store, st.phase.item)|
    requires ListOf(st.store, st.phase.item)[st.phase.next] == i
    ensures Step(u, st) == Examine(st, i, Scan(st.phase.item, st.phase.next + 1))
  {
  }

  lemma {:induction false} ExamineLearns(st: State, i: Incompatibility, level: nat, cause: Incompatibility, phase: Phase)
    requires Propagate(st.log, i) == Conflict && Resolve(st.log, i, |st.log|) == Learned(level, cause)
    ensures Examine(st, i, phase) == Learn(st, i, level, cause, phase)
  {
  }

  lemma {:induction false} ExaminesConflict(u: Universe, st: State, i: Incompatibility, level: nat, cause: Incompatibility)
    requires st.phase.Scan? && st.phase.next < |ListOf(st.store, st.phase.item)|
    requires ListOf(st.store, st.phase.item)[st.phase.next] == i && Propagate(st.log, i) == Conflict
    requires Resolve(st.log, i, |st.log|) == Learned(level, cause)
    ensures Step(u, st) == Learn(st, i, level, cause, Scan(st.phase.item, st.phase.next + 1))
  {
    StepExamines(u, st, i);
    ExamineLearns(st, i, level, cause, Scan(st.phase.item, st.phase.next + 1));
  }

  lemma {:induction false} ScanLearns(u: Universe, st: State, i: Incompatibility, level: nat, cause: Incompatibility,
                                      open: Term) returns (st': State)
    requires Reached(u, st) && st.phase.Scan? && st.phase.next < |ListOf(st.store, st.phase.item)|
    requires ListOf(st.store, st.phase.item)[st.phase.next] == i && Propagate(st.log, i) == Conflict
    requires Resolve(st.log, i, |st.log|) == Learned(level, cause)
    requires Propagate(Cut(st.log, level), cause) == Derived(open)
    ensures Reached(u, st')
    ensures st' == st.(phase := Scan(st.phase.item, st.phase.next + 1),
                       log := Derive(Cut(st.log, level), open, cause),
                       store := if cause != i then Add(st.store, cause) else st.store,
                       queue := st.queue + [Changed(SubjectOf(open))])
  {
    ExaminesConflict(u, st, i, level, cause);
    st' := Step(u, st);
    Onward(u, st);
  }

  /** A conflict whose analysis does not open any term puts something else than a package into the queue. */
  lemma {:induction false} ScanStalls(u: Universe, st: State, i: Incompatibility, level: nat) returns (st': State)
    requires Reached(u, st) && st.phase.Scan? && st.phase.next < |ListOf(st.store, st.phase.item)|
    requires ListOf(st.store, st.phase.item)[st.phase.next] == i && Propagate(st.log, i) == Conflict
    requires Resolve(st.log, i, |st.log|) == Learned(level, i) && Cut(st.log, level) == st.log
    ensures Reached(u, st')
    ensures st' == st.(phase := Scan(st.phase.item, st.phase.next + 1), queue := st.queue + [NotASubject])
  {
    ExaminesConflict(u, st, i, level, i);
    st' := Step(u, st);
    Onward(u, st);
  }

  lemma {:induction false} ScanFails(u: Universe, st: State, i: Incompatibility) returns (st': State)
    requires Reached(u, st) && st.phase.Scan? && st.phase.next < |ListOf(st.store, st.phase.item)|
    requires ListOf(st.store, st.phase.item)[st.phase.next] == i && Propagate(st.log, i) == Conflict
    requires Resolve(st.log, i, |st.log|).Failed?
    ensures Reached(u, st') && st'.phase.Unsolvable?
  {
    Onward(u, st);
    st' := Step(u, st);
  }

  lemma {:induction false} ScanBreaks(u: Universe, st: State, i: Incompatibility) returns (st': State)
    requires Reached(u, st) && st.phase.Scan? && st.phase.next < |ListOf(st.store, st.phase.item)|
    requires ListOf(st.store, st.phase.item)[st.phase.next] == i && Propagate(st.log, i) == Conflict
    requires Resolve(st.log, i, |st.log|) == MergeError
    ensures Reached(u, st') && st'.phase.Broken?
  {
    Onward(u, st);
    st' := Step(u, st);
  }

  lemma {:induction false} OneCandidate(u: Universe, open: map<Name, Term>, n: Name, c: Term)
    requires open == map[n := c] && c.VersionConstraint?
    ensures IsBest(u, open, n)
  {
  }

  lemma {:induction false} OneBestVersion(u: Universe, n: Name, valid: set<Version>, v: Version)
    requires IsBestVersion(u, n, valid, v)
    ensures BestVersion(u, n, valid) == v
  {
    var w := BestVersion(u, n, valid);
    assert IsBestVersion(u, n, valid, w) && v in valid && w in valid;
  }

  lemma {:induction false} Chooses(u: Universe, st: State, n: Name)
    requires st.phase.Choosing? && IsBest(u, Undecided(u, st.log), n)
    ensures var c := Undecided(u, st.log)[n];
            var valid := ValidVersions(u, n, c);
            Step(u, st) ==
            if valid == {} then State(Scan(Changed(Package(n)), 0), st.log,
                                      Add(st.store, NoVersionsFact(u, n, c.versions)), st.listed, [])
            else Select(u, st, n, BestVersion(u, n, valid))
  {
    var open := Undecided(u, st.log);
    assert open != map[] by { assert n in open; }
    BestIsUnique(u, open, n, Best(u, open));
  }

  lemma {:induction false} SelectsBest(u: Universe, st: State, n: Name, v: Version) returns (st': State)
    requires Reached(u, st) && st.phase.Choosing? && IsBest(u, Undecided(u, st.log), n)
    requires IsBestVersion(u, n, ValidVersions(u, n, Undecided(u, st.log)[n]), v)
    ensures Reached(u, st') && st' == Select(u, st, n, v)
  {
    Onward(u, st);
    Chooses(u, st, n);
    OneBestVersion(u, n, ValidVersions(u, n, Undecided(u, st.log)[n]), v);
    st' := Step(u, st);
  }

  lemma {:induction false} SelectsOne(u: Universe, st: State, n: Name, v: Version, r: Requirement) returns (st': State)
    requires Reached(u, st) && st.phase.Choosing? && IsBest(u, Undecided(u, st.log), n)
    requires IsBestVersion(u, n, ValidVersions(u, n, Undecided(u, st.log)[n]), v) && Release(n, v) !in st.listed
    requires Dependencies(u, Release(n, v)) == [r]
    ensures Reached(u, st')
    ensures var pv := Release(n, v);
            var f := Fact(u, pv, r);
            st' == State(Scan(Changed(Package(n)), 0),
                         if IsConflict(st.log, f) then st.log else Decide(u, st.log, pv),
                         Add(st.store, f), st.listed + {pv}, [])
  {
    st' := SelectsBest(u, st, n, v);
    OneFact(u, st.store, Release(n, v), r);
  }

  lemma {:induction false} SelectsTwo(u: Universe, st: State, n: Name, v: Version, q: Requirement, r: Requirement)
    returns (st': State)
    requires Reached(u, st) && st.phase.Choosing? && IsBest(u, Undecided(u, st.log), n)
    requires IsBestVersion(u, n, ValidVersions(u, n, Undecided(u, st.log)[n]), v) && Release(n, v) !in st.listed
    requires Dependencies(u, Release(n, v)) == [q, r]
    ensures Reached(u, st')
    ensures var pv := Release(n, v);
            var e, f := Fact(u, pv, q), Fact(u, pv, r);
            st' == State(Scan(Changed(Package(n)), 0),
                         if IsConflict(st.log, e) || IsConflict(st.log, f) then st.log else Decide(u, st.log, pv),
                         Add(Add(st.store, e), f), st.listed + {pv}, [])
  {
    st' := SelectsBest(u, st, n, v);
    TwoFacts(u, st.store, Release(n, v), q, r);
    assert q in [q, r] && r in [q, r];
  }

  lemma {:induction false} Selects(u: Universe, st: State, n: Name, c: Term, v: Version, r: Requirement) returns (st': State)
    requires Reached(u, st) && st.phase.Choosing? && c.VersionConstraint? && Undecided(u, st.log) == map[n := c]
    requires IsBestVersion(u, n, ValidVersions(u, n, c), v) && Release(n, v) !in st.listed
    requires Dependencies(u, Release(n, v)) == [r]
    ensures Reached(u, st')
    ensures var pv := Release(n, v);
            var f := Fact(u, pv, r);
            st' == State(Scan(Changed(Package(n)), 0),
                         if IsConflict(st.log, f) then st.log else Decide(u, st.log, pv),
                         Add(st.store, f), st.listed + {pv}, [])
  {
    OneCandidate(u, Undecided(u, st.log), n, c);
    st' := SelectsOne(u, st, n, v, r);
  }

  lemma {:induction false} OneFact(u: Universe, store: Store, pv: PackageVersion, r: Requirement)
    ensures AddFacts(u, store, pv, [r]) == Add(store, Fact(u, pv, r))
  {
    assert [r][1..] == [];
  }

  lemma {:induction false} TwoFacts(u: Universe, store: Store, pv: PackageVersion, q: Requirement, r: Requirement)
    ensures AddFacts(u, store, pv, [q, r]) == Add(Add(store, Fact(u, pv, q)), Fact(u, pv, r))
  {
    assert [q, r][1..] == [r];
    OneFact(u, Add(store, Fact(u, pv, q)), pv, r);
  }

  lemma {:induction false} SelectsAgain(u: Universe, st: State, n: Name, c: Term, v: Version) returns (st': State)
    requires Reached(u, st) && st.phase.Choosing? && c.VersionConstraint? && Undecided(u, st.log) == map[n := c]
    requires IsBestVersion(u, n, ValidVersions(u, n, c), v) && Release(n, v) in st.listed
    ensures Reached(u, st')
    ensures st' == State(Scan(Changed(Package(n)), 0), Decide(u, st.log, Release(n, v)), st.store, st.listed, [])
  {
    OneCandidate(u, Undecided(u, st.log), n, c);
    st' := SelectsBest(u, st, n, v);
    assert st.listed + {Release(n, v)} == st.listed;
  }

  lemma {:induction false} Solves(u: Universe, st: State) returns (st': State)
    requires Reached(u, st) && st.phase.Choosing? && Undecided(u, st.log) == map[]
    ensures Reached(u, st') && st' == st.(phase := Solved)
  {
    Onward(u, st);
    st' := Step(u, st);
  }

  lemma {:induction false} NothingToSelect(u: Universe, st: State, n: Name, c: Term) returns (st': State)
    requires Reached(u, st) && st.phase.Choosing? && c.VersionConstraint? && Undecided(u, st.log) == map[n := c]
    requires ValidVersions(u, n, c) == {}
    ensures Reached(u, st')
    ensures st' == State(Scan(Changed(Package(n)), 0), st.log, Add(st.store, NoVersionsFact(u, n, c.versions)),
                         st.listed, [])
  {
    Onward(u, st);
    OneCandidate(u, Undecided(u, st.log), n, c);
    Chooses(u, st, n);
    st' := Step(u, st);
  }
}
