/** Which versions are decided: the newest that the log allows, or the oldest for a downgrade. */
module Preferences {
  import opened Terms
  import opened Universes
  import opened Resolution
  import opened Logs
  import opened Conflicts
  import opened Machine
  import opened Invariants
  import opened Completeness

  /** `v` is at least as good a choice for package `n` as `w`. */
  predicate AtLeastAsGood(u: Universe, n: Name, v: Version, w: Version) {
    if n in u.downgrades then v <= w else w <= v
  }

  /** The first `i` entries of the log require the package. */
  predicate Wanted(log: Log, i: nat, n: Name)
    requires i <= |log|
  {
    var t := TermAt(log, i, Package(n));
    t.Some? && t.value.VersionConstraint? && t.value.positive
  }

  /** The usable versions of the package that they allow. */
  function Remaining(u: Universe, log: Log, i: nat, n: Name): set<Version>
    requires i <= |log| && Wanted(log, i, n)
  {
    Usable(u, n) * TermAt(log, i, Package(n)).value.versions
  }

  /** They leave fewer versions for `n` than for `m`, or as many and `n` is the smaller name. */
  predicate MoreConstrained(u: Universe, log: Log, i: nat, n: Name, m: Name)
    requires i <= |log| && Wanted(log, i, n) && Wanted(log, i, m)
  {
    var a, b := |Remaining(u, log, i, n)|, |Remaining(u, log, i, m)|;
    a <= b && (a == b ==> n <= m)
  }

  /**
   * A decision is about a required package, the most constrained one that is not decided yet, and takes the best
   * of its remaining versions.
   */
  ghost predicate Preferred(u: Universe, log: Log, d: nat)
    requires d < |log|
  {
    match log[d].term
    case RootConstraint(_) => true
    case VersionConstraint(n, versions, _, _) =>
      log[d].cause.None? ==>
        && Wanted(log, d, n)
        && (forall v, w :: v in versions && w in Remaining(u, log, d, n) ==> AtLeastAsGood(u, n, v, w))
        && (forall m :: m in u.names && Wanted(log, d, m) && Package(m) !in DecisionsAt(log, d) ==>
              MoreConstrained(u, log, d, n, m))
  }

  ghost predicate AllPreferred(u: Universe, log: Log) {
    forall d :: 0 <= d < |log| ==> Preferred(u, log, d)
  }

  // ---------- In every reachable state ----------

  lemma PreferredPrefixAt(u: Universe, log: Log, other: Log, d: nat)
    requires d < |log| && d < |other| && log[..d] == other[..d] && log[d] == other[d] && Preferred(u, log, d)
    ensures Preferred(u, other, d)
  {
    forall m ensures TermAt(log, d, Package(m)) == TermAt(other, d, Package(m)) {
      TermAtPrefix(log, other, d, Package(m));
    }
    DecisionsAtPrefix(log, other, d);
  }

  lemma PreferredPrefix(u: Universe, log: Log, e: nat)
    requires AllPreferred(u, log) && e <= |log|
    ensures AllPreferred(u, log[..e])
  {
    forall d | 0 <= d < e ensures Preferred(u, log[..e], d) {
      assert log[..e][..d] == log[..d];
      PreferredPrefixAt(u, log, log[..e], d);
    }
  }

  lemma PreferredExtension(u: Universe, log: Log, a: Assignment)
    requires AllPreferred(u, log) && Preferred(u, log + [a], |log|)
    ensures AllPreferred(u, log + [a])
  {
    forall d | 0 <= d < |log| ensures Preferred(u, log + [a], d) {
      assert (log + [a])[..d] == log[..d];
      PreferredPrefixAt(u, log, log + [a], d);
    }
  }

  lemma DecidePreferred(u: Universe, log: Log, n: Name, v: Version)
    requires GoodLog(u, log) && AllPreferred(u, log) && IsBest(u, Undecided(u, log), n)
    requires IsBestVersion(u, n, ValidVersions(u, n, Undecided(u, log)[n]), v)
    ensures AllPreferred(u, Decide(u, log, Release(n, v)))
  {
    var next := Decide(u, log, Release(n, v));
    var k := |log|;
    assert next[..k] == log == log[..k];
    forall m ensures TermAt(log, k, Package(m)) == TermAt(next, k, Package(m)) { TermAtPrefix(log, next, k, Package(m)); }
    DecisionsAtPrefix(log, next, k);
    forall m | m in u.names && Wanted(next, k, m) && Package(m) !in DecisionsAt(next, k)
      ensures MoreConstrained(u, next, k, n, m)
    {
      assert Precedes(u, Undecided(u, log), n, m);
    }
    PreferredExtension(u, log, next[k]);
  }

  lemma LearnPreferred(u: Universe, st: State, i: Incompatibility, level: nat, rootCause: Incompatibility, phase: Phase)
    requires GoodLog(u, st.log) && AllPreferred(u, st.log) && level >= 1
    ensures AllPreferred(u, Learn(st, i, level, rootCause, phase).log)
  {
    CutEndsBeforeDecision(u, st.log, level);
    var cut := Cut(st.log, level);
    PreferredPrefix(u, st.log, |cut|);
    var r := Propagate(cut, rootCause);
    if r.Derived? { PreferredExtension(u, cut, Derive(cut, r.term, rootCause)[|cut|]); }
  }

  lemma ExaminePreferred(u: Universe, st: State, i: Incompatibility, phase: Phase)
    requires GoodLog(u, st.log) && AllPreferred(u, st.log)
    requires Propagate(st.log, i) == Conflict && Resolve(st.log, i, |st.log|).Learned? ==>
               Resolve(st.log, i, |st.log|).level >= 1
    ensures AllPreferred(u, Examine(st, i, phase).log)
  {
    match Propagate(st.log, i)
    case Quiet =>
    case Derived(open) => PreferredExtension(u, st.log, Derive(st.log, open, i)[|st.log|]);
    case Conflict =>
      var v := Resolve(st.log, i, |st.log|);
      if v.Learned? { LearnPreferred(u, st, i, v.level, v.rootCause, phase); }
  }

  lemma StepPreferred(u: Universe, st: State)
    requires Inv(u, st) && AllPreferred(u, st.log)
    ensures AllPreferred(u, Step(u, st).log)
  {
    match st.phase
    case Scan(item, next) =>
      if next < |ListOf(st.store, item)| {
        var i := ListOf(st.store, item)[next];
        assert i in ListFor(st.store, item.subject);
        OnlyDerivablePropagate(u, st.log, i);
        if Propagate(st.log, i) == Conflict { ResolveOk(u, st.log, i, |st.log|); }
        ExaminePreferred(u, st, i, Scan(item, next + 1));
      }
    case Choosing => ChoosePreferred(u, st);
    case _ =>
  }

  lemma ChoosePreferred(u: Universe, st: State)
    requires Inv(u, st) && st.phase.Choosing? && AllPreferred(u, st.log)
    ensures AllPreferred(u, Choose(u, st).log)
  {
    var open := Undecided(u, st.log);
    if open != map[] {
      var n := Best(u, open);
      var valid := ValidVersions(u, n, open[n]);
      if valid != {} { DecidePreferred(u, st.log, n, BestVersion(u, n, valid)); }
    }
  }

  lemma InitPreferred(u: Universe)
    ensures AllPreferred(u, Init(u).log)
  {
    assert Init(u).log == [Assignment(RootConstraint(true), 1, 0, None)];
  }

  /** In every reachable state every decision was the right one for what the log said when it was made. */
  lemma {:induction false} RunPreferred(u: Universe, k: nat)
    requires GoodUniverse(u)
    ensures AllPreferred(u, Run(u, k).log)
  {
    if k == 0 {
      InitPreferred(u);
    } else {
      RunPreferred(u, k - 1);
      RunInv(u, k - 1);
      StepPreferred(u, Run(u, k - 1));
    }
  }

  // ---------- Without dependencies ----------

  /** Only the requirements matter: usable versions need nothing, and every package is required. */
  ghost predicate Independent(u: Universe) {
    && (forall n, v :: n in u.names && v in Usable(u, n) ==> Dependencies(u, Release(n, v)) == [])
    && (forall n :: n in u.names ==> Asks(u.requirements, n))
  }

  /** The versions that all requirements on the package accept. */
  ghost function Candidates(u: Universe, n: Name): set<Version> {
    set v | v in Usable(u, n) && forall r :: r in u.requirements && r.name == n ==> v in Acceptable(u, r)
  }

  /** A solution that takes the best candidate of every package. */
  ghost predicate IsBestChoice(u: Universe, c: Choice) {
    && ValidSolution(u, c)
    && forall n, w :: n in c && w in Candidates(u, n) ==> AtLeastAsGood(u, n, c[n], w)
  }

  /** The log agrees with the choice up to position `i`. */
  ghost predicate Agrees(log: Log, c: Choice, i: nat)
    requires i <= |log|
  {
    forall k :: 0 <= k < i ==> PickFor(c, SubjectOf(log[k].term)) in Meaning(log[k].term)
  }

  lemma {:induction false} AgreesWithTerm(u: Universe, log: Log, c: Choice, i: nat, s: Subject)
    requires GoodLog(u, log) && i <= |log| && Agrees(log, c, i)
    ensures TermAt(log, i, s).Some? ==> PickFor(c, s) in Meaning(TermAt(log, i, s).value)
  {
    if i == 0 {
    } else {
      AgreesWithTerm(u, log, c, i - 1, s);
      assert EntryOk(u, log, i - 1);
      TermAtIsGood(u, log, i - 1, s);
      if SubjectOf(log[i - 1].term) == s && TermAt(log, i - 1, s).Some? {
        IntersectIsConjunction(TermAt(log, i - 1, s).value, log[i - 1].term);
      }
    }
  }

  lemma RootAgrees(u: Universe, log: Log, c: Choice)
    requires GoodLog(u, log) && log != []
    ensures PickFor(c, SubjectOf(log[0].term)) in Meaning(log[0].term)
  {
    assert EntryOk(u, log, 0);
    MeaningMembers(log[0].term);
  }

  /** A derivation is right about every solution that agrees with what came before. */
  lemma DerivationAgrees(u: Universe, log: Log, c: Choice, k: nat)
    requires Forgiving(u) && GoodLog(u, log) && ValidSolution(u, c)
    requires k < |log| && Agrees(log, c, k) && log[k].cause.Some?
    ensures PickFor(c, SubjectOf(log[k].term)) in Meaning(log[k].term)
  {
    assert EntryOk(u, log, k);
    var a := log[k].term;
    var reason := log[k].cause.value.incompatibility;
    ForgivingIsHarmless(u, reason);
    HarmlessDerivationHolds(u, c, reason);
    var t :| t in reason.terms && !HoldsIn(c, t);
    assert GoodTerm(u, t);
    GoodPick(u, c, t);
    GoodPick(u, c, a);
    if SubjectOf(t) != SubjectOf(a) {
      AgreesWithTerm(u, log, c, k, SubjectOf(t));
      SatMeans(u, log, k, t);
    } else {
      DistinctBySubject(reason.terms, t, Inverse(a));
      InverseIsNegation(a);
    }
  }

  /** Before each decision all requirements are enforced, so a decided version is a candidate. */
  lemma DecidedIsCandidate(u: Universe, log: Log, k: nat, n: Name, v: Version)
    requires GoodLog(u, log) && Settled(u, log) && 0 < k < |log| && log[k].cause.None?
    requires log[k].term == DependeeTerm(u, Release(n, v)) && v in Usable(u, n)
    ensures v in Candidates(u, n)
  {
    assert EntryOk(u, log, k) && EntryOk(u, log, 0);
    assert IsDecision(u, log, 0, RootVersion) && AllEnforced(u, log, k);
    MeaningMembers(log[k].term);
    assert At(v) in Meaning(log[k].term);
    forall r | r in u.requirements && r.name == n ensures v in Acceptable(u, r) {
      assert r in Dependencies(u, RootVersion);
      assert Enforced(u, log, k, r);
      MeaningMembers(DependencyTerm(u, r));
    }
  }

  lemma DecisionAgrees(u: Universe, log: Log, c: Choice, k: nat)
    requires Independent(u) && GoodLog(u, log) && Settled(u, log) && AllPreferred(u, log) && IsBestChoice(u, c)
    requires 0 < k < |log| && Agrees(log, c, k) && log[k].cause.None?
    ensures PickFor(c, SubjectOf(log[k].term)) in Meaning(log[k].term)
  {
    assert EntryOk(u, log, k);
    var n := log[k].term.name;
    var v :| v in Usable(u, n) && log[k].term.versions == {v};
    assert log[k].term == DependeeTerm(u, Release(n, v));
    DecidedIsCandidate(u, log, k, n, v);
    var r :| r in u.requirements && r.name == n;
    assert Meets(u, c, r);
    AgreesWithTerm(u, log, c, k, Package(n));
    assert Preferred(u, log, k);
    MeaningMembers(TermAt(log, k, Package(n)).value);
    assert c[n] in Remaining(u, log, k, n);
    assert AtLeastAsGood(u, n, v, c[n]) && AtLeastAsGood(u, n, c[n], v);
    MeaningMembers(log[k].term);
  }

  lemma {:induction false} LogAgrees(u: Universe, log: Log, c: Choice, i: nat)
    requires Independent(u) && Forgiving(u) && GoodLog(u, log) && Settled(u, log) && AllPreferred(u, log)
    requires IsBestChoice(u, c) && i <= |log|
    ensures Agrees(log, c, i)
  {
    if i == 0 {
    } else {
      LogAgrees(u, log, c, i - 1);
      if log[i - 1].cause.Some? {
        DerivationAgrees(u, log, c, i - 1);
      } else if i > 1 {
        DecisionAgrees(u, log, c, i - 1);
      } else {
        RootAgrees(u, log, c);
      }
    }
  }

  lemma BestChoiceExists(u: Universe, sol: Choice) returns (c: Choice)
    requires Closed(u) && Independent(u) && ValidSolution(u, sol)
    ensures IsBestChoice(u, c)
  {
    c := map n | n in u.names && Candidates(u, n) != {} :: BestVersion(u, n, Candidates(u, n));
    forall n | n in c
      ensures c[n] in Candidates(u, n) && forall w :: w in Candidates(u, n) ==> AtLeastAsGood(u, n, c[n], w)
    {
      assert IsBestVersion(u, n, Candidates(u, n), c[n]);
    }
    forall r | r in u.requirements ensures Meets(u, c, r) {
      assert Known(u, RootVersion) && r in Dependencies(u, RootVersion);
      assert Meets(u, sol, r);
      forall q | q in u.requirements && q.name == r.name ensures sol[r.name] in Acceptable(u, q) {
        assert Meets(u, sol, q);
      }
      assert sol[r.name] in Candidates(u, r.name);
    }
    forall n | n in c ensures Dependencies(u, Release(n, c[n])) == [] { assert c[n] in Candidates(u, n); }
  }

  /** Where nothing but the requirements matters, each required package is decided in its best candidate. */
  lemma NewestWins(u: Universe, k: nat)
    requires GoodUniverse(u) && Independent(u) && Run(u, k).phase.Solved?
    ensures var sol := SolutionOf(Run(u, k).log);
            && (forall n :: n in sol <==> Asks(u.requirements, n))
            && forall n :: n in sol ==>
                 sol[n] in Candidates(u, n) && forall w :: w in Candidates(u, n) ==> AtLeastAsGood(u, n, sol[n], w)
  {
    RunInv(u, k);
    RunPreferred(u, k);
    var st := Run(u, k);
    SolvedIsBest(u, st);
  }

  lemma SolvedIsBest(u: Universe, st: State)
    requires Inv(u, st) && AllPreferred(u, st.log) && Independent(u) && st.phase.Solved?
    ensures var sol := SolutionOf(st.log);
            && (forall n :: n in sol <==> Asks(u.requirements, n))
            && forall n :: n in sol ==>
                 sol[n] in Candidates(u, n) && forall w :: w in Candidates(u, n) ==> AtLeastAsGood(u, n, sol[n], w)
  {
    var log := st.log;
    SolvedIsValid(u, st);
    var sol := SolutionOf(log);
    assert Known(u, RootVersion);
    forall n | n in u.names ensures exists k: nat :: Mandatory(u, n, k) { assert Mandatory(u, n, 0); }
    var c := BestChoiceExists(u, sol);
    LogAgrees(u, log, c, |log|);
    forall n | Asks(u.requirements, n) ensures n in sol {
      var r :| r in u.requirements && r.name == n;
      assert Meets(u, sol, r);
    }
    forall n | n in sol
      ensures Asks(u.requirements, n) && sol[n] in Candidates(u, n)
      ensures n in c && sol[n] == c[n]
    {
      var d, v := SolutionEntry(u, log, n);
      assert EntryOk(u, log, d);
      DecidedIsCandidate(u, log, d, n, v);
      MeaningMembers(log[d].term);
      assert PickFor(c, Package(n)) in Meaning(log[d].term);
    }
  }

  // ---------- Nothing superfluous ----------

  /** Required directly, or by the chosen version of a needed package, at most `k` levels down. */
  ghost predicate NeededWithin(u: Universe, c: Choice, n: Name, k: nat)
    decreases k
  {
    || Asks(u.requirements, n)
    || (k > 0 && exists m :: m in c && Asks(Dependencies(u, Release(m, c[m])), n) && NeededWithin(u, c, m, k - 1))
  }

  ghost predicate Needed(u: Universe, c: Choice, n: Name) {
    exists k: nat :: NeededWithin(u, c, n, k)
  }

  /** Leaving out what is not needed does not break a solution. */
  lemma NeededPart(u: Universe, sol: Choice) returns (c: Choice)
    requires ValidSolution(u, sol)
    ensures ValidSolution(u, c) && forall n :: n in c <==> n in sol && Needed(u, sol, n)
    ensures forall n :: n in c ==> c[n] == sol[n]
  {
    c := map n | n in sol && Needed(u, sol, n) :: sol[n];
    forall r | r in u.requirements ensures Meets(u, c, r) {
      assert Meets(u, sol, r) && NeededWithin(u, sol, r.name, 0);
    }
    forall n, r | n in c && r in Dependencies(u, Release(n, c[n])) ensures Meets(u, c, r) {
      assert Meets(u, sol, r);
      var k: nat :| NeededWithin(u, sol, n, k);
      assert NeededWithin(u, sol, r.name, k + 1);
    }
  }

  /** As long as only needed packages are decided, the log agrees with the needed part. */
  lemma {:induction false} NeededAgrees(u: Universe, log: Log, c: Choice, i: nat)
    requires Forgiving(u) && GoodLog(u, log) && AllPreferred(u, log) && ValidSolution(u, c) && i <= |log|
    requires forall d, n, v :: IsDecision(u, log, d, Release(n, v)) && n in c ==> c[n] == v
    ensures Agrees(log, c, i)
  {
    if i == 0 {
    } else {
      NeededAgrees(u, log, c, i - 1);
      if log[i - 1].cause.Some? {
        DerivationAgrees(u, log, c, i - 1);
      } else if i > 1 {
        DecidedIsNeeded(u, log, c, i - 1);
      } else {
        RootAgrees(u, log, c);
      }
    }
  }

  lemma DecidedIsNeeded(u: Universe, log: Log, c: Choice, d: nat)
    requires GoodLog(u, log) && AllPreferred(u, log) && 0 < d < |log| && log[d].cause.None? && Agrees(log, c, d)
    requires forall e, n, v :: IsDecision(u, log, e, Release(n, v)) && n in c ==> c[n] == v
    ensures log[d].term.VersionConstraint? && log[d].term.name in c
    ensures PickFor(c, SubjectOf(log[d].term)) in Meaning(log[d].term)
  {
    assert EntryOk(u, log, d) && Preferred(u, log, d);
    var n := log[d].term.name;
    var v :| v in Usable(u, n) && log[d].term.versions == {v};
    assert IsDecision(u, log, d, Release(n, v));
    AgreesWithTerm(u, log, c, d, Package(n));
    MeaningMembers(TermAt(log, d, Package(n)).value);
    MeaningMembers(log[d].term);
  }

  /** On a forgiving input a solution contains only packages that it needs. */
  lemma NothingSuperfluous(u: Universe, k: nat, n: Name)
    requires GoodUniverse(u) && Forgiving(u) && Run(u, k).phase.Solved?
    ensures n in SolutionOf(Run(u, k).log) ==> Needed(u, SolutionOf(Run(u, k).log), n)
  {
    RunInv(u, k);
    RunPreferred(u, k);
    var st := Run(u, k);
    if n in SolutionOf(st.log) { SolvedIsNeeded(u, st, n); }
  }

  lemma SolvedIsNeeded(u: Universe, st: State, n: Name)
    requires Inv(u, st) && AllPreferred(u, st.log) && Forgiving(u) && st.phase.Solved? && n in SolutionOf(st.log)
    ensures Needed(u, SolutionOf(st.log), n)
  {
    var log, sol := st.log, SolutionOf(st.log);
    SolvedIsValid(u, st);
    var c := NeededPart(u, sol);
    forall d, m, v | IsDecision(u, log, d, Release(m, v)) && m in c ensures c[m] == v {
      DecisionIsSolution(u, log, d, m, v);
    }
    NeededAgrees(u, log, c, |log|);
    var d, v := SolutionEntry(u, log, n);
    assert EntryOk(u, log, d);
    assert PickFor(c, Package(n)) in Meaning(log[d].term);
    MeaningMembers(log[d].term);
  }

  lemma DecisionIsSolution(u: Universe, log: Log, d: nat, n: Name, v: Version)
    requires GoodLog(u, log) && IsDecision(u, log, d, Release(n, v)) && n in SolutionOf(log)
    ensures SolutionOf(log)[n] == v
  {
    var e, w := SolutionEntry(u, log, n);
    DecisionStays(u, log, d, |log|);
    DecisionStays(u, log, e, |log|);
    MeaningMembers(log[d].term);
    MeaningMembers(log[e].term);
    assert At(v) in Meaning(log[d].term) && At(w) in Meaning(log[e].term);
  }
}
