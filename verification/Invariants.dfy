/** What every reachable state of the solver satisfies, and what the final states mean. */
module Invariants {
  import opened Terms
  import opened Universes
  import opened Resolution
  import opened Logs
  import opened Conflicts
  import opened Machine

  ghost predicate GoodUniverse(u: Universe) {
    Closed(u) && SelfAccepting(u)
  }

  // ---------- Self-dependencies ----------

  /** The fact of a version that depends on its own package and accepts itself. */
  ghost predicate Idle(u: Universe, i: Incompatibility) {
    exists pv, r :: Listable(u, pv) && r in Dependencies(u, pv) && IsSelf(pv, r) && i == Fact(u, pv, r)
  }

  ghost predicate NamesVersions(n: Name, t: Term) {
    SubjectOf(t) == Package(n) && !t.positive ==> t.versions * t.all != {}
  }

  ghost predicate AllNameVersions(n: Name, terms: seq<Term>) {
    forall t :: t in terms ==> NamesVersions(n, t)
  }

  lemma MergedNameVersions(u: Universe, n: Name, terms: seq<Term>)
    requires GoodTerms(u, terms) && Merge(terms).Some? && AllNameVersions(n, terms)
    ensures AllNameVersions(n, Merge(terms).value)
  {
    var r, s := Merge(terms).value, Package(n);
    forall m | m in r ensures NamesVersions(n, m) {
      if SubjectOf(m) == s && !m.positive {
        MergeMeaning(u, terms, s);
        assert Mentions(r, s);
        var x :| x in terms && SubjectOf(x) == s;
        MeaningMembers(m);
        MeaningMembers(x);
        forall p | p in Meaning(m) ensures p in Meaning(x) {
          forall y | y in r && SubjectOf(y) == s ensures p in Meaning(y) { DistinctBySubject(r, m, y); }
          assert Accepts(r, s, p);
        }
        assert Absent in Meaning(x) && GoodTerm(u, x) && GoodTerm(u, m);
        var v := AnyOf(x.versions * x.all);
        assert At(v) !in Meaning(x);
        assert v in m.versions * m.all;
      }
    }
  }

  lemma FactNamesVersions(u: Universe, n: Name, i: Incompatibility)
    requires SatisfiableFor(u, n) && IsFact(u, i)
    ensures AllNameVersions(n, i.terms)
  {
    if pv, r :| Listable(u, pv) && r in Dependencies(u, pv) && i == Fact(u, pv, r) {
      assert Known(u, pv);
      assert NamesVersions(n, DependeeTerm(u, pv)) && NamesVersions(n, DependencyTerm(u, r));
    }
  }

  /** Where all dependencies on a package are satisfiable, negative terms about it exclude some existing version. */
  lemma {:induction false} DerivedNameVersions(u: Universe, n: Name, i: Incompatibility)
    requires SatisfiableFor(u, n) && Derivable(u, i)
    ensures AllNameVersions(n, i.terms)
  {
    match i.cause
    case ConflictCause(conflict, other, t, a) =>
      DerivedNameVersions(u, n, conflict);
      DerivedNameVersions(u, n, other);
      NewTermsAreGood(u, conflict.terms, other.terms, t, a);
      MergedNameVersions(u, n, NewTerms(conflict.terms, other.terms, t, a));
    case _ => FactNamesVersions(u, n, i);
  }

  /** What the log says about such a package never rules out everything. */
  lemma {:induction false} TermNotEmpty(u: Universe, log: Log, i: nat, n: Name)
    requires SatisfiableFor(u, n) && GoodLog(u, log) && i <= |log|
    ensures TermAt(log, i, Package(n)).Some? ==> Meaning(TermAt(log, i, Package(n)).value) != {}
  {
    if i == 0 {
    } else {
      TermNotEmpty(u, log, i - 1, n);
      var a, s := log[i - 1], Package(n);
      assert EntryOk(u, log, i - 1);
      if SubjectOf(a.term) == s {
        if a.cause.None? {
          DecisionStays(u, log, i - 1, i);
          DecisionMeaning(u, log, i - 1);
        } else if TermAt(log, i - 1, s).None? {
          DerivedNameVersions(u, n, a.cause.value.incompatibility);
          assert NamesVersions(n, Inverse(a.term));
          MeaningMembers(a.term);
          if a.term.positive {
            var v := AnyOf(a.term.versions * a.term.all);
            assert At(v) in Meaning(a.term);
          }
        }
      }
    }
  }

  /** Such a fact never derives anything and never conflicts. */
  lemma IdleIsQuiet(u: Universe, log: Log, i: Incompatibility)
    requires GoodUniverse(u) && GoodLog(u, log) && Idle(u, i)
    ensures Propagate(log, i) == Quiet && !AllSatAt(log, |log|, i.terms)
  {
    var pv, r :| Listable(u, pv) && r in Dependencies(u, pv) && IsSelf(pv, r) && i == Fact(u, pv, r);
    var n, k := r.name, |log|;
    var x, y := i.terms[0], i.terms[1];
    assert Known(u, pv) && x in i.terms && y in i.terms;
    PropagateTwo(log, i);
    TermNotEmpty(u, log, k, n);
    TermAtIsGood(u, log, k, Package(n));
    MeaningMembers(x);
    MeaningMembers(y);
    assert At(pv.version) !in Meaning(y);
    if TermAt(log, k, Package(n)).Some? {
      var c := TermAt(log, k, Package(n)).value;
      SatisfiesIsImplication(c, x);
      SatisfiesIsImplication(c, y);
      IntersectIsConjunction(c, x);
      IntersectIsConjunction(c, y);
      var p := AnyOf(Meaning(c));
      if SatAt(log, k, x) {
        assert p == At(pv.version);
        assert Meaning(c) == {p};
      } else if SatAt(log, k, y) {
        assert Meaning(c) * Meaning(x) == {} by {
          forall q | q in Meaning(c) ensures q !in Meaning(x) {}
        }
      }
    }
  }

  // ---------- The store ----------

  ghost predicate Stored(u: Universe, i: Incompatibility) {
    Derivable(u, i) || Idle(u, i)
  }

  ghost predicate StoreOk(u: Universe, store: Store) {
    forall s, i :: i in ListFor(store, s) ==> Stored(u, i)
  }

  /** Whatever propagates is derivable. */
  lemma OnlyDerivablePropagate(u: Universe, log: Log, i: Incompatibility)
    requires GoodUniverse(u) && GoodLog(u, log) && Stored(u, i)
    ensures Propagate(log, i) != Quiet ==> Derivable(u, i)
    ensures Propagate(log, i) == Conflict <==> AllSatAt(log, |log|, i.terms)
  {
    if Derivable(u, i) { PropagateOutcome(log, i); } else { IdleIsQuiet(u, log, i); }
  }

  function Home(pv: PackageVersion): Subject {
    match pv case RootVersion => Root case Release(n, _) => Package(n)
  }

  /** A listed version's dependencies are all on record, under its own package. */
  ghost predicate ListedOk(u: Universe, store: Store, listed: set<PackageVersion>) {
    forall pv :: pv in listed ==>
      Listable(u, pv) && forall r :: r in Dependencies(u, pv) ==> Fact(u, pv, r) in ListFor(store, Home(pv))
  }

  lemma {:induction false} AddUnderMembers(store: Store, i: Incompatibility, terms: seq<Term>, s: Subject)
    ensures forall x :: x in ListFor(AddUnder(store, i, terms), s) <==>
                        x in ListFor(store, s) || (x == i && Mentions(terms, s))
    ensures ListFor(store, s) <= ListFor(AddUnder(store, i, terms), s)
    decreases |terms|
  {
    if terms == [] {
    } else {
      var t, rest := terms[0], terms[1..];
      assert forall x :: x in terms <==> x == t || x in rest;
      AddUnderMembers(store[SubjectOf(t) := ListFor(store, SubjectOf(t)) + [i]], i, rest, s);
    }
  }

  lemma AddKeepsStoreOk(u: Universe, store: Store, i: Incompatibility)
    requires StoreOk(u, store) && Stored(u, i)
    ensures StoreOk(u, Add(store, i))
  {
    forall s, x | x in ListFor(Add(store, i), s) ensures Stored(u, x) {
      AddUnderMembers(store, i, i.terms, s);
    }
  }

  lemma AddKeepsListedOk(u: Universe, store: Store, i: Incompatibility, listed: set<PackageVersion>)
    requires ListedOk(u, store, listed)
    ensures ListedOk(u, Add(store, i), listed)
  {
    forall pv, r | pv in listed && r in Dependencies(u, pv) ensures Fact(u, pv, r) in ListFor(Add(store, i), Home(pv)) {
      AddUnderMembers(store, i, i.terms, Home(pv));
    }
  }

  lemma FactIsStored(u: Universe, pv: PackageVersion, r: Requirement)
    requires GoodUniverse(u) && Listable(u, pv) && r in Dependencies(u, pv)
    ensures Stored(u, Fact(u, pv, r))
  {
    if !IsSelf(pv, r) { FactIsGood(u, pv, r); }
  }

  lemma {:induction false} AddFactsOk(u: Universe, store: Store, listed: set<PackageVersion>, pv: PackageVersion,
                                      reqs: seq<Requirement>)
    requires GoodUniverse(u) && StoreOk(u, store) && ListedOk(u, store, listed) && Listable(u, pv)
    requires forall r :: r in reqs ==> r in Dependencies(u, pv)
    ensures StoreOk(u, AddFacts(u, store, pv, reqs)) && ListedOk(u, AddFacts(u, store, pv, reqs), listed)
    ensures forall r :: r in reqs || Fact(u, pv, r) in ListFor(store, Home(pv)) ==>
                          Fact(u, pv, r) in ListFor(AddFacts(u, store, pv, reqs), Home(pv))
    decreases |reqs|
  {
    if reqs == [] {
    } else {
      var r, rest := reqs[0], reqs[1..];
      var f := Fact(u, pv, r);
      assert r in reqs;
      FactIsStored(u, pv, r);
      AddKeepsStoreOk(u, store, f);
      AddKeepsListedOk(u, store, f, listed);
      AddUnderMembers(store, f, f.terms, Home(pv));
      assert SubjectOf(f.terms[0]) == Home(pv);
      assert f.terms[0] in f.terms;
      assert Mentions(f.terms, Home(pv));
      AddFactsOk(u, Add(store, f), listed, pv, rest);
      assert forall x :: x in reqs ==> x == r || x in rest;
    }
  }

  // ---------- Dependencies of decided versions ----------

  ghost predicate IsDecision(u: Universe, log: Log, d: nat, pv: PackageVersion) {
    d < |log| && log[d].cause.None? && Listable(u, pv) && log[d].term == DependeeTerm(u, pv)
  }

  /** The log leaves only acceptable versions for requirement `r`. */
  ghost predicate Enforced(u: Universe, log: Log, i: nat, r: Requirement)
    requires i <= |log|
  {
    Excluded(log, i, DependencyTerm(u, r))
  }

  /** Every dependency of every version decided before `i` is enforced at `i`. */
  ghost predicate AllEnforced(u: Universe, log: Log, i: nat)
    requires i <= |log|
  {
    forall pv, d: nat, r :: d < i && IsDecision(u, log, d, pv) && r in Dependencies(u, pv) ==> Enforced(u, log, i, r)
  }

  /** Before each decision, the dependencies of all earlier ones are enforced. */
  ghost predicate Settled(u: Universe, log: Log) {
    forall e :: 0 <= e < |log| && log[e].cause.None? ==> AllEnforced(u, log, e)
  }

  /** Each dependency of a decided version is enforced, or its fact is still ahead in the current scan. */
  ghost predicate Covered(u: Universe, log: Log, ahead: seq<Incompatibility>) {
    forall pv, d, r :: IsDecision(u, log, d, pv) && r in Dependencies(u, pv) ==>
                         Enforced(u, log, |log|, r) || Fact(u, pv, r) in ahead
  }

  ghost predicate DecisionsListed(u: Universe, log: Log, listed: set<PackageVersion>) {
    forall pv, d :: IsDecision(u, log, d, pv) ==> pv in listed
  }

  lemma EnforcedPrefix(u: Universe, log: Log, other: Log, i: nat, r: Requirement)
    requires i <= |log| && i <= |other| && log[..i] == other[..i]
    ensures Enforced(u, log, i, r) <==> Enforced(u, other, i, r)
  {
    TermAtPrefix(log, other, i, SubjectOf(DependencyTerm(u, r)));
  }

  lemma AllEnforcedPrefix(u: Universe, log: Log, other: Log, i: nat)
    requires i <= |log| && i <= |other| && log[..i] == other[..i] && AllEnforced(u, log, i)
    ensures AllEnforced(u, other, i)
  {
    forall pv, d: nat, r | d < i && IsDecision(u, other, d, pv) && r in Dependencies(u, pv)
      ensures Enforced(u, other, i, r)
    {
      assert log[d] == log[..i][d] == other[d];
      assert IsDecision(u, log, d, pv);
      EnforcedPrefix(u, log, other, i, r);
    }
  }

  lemma SettledPrefix(u: Universe, log: Log, e: nat)
    requires Settled(u, log) && e <= |log|
    ensures Settled(u, log[..e])
  {
    forall i | 0 <= i < e && log[..e][i].cause.None? ensures AllEnforced(u, log[..e], i) {
      assert log[..e][..i] == log[..i];
      AllEnforcedPrefix(u, log, log[..e], i);
    }
  }

  /** One more assignment keeps what was settled; a decision needs everything enforced first. */
  lemma SettledExtension(u: Universe, log: Log, a: Assignment)
    requires Settled(u, log) && (a.cause.None? ==> AllEnforced(u, log, |log|))
    ensures Settled(u, log + [a])
  {
    var next := log + [a];
    forall e | 0 <= e < |next| && next[e].cause.None? ensures AllEnforced(u, next, e) {
      assert next[..e] == log[..e];
      AllEnforcedPrefix(u, log, next, e);
    }
  }

  lemma EnforcedStays(u: Universe, log: Log, a: Assignment, r: Requirement)
    requires GoodLog(u, log + [a]) && Enforced(u, log, |log|, r)
    ensures Enforced(u, log + [a], |log| + 1, r)
  {
    assert (log + [a])[..|log|] == log == log[..|log|];
    EnforcedPrefix(u, log, log + [a], |log|, r);
    ExcludedStays(u, log + [a], |log|, |log| + 1, DependencyTerm(u, r));
  }

  /** A derivation adds no obligations and loses none. */
  lemma CoveredExtension(u: Universe, log: Log, a: Assignment, ahead: seq<Incompatibility>)
    requires Covered(u, log, ahead) && a.cause.Some? && GoodLog(u, log + [a])
    ensures Covered(u, log + [a], ahead)
  {
    forall pv, d, r | IsDecision(u, log + [a], d, pv) && r in Dependencies(u, pv)
      ensures Enforced(u, log + [a], |log| + 1, r) || Fact(u, pv, r) in ahead
    {
      assert IsDecision(u, log, d, pv);
      if Fact(u, pv, r) !in ahead { EnforcedStays(u, log, a, r); }
    }
  }

  // ---------- The invariant ----------

  ghost predicate Core(u: Universe, st: State) {
    && GoodLog(u, st.log)
    && StoreOk(u, st.store)
    && ListedOk(u, st.store, st.listed)
    && DecisionsListed(u, st.log, st.listed)
    && Settled(u, st.log)
    && (forall q :: q in st.queue ==> q.Changed?)
  }

  function Ahead(st: State): seq<Incompatibility>
    requires st.phase.Scan?
  {
    var list := ListOf(st.store, st.phase.item);
    if st.phase.next < |list| then list[st.phase.next..] else []
  }

  ghost predicate Inv(u: Universe, st: State) {
    && GoodUniverse(u) && Core(u, st)
    && match st.phase
       case Scan(item, next) => item.Changed? && Covered(u, st.log, Ahead(st))
       case Choosing => Covered(u, st.log, [])
       case Solved => Covered(u, st.log, []) && Undecided(u, st.log) == map[]
       case Unsolvable(failure) => Derivable(u, failure) && IsFailure(failure)
       case Broken => true
       case Wedged => false
  }

  // ---------- Derivations ----------

  /** A derivation narrows the term of its subject, and leaves something of it. */
  lemma DerivedNarrows(u: Universe, log: Log, open: Term, i: Incompatibility)
    requires GoodLog(u, log) && GoodTerm(u, open) && OneOpen(log, i.terms, open)
    ensures var next := Derive(log, open, i);
            TermAt(next, |log| + 1, SubjectOf(open)).Some? && Narrows(next, |log|)
  {
    var next := Derive(log, open, i);
    var n, s := |log|, SubjectOf(open);
    assert next[..n] == log == log[..n];
    TermAtPrefix(log, next, n, s);
    if s == Root { RootStays(u, log, n); }
    if TermAt(log, n, s).Some? {
      TermAtIsGood(u, log, n, s);
      NegationNarrows(TermAt(log, n, s).value, open);
    }
  }

  lemma DeriveIsGood(u: Universe, log: Log, open: Term, i: Incompatibility)
    requires GoodLog(u, log) && Derivable(u, i) && OneOpen(log, i.terms, open)
    ensures GoodLog(u, Derive(log, open, i))
  {
    var next := Derive(log, open, i);
    var n, s := |log|, SubjectOf(open);
    assert next[..n] == log == log[..n];
    assert GoodTerm(u, open);
    if s == Root { RootStays(u, log, n); }
    DerivedNarrows(u, log, open, i);
    forall t | t in i.terms && SubjectOf(t) != s ensures SatAt(next, n, t) {
      TermAtPrefix(log, next, n, SubjectOf(t));
    }
    assert ReasonOk(u, next, n, i);
    GoodExtension(u, log, next[n]);
  }

  /** Whatever a derivation adds, the invariant's parts about the log stay true. */
  lemma DeriveKeeps(u: Universe, log: Log, open: Term, i: Incompatibility, listed: set<PackageVersion>,
                    ahead: seq<Incompatibility>)
    requires GoodLog(u, log) && Derivable(u, i) && OneOpen(log, i.terms, open)
    requires Settled(u, log) && DecisionsListed(u, log, listed) && Covered(u, log, ahead)
    ensures var next := Derive(log, open, i);
            GoodLog(u, next) && Settled(u, next) && DecisionsListed(u, next, listed) && Covered(u, next, ahead)
  {
    var next := Derive(log, open, i);
    DeriveIsGood(u, log, open, i);
    SettledExtension(u, log, next[|log|]);
    CoveredExtension(u, log, next[|log|], ahead);
    forall pv, d | IsDecision(u, next, d, pv) ensures pv in listed { assert IsDecision(u, log, d, pv); }
  }

  // ---------- Backtracking ----------

  /** After cutting back, every dependency of the remaining decisions is enforced already. */
  lemma CutKeeps(u: Universe, log: Log, level: nat, listed: set<PackageVersion>)
    requires GoodLog(u, log) && 1 <= level < Level(log) && Settled(u, log) && DecisionsListed(u, log, listed)
    ensures var cut := Cut(log, level);
            GoodLog(u, cut) && Settled(u, cut) && DecisionsListed(u, cut, listed) && Covered(u, cut, [])
  {
    CutEndsBeforeDecision(u, log, level);
    var cut := Cut(log, level);
    var e := |cut|;
    GoodPrefix(u, log, e);
    SettledPrefix(u, log, e);
    assert cut[..e] == cut == log[..e];
    AllEnforcedPrefix(u, log, cut, e);
    forall pv, d | IsDecision(u, cut, d, pv) ensures pv in listed { assert IsDecision(u, log, d, pv); }
  }

  // ---------- Steps ----------

  lemma CoveredMore(u: Universe, log: Log, ahead: seq<Incompatibility>)
    requires Covered(u, log, [])
    ensures Covered(u, log, ahead)
  {
  }

  lemma LearnInv(u: Universe, st: State, i: Incompatibility, level: nat, rootCause: Incompatibility, phase: Phase)
    requires GoodUniverse(u) && Core(u, st) && phase.Scan? && phase.item.Changed?
    requires VerdictOk(u, st.log, Learned(level, rootCause))
    ensures Inv(u, Learn(st, i, level, rootCause, phase))
    ensures exists t :: Propagate(Cut(st.log, level), rootCause) == Derived(t)
  {
    var cut := Cut(st.log, level);
    CutKeeps(u, st.log, level, st.listed);
    var open :| OneOpen(cut, rootCause.terms, open);
    OneOpenIsDerived(cut, rootCause, open);
    AddKeepsStoreOk(u, st.store, rootCause);
    AddKeepsListedOk(u, st.store, rootCause, st.listed);
    var next := Learn(st, i, level, rootCause, phase);
    CoveredMore(u, cut, Ahead(next));
    DeriveKeeps(u, cut, open, rootCause, st.listed, Ahead(next));
  }

  /** Examining the fact of a decided version leaves its dependency enforced, or finds a conflict. */
  lemma FactExamined(u: Universe, log: Log, d: nat, pv: PackageVersion, r: Requirement)
    requires GoodUniverse(u) && GoodLog(u, log) && IsDecision(u, log, d, pv) && r in Dependencies(u, pv)
    requires Propagate(log, Fact(u, pv, r)).Quiet?
    ensures Enforced(u, log, |log|, r)
  {
    var f := Fact(u, pv, r);
    var dependee, dependency := f.terms[0], f.terms[1];
    DecisionStays(u, log, d, |log|);
    if IsSelf(pv, r) {
      assert Known(u, pv);
      MeaningMembers(dependee);
      MeaningMembers(dependency);
    } else {
      FactIsGood(u, pv, r);
      assert dependee in f.terms && dependency in f.terms;
      SatMeans(u, log, |log|, dependee);
      RefutedMeans(u, log, |log|, dependency);
      PropagateOutcome(log, f);
    }
  }

  lemma FactDerived(u: Universe, log: Log, d: nat, pv: PackageVersion, r: Requirement, open: Term)
    requires GoodUniverse(u) && GoodLog(u, log) && IsDecision(u, log, d, pv) && r in Dependencies(u, pv)
    requires Propagate(log, Fact(u, pv, r)) == Derived(open)
    ensures var next := Derive(log, open, Fact(u, pv, r));
            Enforced(u, next, |next|, r)
  {
    if IsSelf(pv, r) { IdleIsQuiet(u, log, Fact(u, pv, r)); }
    FactIsGood(u, pv, r);
    var f := Fact(u, pv, r);
    var dependee, dependency := f.terms[0], f.terms[1];
    assert dependee in f.terms && dependency in f.terms;
    DecisionStays(u, log, d, |log|);
    SatMeans(u, log, |log|, dependee);
    PropagateOutcome(log, f);
    assert open == dependency;
    DeriveIsGood(u, log, open, f);
    var next := Derive(log, open, f);
    var n, s := |log|, SubjectOf(open);
    assert next[..n] == log == log[..n];
    TermAtPrefix(log, next, n, s);
    InverseIsNegation(open);
    assert next[n].term == Inverse(open);
    if TermAt(log, n, s).Some? {
      TermAtIsGood(u, log, n, s);
      NegationNarrows(TermAt(log, n, s).value, open);
      IntersectIsConjunction(TermAt(log, n, s).value, Inverse(open));
    }
  }

  /** Passing over one incompatibility of the scan, with the log either unchanged or extended. */
  lemma CoveredTail(u: Universe, log: Log, i: Incompatibility, rest: seq<Incompatibility>)
    requires Covered(u, log, [i] + rest)
    requires forall pv, d, r :: IsDecision(u, log, d, pv) && r in Dependencies(u, pv) && Fact(u, pv, r) == i ==>
                                  Enforced(u, log, |log|, r)
    ensures Covered(u, log, rest)
  {
    forall pv, d, r | IsDecision(u, log, d, pv) && r in Dependencies(u, pv)
      ensures Enforced(u, log, |log|, r) || Fact(u, pv, r) in rest
    {
      assert Fact(u, pv, r) in [i] + rest ==> Fact(u, pv, r) == i || Fact(u, pv, r) in rest;
    }
  }

  lemma QuietKeeps(u: Universe, log: Log, i: Incompatibility, rest: seq<Incompatibility>)
    requires GoodUniverse(u) && GoodLog(u, log) && Covered(u, log, [i] + rest) && Propagate(log, i).Quiet?
    ensures Covered(u, log, rest)
  {
    forall pv, d, r | IsDecision(u, log, d, pv) && r in Dependencies(u, pv) && Fact(u, pv, r) == i
      ensures Enforced(u, log, |log|, r)
    {
      FactExamined(u, log, d, pv, r);
    }
    CoveredTail(u, log, i, rest);
  }

  lemma DerivedKeeps(u: Universe, log: Log, i: Incompatibility, open: Term, listed: set<PackageVersion>,
                     rest: seq<Incompatibility>)
    requires GoodUniverse(u) && GoodLog(u, log) && Derivable(u, i) && Propagate(log, i) == Derived(open)
    requires Settled(u, log) && DecisionsListed(u, log, listed) && Covered(u, log, [i] + rest)
    ensures var next := Derive(log, open, i);
            GoodLog(u, next) && Settled(u, next) && DecisionsListed(u, next, listed) && Covered(u, next, rest)
  {
    PropagateOutcome(log, i);
    DeriveKeeps(u, log, open, i, listed, [i] + rest);
    var next := Derive(log, open, i);
    forall pv, d, r | IsDecision(u, next, d, pv) && r in Dependencies(u, pv) && Fact(u, pv, r) == i
      ensures Enforced(u, next, |next|, r)
    {
      assert IsDecision(u, log, d, pv);
      FactDerived(u, log, d, pv, r, open);
    }
    CoveredTail(u, next, i, rest);
  }

  lemma ConflictInv(u: Universe, st: State, i: Incompatibility, phase: Phase)
    requires GoodUniverse(u) && Core(u, st) && Derivable(u, i) && Propagate(st.log, i) == Conflict
    requires phase.Scan? && phase.item.Changed?
    ensures Inv(u, Examine(st, i, phase))
  {
    PropagateOutcome(st.log, i);
    ResolveOk(u, st.log, i, |st.log|);
    var v := Resolve(st.log, i, |st.log|);
    if v.Learned? { LearnInv(u, st, i, v.level, v.rootCause, phase); }
  }

  lemma AheadSplits(st: State)
    requires st.phase.Scan? && st.phase.next < |ListOf(st.store, st.phase.item)|
    ensures var list, next := ListOf(st.store, st.phase.item), st.phase.next;
            && Ahead(st) == [list[next]] + list[next + 1..]
            && Ahead(st.(phase := Scan(st.phase.item, next + 1))) == list[next + 1..]
  {
    var list := ListOf(st.store, st.phase.item);
    assert list[|list|..] == [];
  }

  lemma ExamineInv(u: Universe, st: State)
    requires Inv(u, st) && st.phase.Scan? && st.phase.next < |ListOf(st.store, st.phase.item)|
    ensures Inv(u, Step(u, st))
  {
    var item, next := st.phase.item, st.phase.next;
    var list := ListOf(st.store, item);
    var i := list[next];
    assert i in ListFor(st.store, item.subject);
    assert Stored(u, i);
    OnlyDerivablePropagate(u, st.log, i);
    AheadSplits(st);
    match Propagate(st.log, i)
    case Quiet => QuietKeeps(u, st.log, i, list[next + 1..]);
    case Derived(open) => DerivedKeeps(u, st.log, i, open, st.listed, list[next + 1..]);
    case Conflict => ConflictInv(u, st, i, Scan(item, next + 1));
  }

  // ---------- Decisions ----------

  lemma DecideIsGood(u: Universe, log: Log, n: Name, v: Version)
    requires GoodLog(u, log) && n in Undecided(u, log) && v in ValidVersions(u, n, Undecided(u, log)[n])
    ensures GoodLog(u, Decide(u, log, Release(n, v)))
  {
    var next := Decide(u, log, Release(n, v));
    var k, s := |log|, Package(n);
    var t := next[k].term;
    assert next[..k] == log == log[..k];
    TermAtPrefix(log, next, k, s);
    DecisionsAtPrefix(log, next, k);
    TermAtIsGood(u, log, k, s);
    var c := TermAt(log, k, s).value;
    MeaningMembers(c);
    MeaningMembers(t);
    IntersectIsConjunction(c, t);
    assert At(v) in Meaning(c) * Meaning(t);
    assert Meaning(t) <= Meaning(c);
    assert DecidedVersion(u, t);
    GoodExtension(u, log, next[k]);
  }

  lemma DecideKeeps(u: Universe, log: Log, n: Name, v: Version, listed: set<PackageVersion>,
                    ahead: seq<Incompatibility>)
    requires GoodUniverse(u) && GoodLog(u, log) && n in Undecided(u, log)
    requires v in ValidVersions(u, n, Undecided(u, log)[n])
    requires Settled(u, log) && DecisionsListed(u, log, listed) && Covered(u, log, [])
    requires Release(n, v) in listed
    requires forall r :: r in Dependencies(u, Release(n, v)) ==> Fact(u, Release(n, v), r) in ahead
    ensures var next := Decide(u, log, Release(n, v));
            GoodLog(u, next) && Settled(u, next) && DecisionsListed(u, next, listed) && Covered(u, next, ahead)
  {
    var pv := Release(n, v);
    var next := Decide(u, log, pv);
    DecideIsGood(u, log, n, v);
    SettledExtension(u, log, next[|log|]);
    forall d: nat, p | IsDecision(u, next, d, p)
      ensures p in listed
      ensures forall r :: r in Dependencies(u, p) ==> Enforced(u, next, |next|, r) || Fact(u, p, r) in ahead
    {
      if d < |log| {
        assert IsDecision(u, log, d, p);
        forall r | r in Dependencies(u, p) ensures Enforced(u, next, |next|, r) { EnforcedStays(u, log, next[|log|], r); }
      } else {
        assert DependeeTerm(u, p) == DependeeTerm(u, pv);
        assert v in {p.version};
      }
    }
  }

  lemma ListingOk(u: Universe, st: State, pv: PackageVersion)
    requires GoodUniverse(u) && Core(u, st) && Listable(u, pv)
    ensures var reqs := if pv in st.listed then [] else Dependencies(u, pv);
            var store := AddFacts(u, st.store, pv, reqs);
            StoreOk(u, store) && ListedOk(u, store, st.listed + {pv})
  {
    var reqs := if pv in st.listed then [] else Dependencies(u, pv);
    AddFactsOk(u, st.store, st.listed, pv, reqs);
  }

  lemma SelectInv(u: Universe, st: State, n: Name, v: Version)
    requires GoodUniverse(u) && Core(u, st) && Covered(u, st.log, [])
    requires n in Undecided(u, st.log) && v in ValidVersions(u, n, Undecided(u, st.log)[n])
    ensures Inv(u, Select(u, st, n, v))
  {
    var next := Select(u, st, n, v);
    ListingOk(u, st, Release(n, v));
    var list := ListFor(next.store, Package(n));
    assert list[0..] == list;
    assert Ahead(next) == list;
    if next.log == st.log { CoveredMore(u, st.log, list); }
    else { DecideKeeps(u, st.log, n, v, next.listed, list); }
  }

  lemma ChooseInv(u: Universe, st: State)
    requires Inv(u, st) && st.phase.Choosing?
    ensures Inv(u, Step(u, st))
  {
    var open := Undecided(u, st.log);
    if open != map[] {
      var n := Best(u, open);
      var valid := ValidVersions(u, n, open[n]);
      if valid == {} {
        var f := NoVersionsFact(u, n, open[n].versions);
        assert open[n].versions * Usable(u, n) == {};
        assert IsFact(u, f);
        assert Derivable(u, f);
        AddKeepsStoreOk(u, st.store, f);
        AddKeepsListedOk(u, st.store, f, st.listed);
        CoveredMore(u, st.log, Ahead(Step(u, st)));
      } else {
        SelectInv(u, st, n, BestVersion(u, n, valid));
      }
    }
  }

  lemma StepInv(u: Universe, st: State)
    requires Inv(u, st)
    ensures Inv(u, Step(u, st))
  {
    match st.phase
    case Scan(item, next) =>
      if next < |ListOf(st.store, item)| {
        ExamineInv(u, st);
      } else if st.queue != [] {
        assert st.queue[0] in st.queue;
        CoveredMore(u, st.log, Ahead(Step(u, st)));
      }
    case Choosing => ChooseInv(u, st);
    case _ =>
  }

  lemma InitInv(u: Universe)
    requires GoodUniverse(u)
    ensures Inv(u, Init(u))
  {
    var st := Init(u);
    assert StoreOk(u, map[]) && ListedOk(u, map[], {});
    AddFactsOk(u, map[], {}, RootVersion, u.requirements);
    assert TermAt(st.log, 1, Root) == Some(RootConstraint(true));
    assert EntryOk(u, st.log, 0);
    var list := ListFor(st.store, Root);
    assert list[0..] == list;
    assert Ahead(st) == list;
    forall pv, d | IsDecision(u, st.log, d, pv) ensures pv == RootVersion {}
  }

  /** In every reachable state the invariant holds. */
  lemma {:induction false} RunInv(u: Universe, k: nat)
    requires GoodUniverse(u)
    ensures Inv(u, Run(u, k))
  {
    if k == 0 { InitInv(u); }
    else { RunInv(u, k - 1); StepInv(u, Run(u, k - 1)); }
  }

  // ---------- What the final states mean ----------

  /** The decided packages with their versions. */
  ghost function SolutionOf(log: Log): Choice {
    var decided := DecisionsAt(log, |log|);
    map s | s in decided && s.Package? && decided[s].VersionConstraint? && decided[s].versions != {}
      :: s.name := AnyOf(decided[s].versions)
  }

  lemma SolutionEntry(u: Universe, log: Log, n: Name) returns (d: nat, v: Version)
    requires GoodLog(u, log) && Package(n) in DecisionsAt(log, |log|)
    ensures IsDecision(u, log, d, Release(n, v)) && v in Usable(u, n)
    ensures n in SolutionOf(log) && SolutionOf(log)[n] == v
  {
    d := DecisionWitness(log, |log|, Package(n));
    assert EntryOk(u, log, d);
    v :| v in Usable(u, n) && log[d].term.versions == {v};
  }

  lemma EnforcedIsMet(u: Universe, log: Log, r: Requirement)
    requires GoodLog(u, log) && Undecided(u, log) == map[] && Enforced(u, log, |log|, r)
    ensures Meets(u, SolutionOf(log), r)
  {
    var k, s := |log|, Package(r.name);
    var t := DependencyTerm(u, r);
    var c := TermAt(log, k, s).value;
    TermAtIsGood(u, log, k, s);
    MeaningMembers(c);
    MeaningMembers(t);
    assert Absent !in Meaning(c) * Meaning(t);
    assert c.positive;
    assert r.name !in Undecided(u, log);
    var d, v := SolutionEntry(u, log, r.name);
    DecisionStays(u, log, d, k);
    MeaningMembers(log[d].term);
    assert At(v) in Meaning(c);
    assert At(v) !in Meaning(c) * Meaning(t);
  }

  /** When solving ends normally, the decisions are a valid solution. */
  lemma SolvedIsValid(u: Universe, st: State)
    requires Inv(u, st) && st.phase.Solved?
    ensures ValidSolution(u, SolutionOf(st.log))
  {
    var log := st.log;
    assert EntryOk(u, log, 0);
    assert IsDecision(u, log, 0, RootVersion);
    forall r | r in u.requirements ensures Meets(u, SolutionOf(log), r) {
      assert r in Dependencies(u, RootVersion);
      EnforcedIsMet(u, log, r);
    }
    forall n | n in SolutionOf(log)
      ensures SolutionOf(log)[n] in Usable(u, n)
      ensures forall r :: r in Dependencies(u, Release(n, SolutionOf(log)[n])) ==> Meets(u, SolutionOf(log), r)
    {
      var d, v := SolutionEntry(u, log, n);
      forall r | r in Dependencies(u, Release(n, v)) ensures Meets(u, SolutionOf(log), r) { EnforcedIsMet(u, log, r); }
    }
  }

  /** Every run that ends reports a valid solution, or a failure derived from the facts. */
  lemma RunOutcome(u: Universe, k: nat, choice: Choice)
    requires GoodUniverse(u) && Final(Run(u, k))
    ensures var st := Run(u, k);
            && !st.phase.Wedged?
            && (st.phase.Solved? ==> ValidSolution(u, SolutionOf(st.log)))
            && (st.phase.Unsolvable? ==> Derivable(u, st.phase.failure) && IsFailure(st.phase.failure))
            && (st.phase.Unsolvable? && Harmless(u, st.phase.failure) ==> !ValidSolution(u, choice))
  {
    RunInv(u, k);
    var st := Run(u, k);
    if st.phase.Solved? { SolvedIsValid(u, st); }
    if st.phase.Unsolvable? && Harmless(u, st.phase.failure) {
      HarmlessFailureMeansNoSolution(u, st.phase.failure, choice);
    }
  }
}
