/** When every dependency accepts some existing version, conflict analysis never meets exclusive terms. */
module Mergeable {
  import opened Terms
  import opened Universes
  import opened Resolution
  import opened Logs
  import opened Conflicts
  import opened Machine
  import opened Invariants

  /** The term speaks about at least one version that exists. */
  predicate Proper(t: Term) {
    t.VersionConstraint? ==> t.versions * t.all != {}
  }

  ghost predicate ProperTerms(terms: seq<Term>) {
    forall t :: t in terms ==> Proper(t)
  }

  ghost predicate ProperEntry(a: Assignment) {
    && Proper(a.term)
    && (a.cause.Some? && a.cause.value.IncompatibilityCause? ==> ProperTerms(a.cause.value.incompatibility.terms))
  }

  ghost predicate ProperLog(log: Log) {
    forall a :: a in log ==> ProperEntry(a)
  }

  ghost predicate ProperStore(store: Store) {
    forall s, i :: i in ListFor(store, s) ==> ProperTerms(i.terms)
  }

  lemma ProperIntersect(t: Term, o: Term)
    requires SameSubject(t, o) && Proper(t) && Proper(o) && Intersect(t, o).Some?
    ensures Proper(Intersect(t, o).value)
  {
    var r := Intersect(t, o).value;
    if r.VersionConstraint? {
      if r.positive { assert r.versions * r.all == r.versions; }
      else {
        var v := AnyOf(t.versions * t.all);
        assert v in r.versions * r.all;
      }
    }
  }

  lemma ProperMeaning(t: Term)
    requires Proper(t)
    ensures Meaning(t) != {}
  {
    MeaningMembers(t);
    if t.RootConstraint? {
      assert At(0) in Meaning(t) || Absent in Meaning(t);
    } else if t.positive {
      var v := AnyOf(t.versions * t.all);
      assert At(v) in Meaning(t);
    }
  }

  /** The log never rules out everything about a package. */
  lemma {:induction false} TermAtProper(u: Universe, log: Log, i: nat, s: Subject)
    requires GoodLog(u, log) && ProperLog(log) && i <= |log|
    ensures TermAt(log, i, s).Some? ==> Proper(TermAt(log, i, s).value) && Meaning(TermAt(log, i, s).value) != {}
  {
    if i == 0 {
    } else {
      TermAtProper(u, log, i - 1, s);
      assert EntryOk(u, log, i - 1);
      assert log[i - 1] in log;
      TermAtIsGood(u, log, i - 1, s);
      if SubjectOf(log[i - 1].term) == s && TermAt(log, i - 1, s).Some? {
        ProperIntersect(TermAt(log, i - 1, s).value, log[i - 1].term);
      }
      if TermAt(log, i, s).Some? { ProperMeaning(TermAt(log, i, s).value); }
    }
  }

  lemma {:induction false} ProperMerge(u: Universe, merged: seq<Term>, terms: seq<Term>)
    requires GoodTerms(u, merged) && GoodTerms(u, terms) && ProperTerms(merged) && ProperTerms(terms) && Distinct(merged)
    requires MergeFrom(merged, terms).Some?
    ensures ProperTerms(MergeFrom(merged, terms).value)
    decreases |terms|
  {
    if terms == [] {
    } else {
      var t := terms[0];
      assert t in terms;
      MergeIntoMeaning(u, merged, t, SubjectOf(t));
      var k := Find(merged, SubjectOf(t));
      if k < |merged| {
        assert GoodTerm(u, merged[k]);
        ProperIntersect(merged[k], t);
      }
      ProperMerge(u, MergeInto(merged, t).value, terms[1..]);
    }
  }

  /** Terms that one log satisfies cannot exclude each other. */
  lemma SatisfiedTermsMerge(u: Universe, log: Log, i: nat, terms: seq<Term>)
    requires GoodLog(u, log) && ProperLog(log) && i <= |log|
    requires GoodTerms(u, terms) && ProperTerms(terms) && AllSatAt(log, i, terms)
    ensures Merge(terms).Some? && ProperTerms(Merge(terms).value)
  {
    if Merge(terms).None? {
      MergeFails(u, terms);
      var s :| Clashes(terms, s);
      var t := About(terms, s)[0];
      AboutMembers(terms, s, t);
      assert SatAt(log, i, t) && Proper(t);
      TermAtProper(u, log, i, s);
      var p := AnyOf(Meaning(TermAt(log, i, s).value));
      forall x | x in About(terms, s) ensures p in Meaning(x) {
        AboutMembers(terms, s, x);
        SatMeans(u, log, i, x);
      }
      assert AllAccept(About(terms, s), p);
      assert false;
    }
    ProperMerge(u, [], terms);
  }

  lemma ProperNewTerms(conflict: seq<Term>, other: seq<Term>, t: Term, a: Term)
    requires SameSubject(a, t) && ProperTerms(conflict) && ProperTerms(other)
    ensures ProperTerms(NewTerms(conflict, other, t, a))
  {
    if Difference(a, t).Some? {
      var d := Difference(a, t).value;
      if d.VersionConstraint? { assert d.versions * d.all == d.versions; }
    }
  }

  lemma RoundMerges(u: Universe, log: Log, conflict: Incompatibility, an: Analysis)
    requires GoodLog(u, log) && ProperLog(log) && Derivable(u, conflict) && ProperTerms(conflict.terms)
    requires AnalysisOk(log, conflict.terms, an) && log[an.index].cause.Some?
    ensures log[an.index].cause.value.IncompatibilityCause?
    ensures Resolvent(log, conflict, an).Some? && ProperTerms(Resolvent(log, conflict, an).value.terms)
  {
    NewTermsSatisfied(u, log, conflict.terms, an);
    var a := log[an.index];
    assert a in log;
    var other := a.cause.value.incompatibility;
    ProperNewTerms(conflict.terms, other.terms, an.term, a.term);
    SatisfiedTermsMerge(u, log, an.index, NewTerms(conflict.terms, other.terms, an.term, a.term));
  }

  lemma {:induction false} ResolveMerges(u: Universe, log: Log, conflict: Incompatibility, bound: nat)
    requires GoodLog(u, log) && ProperLog(log) && Derivable(u, conflict) && ProperTerms(conflict.terms)
    requires bound <= |log| && AllSatAt(log, bound, conflict.terms)
    ensures var v := Resolve(log, conflict, bound);
            !v.MergeError? && (v.Learned? ==> ProperTerms(v.rootCause.terms))
    decreases bound
  {
    if !IsFailure(conflict) {
      RoundUnfolds(u, log, conflict, bound);
      RoundIsAnalysed(u, log, conflict, bound);
      var an := Analyse(log, conflict.terms).value;
      if log[an.index].cause.Some? && an.previousLevel >= log[an.index].level {
        RoundMerges(u, log, conflict, an);
        ResolveMerges(u, log, Resolvent(log, conflict, an).value, an.index);
      }
    }
  }

  // ---------- Every reachable state ----------

  ghost predicate ProperState(st: State) {
    ProperLog(st.log) && ProperStore(st.store) && !st.phase.Broken?
  }

  lemma AddProper(store: Store, i: Incompatibility)
    requires ProperStore(store) && ProperTerms(i.terms)
    ensures ProperStore(Add(store, i))
  {
    forall s, x | x in ListFor(Add(store, i), s) ensures ProperTerms(x.terms) { AddUnderMembers(store, i, i.terms, s); }
  }

  lemma {:induction false} AddFactsProper(u: Universe, store: Store, pv: PackageVersion, reqs: seq<Requirement>)
    requires Satisfiable(u) && ProperStore(store) && Listable(u, pv)
    requires forall r :: r in reqs ==> r in Dependencies(u, pv)
    ensures ProperStore(AddFacts(u, store, pv, reqs))
    decreases |reqs|
  {
    if reqs == [] {
    } else {
      var f := Fact(u, pv, reqs[0]);
      assert reqs[0] in reqs && Known(u, pv);
      assert pv.Release? ==> pv.version in {pv.version} * AllVersions(u, pv.name);
      AddProper(store, f);
      AddFactsProper(u, Add(store, f), pv, reqs[1..]);
    }
  }

  lemma DeriveProper(log: Log, open: Term, i: Incompatibility)
    requires ProperLog(log) && ProperTerms(i.terms) && open in i.terms
    ensures ProperLog(Derive(log, open, i))
  {
  }

  lemma CutProper(log: Log, level: nat)
    requires ProperLog(log)
    ensures ProperLog(Cut(log, level))
    decreases |log|
  {
    if log != [] && log[|log| - 1].level > level { CutProper(log[..|log| - 1], level); }
  }

  lemma ExamineProper(u: Universe, st: State)
    requires Inv(u, st) && ProperState(st) && st.phase.Scan? && st.phase.next < |ListOf(st.store, st.phase.item)|
    ensures ProperState(Step(u, st))
  {
    var i := ListOf(st.store, st.phase.item)[st.phase.next];
    assert i in ListFor(st.store, st.phase.item.subject);
    assert Stored(u, i);
    OnlyDerivablePropagate(u, st.log, i);
    match Propagate(st.log, i)
    case Quiet =>
    case Derived(open) =>
      PropagateOutcome(st.log, i);
      DeriveProper(st.log, open, i);
    case Conflict =>
      PropagateOutcome(st.log, i);
      ResolveMerges(u, st.log, i, |st.log|);
      ResolveOk(u, st.log, i, |st.log|);
      var v := Resolve(st.log, i, |st.log|);
      if v.Learned? {
        LearnInv(u, st, i, v.level, v.rootCause, Scan(st.phase.item, st.phase.next + 1));
        CutProper(st.log, v.level);
        PropagateOutcome(Cut(st.log, v.level), v.rootCause);
        DeriveProper(Cut(st.log, v.level), Propagate(Cut(st.log, v.level), v.rootCause).term, v.rootCause);
        AddProper(st.store, v.rootCause);
      }
  }

  lemma SelectProper(u: Universe, st: State, n: Name, v: Version)
    requires Satisfiable(u) && ProperState(st) && n in u.names && v in Usable(u, n)
    ensures ProperState(Select(u, st, n, v))
  {
    var pv := Release(n, v);
    AddFactsProper(u, st.store, pv, if pv in st.listed then [] else Dependencies(u, pv));
    assert v in DependeeTerm(u, pv).versions * DependeeTerm(u, pv).all;
  }

  lemma ChooseProper(u: Universe, st: State)
    requires Satisfiable(u) && Inv(u, st) && ProperState(st) && st.phase.Choosing?
    ensures ProperState(Step(u, st))
  {
    var open := Undecided(u, st.log);
    if open != map[] {
      var n := Best(u, open);
      var valid := ValidVersions(u, n, open[n]);
      TermAtProper(u, st.log, |st.log|, Package(n));
      TermAtIsGood(u, st.log, |st.log|, Package(n));
      if valid == {} { AddProper(st.store, NoVersionsFact(u, n, open[n].versions)); }
      else { SelectProper(u, st, n, BestVersion(u, n, valid)); }
    }
  }

  lemma StepProper(u: Universe, st: State)
    requires Satisfiable(u) && Inv(u, st) && ProperState(st)
    ensures ProperState(Step(u, st))
  {
    match st.phase
    case Scan(item, next) => if next < |ListOf(st.store, item)| { ExamineProper(u, st); }
    case Choosing => ChooseProper(u, st);
    case _ =>
  }

  lemma InitProper(u: Universe)
    requires Satisfiable(u)
    ensures ProperState(Init(u))
  {
    assert ProperStore(map[]);
    AddFactsProper(u, map[], RootVersion, u.requirements);
  }

  /** With satisfiable dependencies no run ends in the "mutually exclusive terms" error. */
  lemma {:induction false} RunNeverBreaks(u: Universe, k: nat)
    requires GoodUniverse(u) && Satisfiable(u)
    ensures ProperState(Run(u, k))
  {
    if k == 0 {
      InitProper(u);
    } else {
      RunNeverBreaks(u, k - 1);
      RunInv(u, k - 1);
      StepProper(u, Run(u, k - 1));
    }
  }
}
