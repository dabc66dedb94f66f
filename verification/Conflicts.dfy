/** Conflict analysis on a fixed log: satisfiers, the level to return to, and the root cause. */
module Conflicts {
  import opened Terms
  import opened Universes
  import opened Resolution
  import opened Logs

  // ---------- Satisfiers ----------

  function FirstSat(log: Log, i: nat, t: Term): (k: nat)
    requires i <= |log| && SatAt(log, |log|, t) && !SatAt(log, i, t)
    ensures i <= k < |log| && SatAt(log, k + 1, t)
    ensures forall j :: i <= j <= k ==> !SatAt(log, j, t)
    ensures SubjectOf(log[k].term) == SubjectOf(t)
    decreases |log| - i
  {
    if SatAt(log, i + 1, t) then i else FirstSat(log, i + 1, t)
  }

  /** The first assignment after which the log implies `t`. */
  function Satisfier(log: Log, t: Term): (k: nat)
    requires SatAt(log, |log|, t)
    ensures k < |log| && SatAt(log, k + 1, t)
    ensures forall j :: 0 <= j <= k ==> !SatAt(log, j, t)
    ensures SubjectOf(log[k].term) == SubjectOf(t)
  {
    FirstSat(log, 0, t)
  }

  // ---------- Terms ordered by satisfier ----------

  datatype Explained = Explained(term: Term, index: nat)

  predicate Ascending(xs: seq<Explained>) {
    forall i, j :: 0 <= i < j < |xs| ==> xs[i].index <= xs[j].index
  }

  predicate NoRepeats(xs: seq<Explained>) {
    forall i, j :: 0 <= i < j < |xs| ==> xs[i].term != xs[j].term
  }

  function Insert(sorted: seq<Explained>, x: Explained): (r: seq<Explained>)
    ensures |r| == |sorted| + 1
    ensures forall y :: y in r <==> y == x || y in sorted
  {
    if sorted == [] then [x]
    else
      var front, last := sorted[..|sorted| - 1], sorted[|sorted| - 1];
      assert sorted == front + [last];
      if last.index <= x.index then sorted + [x] else Insert(front, x) + [last]
  }

  lemma {:induction false} InsertAscending(sorted: seq<Explained>, x: Explained)
    requires Ascending(sorted)
    ensures Ascending(Insert(sorted, x))
    decreases |sorted|
  {
    if sorted != [] && sorted[|sorted| - 1].index > x.index {
      var front, last := sorted[..|sorted| - 1], sorted[|sorted| - 1];
      InsertAscending(front, x);
      var r := Insert(front, x);
      forall i | 0 <= i < |r| ensures r[i].index <= last.index { assert r[i] in r; }
    }
  }

  lemma {:induction false} InsertNoRepeats(sorted: seq<Explained>, x: Explained)
    requires NoRepeats(sorted) && forall y :: y in sorted ==> y.term != x.term
    ensures NoRepeats(Insert(sorted, x))
    decreases |sorted|
  {
    if sorted != [] && sorted[|sorted| - 1].index > x.index {
      var front, last := sorted[..|sorted| - 1], sorted[|sorted| - 1];
      InsertNoRepeats(front, x);
      var r := Insert(front, x);
      forall i | 0 <= i < |r| ensures r[i].term != last.term { assert r[i] in r; }
    }
  }

  function SortTerms(log: Log, terms: seq<Term>): (r: seq<Explained>)
    requires AllSatAt(log, |log|, terms)
    ensures |r| == |terms| && Ascending(r)
    ensures forall x :: x in r <==> x.term in terms && x.index == Satisfier(log, x.term)
  {
    if terms == [] then []
    else
      var front, last := terms[..|terms| - 1], terms[|terms| - 1];
      assert terms == front + [last];
      var sorted, x := SortTerms(log, front), Explained(last, Satisfier(log, last));
      InsertAscending(sorted, x);
      Insert(sorted, x)
  }

  lemma {:induction false} SortNoRepeats(log: Log, terms: seq<Term>)
    requires AllSatAt(log, |log|, terms) && Distinct(terms)
    ensures NoRepeats(SortTerms(log, terms))
  {
    if terms == [] {
    } else {
      var front, last := terms[..|terms| - 1], terms[|terms| - 1];
      SortNoRepeats(log, front);
      InsertNoRepeats(SortTerms(log, front), Explained(last, Satisfier(log, last)));
    }
  }

  // ---------- One round of conflict analysis ----------

  /** The most recently satisfied term, its satisfier's index, and the previous decision level. */
  datatype Analysis = Analysis(term: Term, index: nat, previousLevel: nat)

  function Max(a: nat, b: nat): nat {
    if a >= b then a else b
  }

  function PreviousLevel(log: Log, sorted: seq<Explained>): (r: Option<nat>)
    requires sorted != [] && forall x :: x in sorted ==> x.index < |log| && SubjectOf(log[x.index].term) == SubjectOf(x.term)
  {
    var top := sorted[|sorted| - 1];
    assert top in sorted;
    var previous := if |sorted| > 1 then assert sorted[|sorted| - 2] in sorted; log[sorted[|sorted| - 2].index].level else 1;
    match Difference(log[top.index].term, top.term)
    case None => Some(previous)
    case Some(d) =>
      if !SatAt(log, |log|, Inverse(d)) then None
      else Some(Max(previous, log[Satisfier(log, Inverse(d))].level))
  }

  function Analyse(log: Log, terms: seq<Term>): (r: Option<Analysis>)
    requires terms != []
    ensures r.Some? ==>
              && r.value.term in terms && r.value.index < |log|
              && SubjectOf(log[r.value.index].term) == SubjectOf(r.value.term)
  {
    if !AllSatAt(log, |log|, terms) then None
    else
      var sorted := SortTerms(log, terms);
      var top := sorted[|sorted| - 1];
      assert top in sorted;
      match PreviousLevel(log, sorted)
      case None => None
      case Some(level) => Some(Analysis(top.term, top.index, level))
  }

  /** What the other terms of the conflict and a partial satisfier leave to be said. */
  ghost predicate AnalysisOk(log: Log, terms: seq<Term>, an: Analysis) {
    && an.term in terms && an.index < |log| && SatAt(log, |log|, an.term)
    && an.index == Satisfier(log, an.term)
    && 1 <= an.previousLevel
    && (an.previousLevel == 1 || exists x :: Needed(log, terms, an.term, x) && LevelOf(log, x) == an.previousLevel)
    && (forall t :: t in terms && t != an.term ==> SatAt(log, an.index, t))
    && (var d := Difference(log[an.index].term, an.term); d.Some? ==> SatAt(log, an.index, Inverse(d.value)))
    && (forall x :: Needed(log, terms, an.term, x) ==> SatAt(log, |log|, x) && LevelOf(log, x) <= an.previousLevel)
  }

  /** What must hold for `t` to be the only open term: the other terms, and what its satisfier leaves of it. */
  ghost predicate Needed(log: Log, terms: seq<Term>, t: Term, x: Term)
    requires SatAt(log, |log|, t)
  {
    (x in terms && x != t) || (var d := Difference(log[Satisfier(log, t)].term, t); d.Some? && x == Inverse(d.value))
  }

  /** The level on which the log comes to imply `x`; 0 if it does not. */
  ghost function LevelOf(log: Log, x: Term): nat {
    if SatAt(log, |log|, x) then log[Satisfier(log, x)].level else 0
  }

  /** What the most recent satisfier leaves open was already excluded before it. */
  lemma PartialSatisfier(u: Universe, log: Log, t: Term)
    requires GoodLog(u, log) && GoodTerm(u, t) && SatAt(log, |log|, t)
    ensures var k := Satisfier(log, t);
            var d := Difference(log[k].term, t);
            d.Some? ==> SatAt(log, k, Inverse(d.value)) && GoodTerm(u, Inverse(d.value))
  {
    var k, s := Satisfier(log, t), SubjectOf(t);
    var a := log[k].term;
    assert EntryOk(u, log, k);
    if Difference(a, t).Some? {
      var d := Difference(a, t).value;
      DifferenceIsExactUnlessLossy(a, t);
      InverseIsNegation(d);
      SatMeans(u, log, k + 1, t);
      assert Domain(d) == Domain(t);
      assert Meaning(d) != {} by {
        MeaningMembers(d);
        if d.VersionConstraint? && Meaning(d) == {} {
          forall v ensures v !in d.versions { assert At(v) !in Meaning(d); }
          assert false;
        }
      }
      TermAtIsGood(u, log, k, s);
      if TermAt(log, k, s).Some? {
        var c := TermAt(log, k, s).value;
        IntersectIsConjunction(c, a);
        assert Meaning(c) <= Meaning(Inverse(d)) by {
          assert Domain(c) == Domain(d);
          forall p | p in Meaning(c) ensures p !in Meaning(d) {}
        }
        SatMeans(u, log, k, Inverse(d));
      }
    }
  }

  lemma EarlierOrEqualLevel(u: Universe, log: Log, t: Term, j: nat)
    requires GoodLog(u, log) && GoodTerm(u, t) && j < |log|
    requires SatAt(log, j, t)
    ensures SatAt(log, |log|, t)
    ensures Satisfier(log, t) < j && 1 <= log[Satisfier(log, t)].level <= log[j].level
  {
    SatStays(u, log, j, |log|, t);
    LevelsRise(u, log, Satisfier(log, t), j);
  }

  /** Terms about different subjects have different satisfiers, so the last one is strictly last. */
  lemma OthersAreEarlier(u: Universe, log: Log, terms: seq<Term>, t: Term, top: Term)
    requires GoodLog(u, log) && GoodTerms(u, terms) && Distinct(terms) && AllSatAt(log, |log|, terms)
    requires t in terms && top in terms && t != top
    requires Satisfier(log, t) <= Satisfier(log, top)
    ensures Satisfier(log, t) < Satisfier(log, top) && SatAt(log, Satisfier(log, top), t)
  {
    if SubjectOf(t) == SubjectOf(top) { DistinctBySubject(terms, t, top); }
    SatStays(u, log, Satisfier(log, t) + 1, Satisfier(log, top), t);
  }

  lemma PreviousLevelSucceeds(u: Universe, log: Log, terms: seq<Term>, sorted: seq<Explained>)
    requires GoodLog(u, log) && GoodTerms(u, terms) && Distinct(terms) && terms != [] && AllSatAt(log, |log|, terms)
    requires sorted == SortTerms(log, terms)
    ensures var n := |sorted|;
            var top := sorted[n - 1];
            var r := PreviousLevel(log, sorted);
            && r.Some? && 1 <= r.value && top.term in terms && top.index == Satisfier(log, top.term)
            && (forall x :: Needed(log, terms, top.term, x) ==> SatAt(log, |log|, x) && LevelOf(log, x) <= r.value)
            && (r.value == 1 || exists x :: Needed(log, terms, top.term, x) && LevelOf(log, x) == r.value)
  {
    var n := |sorted|;
    var top := sorted[n - 1];
    assert top in sorted;
    SortNoRepeats(log, terms);
    PartialSatisfier(u, log, top.term);
    var d := Difference(log[top.index].term, top.term);
    if d.Some? { EarlierOrEqualLevel(u, log, Inverse(d.value), top.index); }
    forall x | x in terms && x != top.term
      ensures n > 1 && LevelOf(log, x) <= log[sorted[n - 2].index].level
    {
      var i := PositionOf(log, terms, sorted, x);
      SecondIsHighest(u, log, sorted, i);
    }
    if n > 1 {
      var y := sorted[n - 2];
      assert y in sorted && Needed(log, terms, top.term, y.term);
      LevelsRise(u, log, y.index, y.index);
    }
    if d.Some? { assert Needed(log, terms, top.term, Inverse(d.value)); }
  }

  /** The position of a term among the sorted ones. */
  lemma PositionOf(log: Log, terms: seq<Term>, sorted: seq<Explained>, x: Term) returns (i: nat)
    requires AllSatAt(log, |log|, terms) && sorted == SortTerms(log, terms) && x in terms
    ensures i < |sorted| && sorted[i] == Explained(x, Satisfier(log, x))
  {
    assert Explained(x, Satisfier(log, x)) in sorted;
    i :| 0 <= i < |sorted| && sorted[i] == Explained(x, Satisfier(log, x));
  }

  /** Among the other terms the last but one was satisfied on the highest level. */
  lemma SecondIsHighest(u: Universe, log: Log, sorted: seq<Explained>, i: nat)
    requires GoodLog(u, log) && Ascending(sorted) && i < |sorted| - 1
    requires forall e :: e in sorted ==> SatAt(log, |log|, e.term) && e.index == Satisfier(log, e.term)
    ensures var y := sorted[|sorted| - 2]; y.index < |log| && LevelOf(log, sorted[i].term) <= log[y.index].level
  {
    var x, y := sorted[i], sorted[|sorted| - 2];
    assert x in sorted && y in sorted;
    assert x.index <= y.index;
    LevelsRise(u, log, x.index, y.index);
  }

  /** The analysis takes the last of the sorted terms. */
  lemma AnalyseTakesLast(u: Universe, log: Log, terms: seq<Term>, sorted: seq<Explained>)
    requires GoodLog(u, log) && GoodTerms(u, terms) && Distinct(terms) && terms != []
    requires AllSatAt(log, |log|, terms) && sorted == SortTerms(log, terms)
    ensures var an := Analyse(log, terms);
            && an.Some? && Explained(an.value.term, an.value.index) == sorted[|sorted| - 1]
            && Some(an.value.previousLevel) == PreviousLevel(log, sorted)
  {
    PreviousLevelSucceeds(u, log, terms, sorted);
  }

  lemma AnalyseSucceeds(u: Universe, log: Log, terms: seq<Term>)
    requires GoodLog(u, log) && GoodTerms(u, terms) && Distinct(terms) && terms != []
    requires AllSatAt(log, |log|, terms)
    ensures Analyse(log, terms).Some? && AnalysisOk(log, terms, Analyse(log, terms).value)
  {
    var sorted := SortTerms(log, terms);
    var n := |sorted|;
    assert sorted[n - 1] in sorted;
    SortNoRepeats(log, terms);
    AnalyseTakesLast(u, log, terms, sorted);
    PreviousLevelSucceeds(u, log, terms, sorted);
    var an := Analyse(log, terms).value;
    PartialSatisfier(u, log, an.term);
    forall t | t in terms && t != an.term ensures SatAt(log, an.index, t) {
      assert Explained(t, Satisfier(log, t)) in sorted;
      var i :| 0 <= i < n && sorted[i] == Explained(t, Satisfier(log, t));
      assert i < n - 1;
      OthersAreEarlier(u, log, terms, t, an.term);
    }
  }

  // ---------- The level to return to ----------

  /** Cut back to level `l`, the log still implies everything that is needed besides `t`. */
  ghost predicate Supports(log: Log, terms: seq<Term>, t: Term, l: nat)
    requires SatAt(log, |log|, t)
  {
    var cut := Cut(log, l);
    forall x :: Needed(log, terms, t, x) ==> SatAt(cut, |cut|, x)
  }

  /** `t` is the term satisfied last, and `level` the lowest level that supports it. */
  ghost predicate Pivot(log: Log, terms: seq<Term>, t: Term, level: nat) {
    && t in terms && SatAt(log, |log|, t) && 1 <= level
    && (forall o :: o in terms && o != t ==> SatAt(log, Satisfier(log, t), o))
    && (forall l :: 1 <= l ==> (Supports(log, terms, t, l) <==> level <= l))
  }

  /** What the log implies after a cut is what it came to imply up to that level. */
  lemma SatAfterCut(u: Universe, log: Log, x: Term, l: nat)
    requires GoodLog(u, log) && GoodTerm(u, x) && SatAt(log, |log|, x) && 1 <= l
    ensures var cut := Cut(log, l); SatAt(cut, |cut|, x) <==> LevelOf(log, x) <= l
  {
    CutEndsBeforeDecision(u, log, l);
    var e, k := |Cut(log, l)|, Satisfier(log, x);
    assert log[..e][..e] == log[..e];
    TermAtPrefix(log, log[..e], e, SubjectOf(x));
    if k < e {
      LevelsRise(u, log, k, e - 1);
      SatStays(u, log, k + 1, e, x);
    } else {
      LevelsRise(u, log, e, k);
      assert !SatAt(log, e, x);
    }
  }

  /** The computed level is the lowest one at which everything else is still implied. */
  lemma LevelIsLowest(u: Universe, log: Log, terms: seq<Term>, an: Analysis)
    requires GoodLog(u, log) && GoodTerms(u, terms) && AnalysisOk(log, terms, an)
    ensures Pivot(log, terms, an.term, an.previousLevel)
  {
    assert GoodTerm(u, an.term);
    PartialSatisfier(u, log, an.term);
    forall l | 1 <= l ensures Supports(log, terms, an.term, l) <==> an.previousLevel <= l {
      forall x | Needed(log, terms, an.term, x)
        ensures var cut := Cut(log, l); SatAt(cut, |cut|, x) <==> LevelOf(log, x) <= l
      {
        SatAfterCut(u, log, x, l);
      }
    }
  }

  lemma LevelIsNotAbove(u: Universe, log: Log, terms: seq<Term>, an: Analysis)
    requires GoodLog(u, log) && GoodTerms(u, terms) && AnalysisOk(log, terms, an)
    ensures an.previousLevel <= log[an.index].level
    ensures log[an.index].cause.None? && an.index > 0 ==> an.previousLevel < log[an.index].level
  {
    var k := an.index;
    assert EntryOk(u, log, k);
    assert GoodTerm(u, an.term);
    PartialSatisfier(u, log, an.term);
    LevelsRise(u, log, k, k);
    if k > 0 { LevelsRise(u, log, k - 1, k - 1); }
    if an.previousLevel != 1 {
      var x :| Needed(log, terms, an.term, x) && LevelOf(log, x) == an.previousLevel;
      EarlierOrEqualLevel(u, log, x, k);
      LevelsRise(u, log, Satisfier(log, x), k - 1);
    }
  }

  // ---------- The whole analysis ----------

  /** Stuck covers the situations that a sound log rules out. */
  datatype Verdict =
    | Learned(level: nat, rootCause: Incompatibility)
    | Failed(failure: Incompatibility)
    | MergeError
    | Stuck

  /** The incompatibility that explains the most recent satisfier, or None when its terms exclude each other. */
  function Resolvent(log: Log, conflict: Incompatibility, an: Analysis): Option<Incompatibility>
    requires an.index < |log| && SubjectOf(log[an.index].term) == SubjectOf(an.term)
    requires log[an.index].cause.Some? && log[an.index].cause.value.IncompatibilityCause?
  {
    var a := log[an.index];
    var other := a.cause.value.incompatibility;
    match Merge(NewTerms(conflict.terms, other.terms, an.term, a.term))
    case None => None
    case Some(terms) => Some(Incompatibility(terms, ConflictCause(conflict, other, an.term, a.term)))
  }

  /** Rounds of conflict analysis; `bound` is above every satisfier still in play. */
  function Resolve(log: Log, conflict: Incompatibility, bound: nat): Verdict
    decreases bound
  {
    if IsFailure(conflict) then Failed(conflict)
    else
      match Analyse(log, conflict.terms)
      case None => Stuck
      case Some(an) =>
        var a := log[an.index];
        if an.index >= bound then Stuck
        else if a.cause.None? || an.previousLevel < a.level then Learned(an.previousLevel, conflict)
        else if !a.cause.value.IncompatibilityCause? then Stuck
        else
          match Resolvent(log, conflict, an)
          case None => MergeError
          case Some(next) => Resolve(log, next, an.index)
  }

  /** All terms that a round combines were satisfied before the satisfier it explains. */
  lemma NewTermsSatisfied(u: Universe, log: Log, conflict: seq<Term>, an: Analysis)
    requires GoodLog(u, log) && GoodTerms(u, conflict) && AnalysisOk(log, conflict, an)
    requires log[an.index].cause.Some?
    ensures var a := log[an.index];
            && a.cause.value.IncompatibilityCause?
            && var other := a.cause.value.incompatibility.terms;
               && SameSubject(a.term, an.term) && Inverse(a.term) in other
               && GoodTerms(u, NewTerms(conflict, other, an.term, a.term))
               && AllSatAt(log, an.index, NewTerms(conflict, other, an.term, a.term))
  {
    assert EntryOk(u, log, an.index);
    var a := log[an.index];
    var other := a.cause.value.incompatibility.terms;
    assert GoodTerm(u, an.term);
    NewTermsAreGood(u, conflict, other, an.term, a.term);
  }

  /** A log that satisfies all terms also satisfies them merged. */
  lemma MergedSatisfied(u: Universe, log: Log, i: nat, terms: seq<Term>)
    requires GoodLog(u, log) && i <= |log| && GoodTerms(u, terms) && AllSatAt(log, i, terms)
    requires Merge(terms).Some?
    ensures AllSatAt(log, i, Merge(terms).value)
  {
    var r := Merge(terms).value;
    forall m | m in r ensures SatAt(log, i, m) {
      var s := SubjectOf(m);
      MergeMeaning(u, terms, s);
      assert Mentions(r, s);
      var t :| t in terms && SubjectOf(t) == s;
      assert SatAt(log, i, t);
      var c := TermAt(log, i, s).value;
      forall p | p in Meaning(c) ensures p in Meaning(m) {
        forall x | x in terms && SubjectOf(x) == s ensures p in Meaning(x) { SatMeans(u, log, i, x); }
        assert Accepts(terms, s, p);
        assert Accepts(r, s, p);
      }
      SatMeans(u, log, i, m);
    }
  }

  /** A negative satisfier of a positive term rules out one version that was left beside another. */
  lemma LossyIsContested(u: Universe, log: Log, t: Term)
    requires GoodLog(u, log) && GoodTerm(u, t) && SatAt(log, |log|, t)
    requires var a := log[Satisfier(log, t)]; a.cause.Some? && Lossy(a.term, t)
    ensures Contested(t, log[Satisfier(log, t)].term)
  {
    var k, s := Satisfier(log, t), SubjectOf(t);
    var a := log[k].term;
    assert EntryOk(u, log, k);
    TermAtIsGood(u, log, k, s);
    var c, c' := TermAt(log, k, s).value, TermAt(log, k + 1, s).value;
    IntersectIsConjunction(c, a);
    SatMeans(u, log, k + 1, t);
    var p, q := AnyOf(Meaning(c')), AnyOutside(Meaning(c'), Meaning(c));
    MeaningMembers(t);
    InverseIsNegation(a);
    MeaningMembers(Inverse(a));
    assert p in Meaning(t) && q in Meaning(Inverse(a)) && p != q;
    assert p.version in Allowed(t) && q.version in Allowed(Inverse(a));
  }

  /** The new incompatibility is again a conflict, with earlier satisfiers. */
  lemma RoundKeepsConflict(u: Universe, log: Log, conflict: Incompatibility, an: Analysis)
    requires GoodLog(u, log) && Derivable(u, conflict) && AnalysisOk(log, conflict.terms, an)
    requires log[an.index].cause.Some?
    ensures log[an.index].cause.value.IncompatibilityCause?
    ensures var r := Resolvent(log, conflict, an);
            r.Some? ==> Derivable(u, r.value) && AllSatAt(log, an.index, r.value.terms)
  {
    assert EntryOk(u, log, an.index);
    var a := log[an.index];
    var other := a.cause.value.incompatibility;
    NewTermsSatisfied(u, log, conflict.terms, an);
    var left := NewTerms(conflict.terms, other.terms, an.term, a.term);
    if Merge(left).Some? {
      MergeMeaning(u, left, Root);
      MergedSatisfied(u, log, an.index, left);
      assert GoodTerm(u, an.term);
      if Lossy(a.term, an.term) { LossyIsContested(u, log, an.term); }
    }
  }

  /** The single term that becomes open when the log is cut back. */
  ghost predicate OneOpen(log: Log, terms: seq<Term>, open: Term) {
    && open in terms && !SatAt(log, |log|, open) && !ContraAt(log, |log|, open)
    && forall t :: t in terms && t != open ==> SatAt(log, |log|, t)
  }

  lemma CutOpensOneTerm(u: Universe, log: Log, terms: seq<Term>, an: Analysis)
    requires GoodLog(u, log) && GoodTerms(u, terms) && AnalysisOk(log, terms, an)
    requires an.previousLevel < log[an.index].level
    ensures GoodLog(u, Cut(log, an.previousLevel))
    ensures OneOpen(Cut(log, an.previousLevel), terms, an.term)
  {
    var level := an.previousLevel;
    CutEndsBeforeDecision(u, log, level);
    var e := |Cut(log, level)|;
    GoodPrefix(u, log, e);
    var cut := Cut(log, level);
    assert e <= an.index by {
      if an.index < e { LevelsRise(u, log, an.index, e - 1); }
    }
    forall t | t in terms && t != an.term ensures SatAt(cut, e, t) {
      assert Needed(log, terms, an.term, t);
      SatAfterCut(u, log, t, level);
    }
    TermAtPrefix(log, cut, e, SubjectOf(an.term));
    OpenBeforeSatisfier(u, log, an.term, e);
  }

  /** Before its satisfier a term is open: not yet implied, and not ruled out. */
  lemma OpenBeforeSatisfier(u: Universe, log: Log, t: Term, e: nat)
    requires GoodLog(u, log) && GoodTerm(u, t) && SatAt(log, |log|, t) && e <= Satisfier(log, t)
    ensures !SatAt(log, e, t) && !ContraAt(log, e, t)
  {
    var k, s := Satisfier(log, t), SubjectOf(t);
    if ContraAt(log, e, t) {
      RefutedMeans(u, log, e, t);
      RefutedStays(u, log, e, k + 1, t);
      RefutedMeans(u, log, k + 1, t);
      assert false;
    }
  }

  /** Only the root requirement is satisfied by the first assignment. */
  lemma FirstIsFailure(u: Universe, log: Log, conflict: Incompatibility, an: Analysis)
    requires GoodLog(u, log) && Derivable(u, conflict) && AnalysisOk(log, conflict.terms, an) && an.index == 0
    ensures IsFailure(conflict)
  {
    assert EntryOk(u, log, 0);
    assert GoodTerm(u, an.term);
    assert |conflict.terms| > 1 ==> conflict.terms[0] in conflict.terms && conflict.terms[1] in conflict.terms;
    forall t | t in conflict.terms ensures t == an.term {}
  }

  /** One round of the loop, given its analysis. */
  lemma ResolveUnfolds(log: Log, conflict: Incompatibility, bound: nat, an: Analysis)
    requires !IsFailure(conflict) && Analyse(log, conflict.terms) == Some(an) && an.index < bound
    requires log[an.index].cause.Some? ==> log[an.index].cause.value.IncompatibilityCause?
    ensures var a := log[an.index];
            Resolve(log, conflict, bound) ==
            if a.cause.None? || an.previousLevel < a.level then Learned(an.previousLevel, conflict)
            else match Resolvent(log, conflict, an)
                 case None => MergeError
                 case Some(next) => Resolve(log, next, an.index)
  {
  }

  /** On a sound log each round finds its analysis, and its satisfier lies below the bound. */
  lemma RoundIsAnalysed(u: Universe, log: Log, conflict: Incompatibility, bound: nat)
    requires GoodLog(u, log) && Derivable(u, conflict) && !IsFailure(conflict)
    requires bound <= |log| && AllSatAt(log, bound, conflict.terms)
    ensures AllSatAt(log, |log|, conflict.terms) && Analyse(log, conflict.terms).Some?
    ensures var an := Analyse(log, conflict.terms).value;
            AnalysisOk(log, conflict.terms, an) && 0 < an.index < bound
  {
    forall t | t in conflict.terms ensures SatAt(log, |log|, t) { SatStays(u, log, bound, |log|, t); }
    AnalyseSucceeds(u, log, conflict.terms);
    var an := Analyse(log, conflict.terms).value;
    if an.index == 0 { FirstIsFailure(u, log, conflict, an); }
  }

  /** One round of conflict analysis: learn, report exclusive terms, or go on with an earlier conflict. */
  lemma RoundUnfolds(u: Universe, log: Log, current: Incompatibility, bound: nat)
    requires GoodLog(u, log) && Derivable(u, current) && bound <= |log| && AllSatAt(log, bound, current.terms)
    requires !IsFailure(current)
    ensures AllSatAt(log, |log|, current.terms) && Analyse(log, current.terms).Some?
    ensures var an := Analyse(log, current.terms).value;
            var a := log[an.index];
            && an.index < bound && 1 <= an.previousLevel
            && if a.cause.None? || an.previousLevel < a.level
               then Resolve(log, current, bound) == Learned(an.previousLevel, current)
               else
                 && a.cause.value.IncompatibilityCause?
                 && match Resolvent(log, current, an)
                    case None => Resolve(log, current, bound) == MergeError
                    case Some(next) =>
                      && Resolve(log, current, bound) == Resolve(log, next, an.index)
                      && Derivable(u, next) && AllSatAt(log, an.index, next.terms)
  {
    RoundIsAnalysed(u, log, current, bound);
    var an := Analyse(log, current.terms).value;
    if log[an.index].cause.Some? { RoundKeepsConflict(u, log, current, an); }
    ResolveUnfolds(log, current, bound, an);
  }

  /** The level is the lowest that supports the term satisfied last, and lies below the level of its satisfier. */
  ghost predicate Asserts(log: Log, terms: seq<Term>, level: nat) {
    exists t :: Pivot(log, terms, t, level) && level < LevelOf(log, t)
  }

  ghost predicate VerdictOk(u: Universe, log: Log, v: Verdict) {
    match v
    case Learned(level, rootCause) =>
      && 1 <= level < Level(log)
      && Derivable(u, rootCause)
      && GoodLog(u, Cut(log, level))
      && (exists open :: OneOpen(Cut(log, level), rootCause.terms, open))
      && Asserts(log, rootCause.terms, level)
    case Failed(failure) => Derivable(u, failure) && IsFailure(failure)
    case MergeError => true
    case Stuck => false
  }

  lemma LearnedIsOk(u: Universe, log: Log, conflict: Incompatibility, bound: nat)
    requires GoodLog(u, log) && Derivable(u, conflict) && !IsFailure(conflict)
    requires bound <= |log| && AllSatAt(log, bound, conflict.terms)
    requires var an := Analyse(log, conflict.terms);
             an.Some? && (log[an.value.index].cause.None? || an.value.previousLevel < log[an.value.index].level)
    ensures VerdictOk(u, log, Learned(Analyse(log, conflict.terms).value.previousLevel, conflict))
  {
    RoundIsAnalysed(u, log, conflict, bound);
    var an := Analyse(log, conflict.terms).value;
    LevelIsNotAbove(u, log, conflict.terms, an);
    LevelIsLowest(u, log, conflict.terms, an);
    LevelsRise(u, log, an.index, |log| - 1);
    CutOpensOneTerm(u, log, conflict.terms, an);
  }

  /**
   * Conflict analysis always comes to a verdict. It either fails with a derived incompatibility,
   * or names a lower level at which exactly one term of the root cause is open.
   */
  lemma {:induction false} ResolveOk(u: Universe, log: Log, conflict: Incompatibility, bound: nat)
    requires GoodLog(u, log) && Derivable(u, conflict)
    requires bound <= |log| && AllSatAt(log, bound, conflict.terms)
    ensures VerdictOk(u, log, Resolve(log, conflict, bound))
    decreases bound
  {
    if !IsFailure(conflict) {
      RoundUnfolds(u, log, conflict, bound);
      var an := Analyse(log, conflict.terms).value;
      var a := log[an.index];
      if a.cause.None? || an.previousLevel < a.level {
        LearnedIsOk(u, log, conflict, bound);
      } else {
        var r := Resolvent(log, conflict, an);
        if r.Some? { ResolveOk(u, log, r.value, an.index); }
      }
    }
  }
}
