/** The assignment log of a partial solution: what it says about each package, and what keeps it sound. */
module Logs {
  import opened Terms
  import opened Universes
  import opened Resolution

  /** A decision has no cause; a derivation names the incompatibility it came from. */
  datatype Assignment = Assignment(term: Term, level: nat, index: nat, cause: Option<Cause>)

  type Log = seq<Assignment>

  /** The intersection of the first `i` assignments as far as they are about `s`. */
  function TermAt(log: Log, i: nat, s: Subject): (r: Option<Term>)
    requires i <= |log|
    ensures r.Some? ==> SubjectOf(r.value) == s
  {
    if i == 0 then None
    else
      var before := TermAt(log, i - 1, s);
      var t := log[i - 1].term;
      if SubjectOf(t) != s then before
      else if before.None? then Some(t)
      else Intersect(before.value, t)
  }

  predicate SatAt(log: Log, i: nat, t: Term)
    requires i <= |log|
  {
    var c := TermAt(log, i, SubjectOf(t));
    c.Some? && Satisfies(c.value, t)
  }

  predicate ContraAt(log: Log, i: nat, t: Term)
    requires i <= |log|
  {
    var c := TermAt(log, i, SubjectOf(t));
    c.Some? && Intersect(c.value, t).None?
  }

  predicate AllSatAt(log: Log, i: nat, terms: seq<Term>)
    requires i <= |log|
  {
    forall t :: t in terms ==> SatAt(log, i, t)
  }

  function DecisionsAt(log: Log, i: nat): map<Subject, Term>
    requires i <= |log|
  {
    if i == 0 then map[]
    else
      var before := DecisionsAt(log, i - 1);
      var a := log[i - 1];
      if a.cause.None? then before[SubjectOf(a.term) := a.term] else before
  }

  function Level(log: Log): nat {
    if log == [] then 0 else log[|log| - 1].level
  }

  /** Drops assignments from the end while they are above `level`. */
  function Cut(log: Log, level: nat): Log {
    if log != [] && log[|log| - 1].level > level then Cut(log[..|log| - 1], level) else log
  }

  function Subjects(u: Universe): set<Subject> {
    {Root} + set n | n in u.names :: Package(n)
  }

  // ---------- Sound logs ----------

  ghost predicate DecidedVersion(u: Universe, t: Term) {
    t.VersionConstraint? && t.positive && exists v :: v in Usable(u, t.name) && t.versions == {v}
  }

  ghost predicate DecisionOk(u: Universe, log: Log, i: nat)
    requires i < |log|
  {
    var a := log[i];
    var s := SubjectOf(a.term);
    if i == 0 then a.level == 1 && a.term == RootConstraint(true)
    else
      && a.level == log[i - 1].level + 1
      && DecidedVersion(u, a.term)
      && s !in DecisionsAt(log, i)
      && TermAt(log, i, s).Some? && Meaning(a.term) <= Meaning(TermAt(log, i, s).value)
  }

  /** The reason of a derivation: one term inverted, all others satisfied strictly earlier. */
  ghost predicate ReasonOk(u: Universe, log: Log, i: nat, reason: Incompatibility)
    requires i < |log|
  {
    && Derivable(u, reason)
    && Inverse(log[i].term) in reason.terms
    && forall t :: t in reason.terms && SubjectOf(t) != SubjectOf(log[i].term) ==> SatAt(log, i, t)
  }

  /** A derivation narrows what was known, but never to nothing. */
  ghost predicate Narrows(log: Log, i: nat)
    requires i < |log|
  {
    var s := SubjectOf(log[i].term);
    TermAt(log, i, s).Some? && TermAt(log, i + 1, s).Some? ==>
      {} < Meaning(TermAt(log, i + 1, s).value) < Meaning(TermAt(log, i, s).value)
  }

  ghost predicate DerivationOk(u: Universe, log: Log, i: nat)
    requires i < |log|
  {
    var a := log[i];
    && i > 0
    && a.level == log[i - 1].level
    && a.cause.Some? && a.cause.value.IncompatibilityCause?
    && ReasonOk(u, log, i, a.cause.value.incompatibility)
    && Narrows(log, i)
  }

  ghost predicate EntryOk(u: Universe, log: Log, i: nat)
    requires i < |log|
  {
    var a := log[i];
    && a.index == i
    && GoodTerm(u, a.term)
    && (i == 0 <==> SubjectOf(a.term) == Root)
    && TermAt(log, i + 1, SubjectOf(a.term)).Some?
    && if a.cause.None? then DecisionOk(u, log, i) else DerivationOk(u, log, i)
  }

  ghost predicate GoodLog(u: Universe, log: Log) {
    && log != [] && log[0].cause.None?
    && forall i :: 0 <= i < |log| ==> EntryOk(u, log, i)
  }

  // ---------- A prefix of the log determines everything up to it ----------

  lemma TermAtPrefix(log: Log, other: Log, i: nat, s: Subject)
    requires i <= |log| && i <= |other| && log[..i] == other[..i]
    ensures TermAt(log, i, s) == TermAt(other, i, s)
  {
    if i == 0 {
    } else {
      assert log[..i - 1] == log[..i][..i - 1] == other[..i - 1];
      assert log[i - 1] == log[..i][i - 1] == other[i - 1];
      TermAtPrefix(log, other, i - 1, s);
    }
  }

  lemma DecisionsAtPrefix(log: Log, other: Log, i: nat)
    requires i <= |log| && i <= |other| && log[..i] == other[..i]
    ensures DecisionsAt(log, i) == DecisionsAt(other, i)
  {
    if i == 0 {
    } else {
      assert log[..i - 1] == log[..i][..i - 1] == other[..i - 1];
      assert log[i - 1] == log[..i][i - 1] == other[i - 1];
      DecisionsAtPrefix(log, other, i - 1);
    }
  }

  lemma EntryOkPrefix(u: Universe, log: Log, other: Log, i: nat)
    requires i < |log| && i < |other| && log[..i + 1] == other[..i + 1]
    requires EntryOk(u, log, i)
    ensures EntryOk(u, other, i)
  {
    assert log[..i] == log[..i + 1][..i] == other[..i];
    assert log[i] == log[..i + 1][i] == other[i];
    if i > 0 { assert log[i - 1] == log[..i][i - 1] == other[i - 1]; }
    var s := SubjectOf(log[i].term);
    TermAtPrefix(log, other, i, s);
    TermAtPrefix(log, other, i + 1, s);
    DecisionsAtPrefix(log, other, i);
    if log[i].cause.Some? {
      var reason := log[i].cause.value.incompatibility;
      forall t | t in reason.terms && SubjectOf(t) != s ensures SatAt(other, i, t) {
        TermAtPrefix(log, other, i, SubjectOf(t));
      }
    }
  }

  lemma GoodPrefix(u: Universe, log: Log, e: nat)
    requires GoodLog(u, log) && 0 < e <= |log|
    ensures GoodLog(u, log[..e])
  {
    forall i | 0 <= i < e ensures EntryOk(u, log[..e], i) {
      assert log[..e][..i + 1] == log[..i + 1];
      EntryOkPrefix(u, log, log[..e], i);
    }
  }

  lemma GoodExtension(u: Universe, log: Log, a: Assignment)
    requires GoodLog(u, log) && EntryOk(u, log + [a], |log|)
    ensures GoodLog(u, log + [a])
  {
    forall i | 0 <= i < |log| ensures EntryOk(u, log + [a], i) {
      assert (log + [a])[..i + 1] == log[..i + 1];
      EntryOkPrefix(u, log, log + [a], i);
    }
  }

  // ---------- Terms along a sound log ----------

  lemma RootStays(u: Universe, log: Log, i: nat)
    requires GoodLog(u, log) && 0 < i <= |log|
    ensures TermAt(log, i, Root) == Some(RootConstraint(true))
  {
    assert EntryOk(u, log, i - 1);
    if i <= 1 {
    } else {
      RootStays(u, log, i - 1);
    }
  }

  lemma TermAtIsGood(u: Universe, log: Log, i: nat, s: Subject)
    requires GoodLog(u, log) && i <= |log|
    ensures TermAt(log, i, s).Some? ==> GoodTerm(u, TermAt(log, i, s).value)
  {
    if i == 0 {
    } else {
      assert EntryOk(u, log, i - 1);
      TermAtIsGood(u, log, i - 1, s);
    }
  }

  lemma NarrowsStep(u: Universe, log: Log, i: nat, s: Subject)
    requires GoodLog(u, log) && i < |log|
    requires TermAt(log, i, s).Some?
    ensures TermAt(log, i + 1, s).Some?
    ensures Meaning(TermAt(log, i + 1, s).value) <= Meaning(TermAt(log, i, s).value)
    ensures Meaning(TermAt(log, i, s).value) != {} ==> Meaning(TermAt(log, i + 1, s).value) != {}
  {
    assert EntryOk(u, log, i);
    if SubjectOf(log[i].term) == s {
      var c := TermAt(log, i, s).value;
      TermAtIsGood(u, log, i, s);
      IntersectIsConjunction(c, log[i].term);
      if log[i].cause.None? && i > 0 {
        var v :| v in Usable(u, log[i].term.name) && log[i].term.versions == {v};
        assert At(v) in Meaning(log[i].term);
      }
    }
  }

  /** Once something is known about a package, later assignments only narrow it. */
  lemma {:induction false} TermsNarrow(u: Universe, log: Log, i: nat, j: nat, s: Subject)
    requires GoodLog(u, log) && i <= j <= |log|
    requires TermAt(log, i, s).Some?
    ensures TermAt(log, j, s).Some?
    ensures Meaning(TermAt(log, j, s).value) <= Meaning(TermAt(log, i, s).value)
    ensures Meaning(TermAt(log, i, s).value) != {} ==> Meaning(TermAt(log, j, s).value) != {}
    decreases j - i
  {
    if j <= i {
    } else {
      NarrowsStep(u, log, i, s);
      TermsNarrow(u, log, i + 1, j, s);
    }
  }

  lemma SatMeans(u: Universe, log: Log, i: nat, t: Term)
    requires GoodLog(u, log) && i <= |log| && GoodTerm(u, t)
    ensures var c := TermAt(log, i, SubjectOf(t));
            SatAt(log, i, t) <==> c.Some? && Meaning(c.value) <= Meaning(t)
  {
    var c := TermAt(log, i, SubjectOf(t));
    TermAtIsGood(u, log, i, SubjectOf(t));
    if c.Some? { SatisfiesIsImplication(c.value, t); }
  }

  /** The log rules the term out. */
  ghost predicate Refuted(log: Log, i: nat, t: Term)
    requires i <= |log|
  {
    var c := TermAt(log, i, SubjectOf(t));
    c.Some? && Meaning(c.value) != {} && Meaning(c.value) * Meaning(t) == {}
  }

  /** The log leaves nothing that the term would allow. */
  ghost predicate Excluded(log: Log, i: nat, t: Term)
    requires i <= |log|
  {
    var c := TermAt(log, i, SubjectOf(t));
    c.Some? && Meaning(c.value) * Meaning(t) == {}
  }

  lemma RefutedMeans(u: Universe, log: Log, i: nat, t: Term)
    requires GoodLog(u, log) && i <= |log| && GoodTerm(u, t)
    ensures Refuted(log, i, t) <==> ContraAt(log, i, t) && !SatAt(log, i, t)
  {
    var c := TermAt(log, i, SubjectOf(t));
    TermAtIsGood(u, log, i, SubjectOf(t));
    if c.Some? {
      SatisfiesIsImplication(c.value, t);
      IntersectIsConjunction(c.value, t);
      if BothExcludeNothing(c.value, t) { assert Satisfies(c.value, t); }
    }
  }

  lemma SatStays(u: Universe, log: Log, i: nat, j: nat, t: Term)
    requires GoodLog(u, log) && i <= j <= |log| && GoodTerm(u, t) && SatAt(log, i, t)
    ensures SatAt(log, j, t)
  {
    TermsNarrow(u, log, i, j, SubjectOf(t));
    SatMeans(u, log, i, t);
    SatMeans(u, log, j, t);
  }

  lemma RefutedStays(u: Universe, log: Log, i: nat, j: nat, t: Term)
    requires GoodLog(u, log) && i <= j <= |log| && Refuted(log, i, t)
    ensures Refuted(log, j, t)
  {
    TermsNarrow(u, log, i, j, SubjectOf(t));
  }

  lemma ExcludedStays(u: Universe, log: Log, i: nat, j: nat, t: Term)
    requires GoodLog(u, log) && i <= j <= |log| && Excluded(log, i, t)
    ensures Excluded(log, j, t)
  {
    TermsNarrow(u, log, i, j, SubjectOf(t));
  }

  // ---------- Levels and decisions ----------

  lemma {:induction false} LevelsRise(u: Universe, log: Log, i: nat, j: nat)
    requires GoodLog(u, log) && i <= j < |log|
    ensures 1 <= log[i].level <= log[j].level
    decreases j
  {
    assert EntryOk(u, log, j);
    if i < j { LevelsRise(u, log, i, j - 1); }
    else if j > 0 { LevelsRise(u, log, j - 1, j - 1); }
  }

  /** The k-th decision has level k, so the level counts the decided subjects. */
  lemma {:induction false} DecisionCount(u: Universe, log: Log, i: nat)
    requires GoodLog(u, log) && 0 < i <= |log|
    ensures |DecisionsAt(log, i)| == log[i - 1].level
    ensures DecisionsAt(log, i).Keys <= Subjects(u)
  {
    assert EntryOk(u, log, i - 1);
    if i > 1 { DecisionCount(u, log, i - 1); } else { assert DecisionsAt(log, 0) == map[]; }
  }

  lemma LevelBound(u: Universe, log: Log)
    requires GoodLog(u, log)
    ensures 1 <= Level(log) <= |Subjects(u)|
  {
    var n := |log|;
    LevelsRise(u, log, n - 1, n - 1);
    DecisionCount(u, log, n);
    var decided := DecisionsAt(log, n);
    assert |decided| == |decided.Keys|;
    SubsetSize(decided.Keys, Subjects(u));
  }

  lemma SubsetSize<T>(a: set<T>, b: set<T>)
    requires a <= b
    ensures |a| <= |b|
    ensures a < b ==> |a| < |b|
  {
    assert b == a + (b - a);
  }

  /** After a decision the package's term is that version, whatever follows. */
  lemma {:induction false} DecisionStays(u: Universe, log: Log, d: nat, j: nat)
    requires GoodLog(u, log) && d < j <= |log| && log[d].cause.None?
    ensures var s := SubjectOf(log[d].term);
            && TermAt(log, j, s).Some? && Meaning(TermAt(log, j, s).value) == Meaning(log[d].term)
    decreases j
  {
    var s := SubjectOf(log[d].term);
    assert EntryOk(u, log, d);
    if j == d + 1 {
      if d > 0 {
        TermAtIsGood(u, log, d, s);
        IntersectIsConjunction(TermAt(log, d, s).value, log[d].term);
      }
    } else {
      DecisionStays(u, log, d, j - 1);
      assert EntryOk(u, log, j - 1);
      NarrowsStep(u, log, j - 1, s);
      DecisionMeaning(u, log, d);
      assert Meaning(TermAt(log, j, s).value) != {};
    }
  }

  lemma DecisionMeaning(u: Universe, log: Log, d: nat)
    requires GoodLog(u, log) && d < |log| && log[d].cause.None?
    ensures exists p :: Meaning(log[d].term) == {p}
  {
    assert EntryOk(u, log, d);
    MeaningMembers(log[d].term);
    if d == 0 {
      assert Meaning(log[d].term) == {At(0)};
    } else {
      var v :| v in Usable(u, log[d].term.name) && log[d].term.versions == {v};
      assert Meaning(log[d].term) == {At(v)};
    }
  }

  /** A decided package receives no later assignment. */
  lemma DecidedIsFinal(u: Universe, log: Log, d: nat, j: nat)
    requires GoodLog(u, log) && d < j < |log| && log[d].cause.None?
    ensures SubjectOf(log[j].term) != SubjectOf(log[d].term)
  {
    var s := SubjectOf(log[d].term);
    assert EntryOk(u, log, j);
    if SubjectOf(log[j].term) == s {
      DecisionsRemember(log, d, j);
      DecisionStays(u, log, d, j);
      DecisionMeaning(u, log, d);
      assert false;
    }
  }

  lemma {:induction false} DecisionsRemember(log: Log, d: nat, j: nat)
    requires d < j <= |log| && log[d].cause.None?
    ensures SubjectOf(log[d].term) in DecisionsAt(log, j)
    decreases j
  {
    if d + 1 < j { DecisionsRemember(log, d, j - 1); }
  }

  /** Every remembered decision is in the log. */
  lemma {:induction false} DecisionWitness(log: Log, j: nat, s: Subject) returns (d: nat)
    requires j <= |log| && s in DecisionsAt(log, j)
    ensures d < j && log[d].cause.None? && SubjectOf(log[d].term) == s && DecisionsAt(log, j)[s] == log[d].term
  {
    if log[j - 1].cause.None? && SubjectOf(log[j - 1].term) == s { d := j - 1; }
    else { d := DecisionWitness(log, j - 1, s); }
  }

  // ---------- Backtracking ----------

  /** Cutting back to an earlier level ends just before the next decision. */
  lemma {:induction false} CutEndsBeforeDecision(u: Universe, log: Log, level: nat)
    requires GoodLog(u, log) && 1 <= level
    ensures var e := |Cut(log, level)|;
            && 0 < e <= |log| && Cut(log, level) == log[..e] && log[e - 1].level <= level
            && (e < |log| ==> log[e].level > level)
            && (level <= Level(log) ==> log[e - 1].level == level)
            && (level < Level(log) ==> e < |log| && log[e].cause.None?)
    decreases |log|
  {
    var n := |log|;
    assert EntryOk(u, log, n - 1);
    if log[n - 1].level > level {
      assert n > 1;
      GoodPrefix(u, log, n - 1);
      CutEndsBeforeDecision(u, log[..n - 1], level);
      var e := |Cut(log, level)|;
      assert log[..n - 1][..e] == log[..e];
      assert Level(log[..n - 1]) == log[n - 2].level;
    } else {
      assert log[..n] == log;
    }
  }

  /** Cutting back to a level keeps exactly the decisions up to that level, one for each level. */
  lemma CutKeepsFirstDecisions(u: Universe, log: Log, level: nat)
    requires GoodLog(u, log) && 1 <= level <= Level(log)
    ensures var cut := Cut(log, level);
            && |DecisionsAt(cut, |cut|)| == Level(cut) == level
            && forall d :: 0 <= d < |log| && log[d].cause.None? ==> (d < |cut| <==> log[d].level <= level)
  {
    CutEndsBeforeDecision(u, log, level);
    var cut := Cut(log, level);
    var e := |cut|;
    GoodPrefix(u, log, e);
    DecisionCount(u, cut, e);
    forall d | 0 <= d < |log| && log[d].cause.None? ensures d < e <==> log[d].level <= level {
      if d < e { LevelsRise(u, log, d, e - 1); } else { LevelsRise(u, log, e, d); }
    }
  }
}
