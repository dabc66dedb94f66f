/** Solving ends: a measure on states that every step lowers. */
module Termination {
  import opened Terms
  import opened Universes
  import opened Resolution
  import opened Logs
  import opened Conflicts
  import opened Machine
  import opened Invariants

  // ---------- What is still possible ----------

  function DomainOf(u: Universe, s: Subject): set<Pick> {
    {Absent} + match s case Root => {At(0)} case Package(n) => set v | v in AllVersions(u, n) :: At(v)
  }

  /** The picks left for a subject; one extra while nothing has been said about it. */
  function Left(u: Universe, log: Log, i: nat, s: Subject): set<Option<Pick>>
    requires i <= |log|
  {
    match TermAt(log, i, s)
    case None => {None} + set p | p in DomainOf(u, s) :: Some(p)
    case Some(c) => set p | p in Meaning(c) :: Some(p)
  }

  function Possible(u: Universe, log: Log, i: nat): set<(Subject, Option<Pick>)>
    requires i <= |log|
  {
    set s, x | s in Subjects(u) && x in Left(u, log, i, s) :: (s, x)
  }

  lemma LeftShrinks(u: Universe, log: Log, i: nat, s: Subject)
    requires GoodLog(u, log) && i < |log|
    ensures Left(u, log, i + 1, s) <= Left(u, log, i, s)
    ensures log[i].cause.Some? && SubjectOf(log[i].term) == s ==> Left(u, log, i + 1, s) < Left(u, log, i, s)
  {
    assert EntryOk(u, log, i);
    TermAtIsGood(u, log, i, s);
    if TermAt(log, i, s).Some? {
      NarrowsStep(u, log, i, s);
      if log[i].cause.Some? && SubjectOf(log[i].term) == s {
        var c, c' := TermAt(log, i, s).value, TermAt(log, i + 1, s).value;
        assert Meaning(c') < Meaning(c);
        var p := AnyOutside(Meaning(c'), Meaning(c));
        assert Some(p) in Left(u, log, i, s) && Some(p) !in Left(u, log, i + 1, s);
      }
    } else if SubjectOf(log[i].term) == s {
      var t := log[i].term;
      assert TermAt(log, i + 1, s) == Some(t);
      assert Domain(t) == DomainOf(u, s);
      assert None in Left(u, log, i, s) && None !in Left(u, log, i + 1, s);
    }
  }

  lemma PossibleShrinks(u: Universe, log: Log, i: nat)
    requires GoodLog(u, log) && i < |log|
    ensures |Possible(u, log, i + 1)| <= |Possible(u, log, i)|
    ensures log[i].cause.Some? ==> |Possible(u, log, i + 1)| < |Possible(u, log, i)|
  {
    var a, b := Possible(u, log, i + 1), Possible(u, log, i);
    forall s, x | (s, x) in a ensures (s, x) in b { LeftShrinks(u, log, i, s); }
    if log[i].cause.Some? {
      var s := SubjectOf(log[i].term);
      assert EntryOk(u, log, i);
      LeftShrinks(u, log, i, s);
      var x := AnyOutside(Left(u, log, i + 1, s), Left(u, log, i, s));
      assert (s, x) in b && (s, x) !in a;
    }
    SubsetSize(a, b);
  }

  function Ceiling(u: Universe): nat {
    |Possible(u, [], 0)|
  }

  lemma {:induction false} PossibleBelowCeiling(u: Universe, log: Log, i: nat)
    requires GoodLog(u, log) && i <= |log|
    ensures |Possible(u, log, i)| <= Ceiling(u)
  {
    if i == 0 {
      assert Possible(u, log, 0) == Possible(u, [], 0);
    } else {
      PossibleBelowCeiling(u, log, i - 1);
      PossibleShrinks(u, log, i - 1);
    }
  }

  lemma PossiblePrefix(u: Universe, log: Log, other: Log, i: nat)
    requires i <= |log| && i <= |other| && log[..i] == other[..i]
    ensures Possible(u, log, i) == Possible(u, other, i)
  {
    forall s ensures Left(u, log, i, s) == Left(u, other, i, s) { TermAtPrefix(log, other, i, s); }
  }

  // ---------- Numbers written in a base ----------

  function Number(digits: seq<nat>, base: nat): nat {
    if digits == [] then 0
    else Number(digits[..|digits| - 1], base) * base + digits[|digits| - 1]
  }

  /** The first digit that differs decides. */
  lemma {:induction false} FirstDifferenceDecides(a: seq<nat>, b: seq<nat>, k: nat, base: nat)
    requires |a| == |b| && k < |a| && a[..k] == b[..k] && a[k] < b[k]
    requires forall i :: 0 <= i < |a| ==> a[i] < base
    ensures Number(a, base) < Number(b, base)
    decreases |a|
  {
    var l := |a| - 1;
    if k == l {
      assert a[..l] == b[..l];
    } else {
      assert a[..l][..k] == a[..k] && b[..l][..k] == b[..k];
      FirstDifferenceDecides(a[..l], b[..l], k, base);
      HigherDigitWins(Number(a[..l], base), Number(b[..l], base), a[l], base);
    }
  }

  lemma {:induction false} HigherDigitWins(x: nat, y: nat, digit: nat, base: nat)
    requires x < y && digit < base
    ensures x * base + digit < y * base
  {
    assert y * base == (y - 1) * base + base;
    if x + 1 < y { HigherDigitWins(x, y - 1, digit, base); }
  }

  // ---------- The rank of a log ----------

  /** What was possible at the end of level `k`; levels not reached yet count most. */
  function Weight(u: Universe, log: Log, k: nat): nat {
    if k <= Level(log) && |Cut(log, k)| <= |log| then |Possible(u, log, |Cut(log, k)|)| else Ceiling(u) + 1
  }

  function Digits(u: Universe, log: Log): seq<nat> {
    seq(|Subjects(u)|, k requires 0 <= k < |Subjects(u)| => Weight(u, log, k + 1))
  }

  function Rank(u: Universe, log: Log): nat {
    Number(Digits(u, log), Ceiling(u) + 2)
  }

  lemma {:induction false} CutIsPrefix(log: Log, k: nat)
    ensures |Cut(log, k)| <= |log| && Cut(log, k) == log[..|Cut(log, k)|]
    decreases |log|
  {
    if log != [] && log[|log| - 1].level > k {
      CutIsPrefix(log[..|log| - 1], k);
      var e := |Cut(log, k)|;
      assert log[..|log| - 1][..e] == log[..e];
    } else {
      assert log[..|log|] == log;
    }
  }

  /** Cutting to a higher level first makes no difference. */
  lemma {:induction false} CutTwice(log: Log, k: nat, m: nat)
    requires k <= m
    ensures Cut(Cut(log, m), k) == Cut(log, k)
    decreases |log|
  {
    if log != [] && log[|log| - 1].level > m { CutTwice(log[..|log| - 1], k, m); }
  }

  lemma WeightBound(u: Universe, log: Log, k: nat)
    requires GoodLog(u, log)
    ensures Weight(u, log, k) < Ceiling(u) + 2
  {
    CutIsPrefix(log, k);
    PossibleBelowCeiling(u, log, |Cut(log, k)|);
  }

  /** Logs compare by the first level at which they leave different possibilities. */
  lemma RankLess(u: Universe, a: Log, b: Log, k: nat)
    requires GoodLog(u, a) && 1 <= k <= |Subjects(u)|
    requires forall j :: 1 <= j < k ==> Weight(u, a, j) == Weight(u, b, j)
    requires Weight(u, a, k) < Weight(u, b, k)
    ensures Rank(u, a) < Rank(u, b)
  {
    var x, y := Digits(u, a), Digits(u, b);
    assert x[..k - 1] == y[..k - 1];
    forall i | 0 <= i < |x| ensures x[i] < Ceiling(u) + 2 { WeightBound(u, a, i + 1); }
    FirstDifferenceDecides(x, y, k - 1, Ceiling(u) + 2);
  }

  /** Levels below the new assignment's keep their weight. */
  lemma WeightBelow(u: Universe, log: Log, a: Assignment, k: nat)
    requires log != [] && k < a.level && k <= Level(log)
    ensures Weight(u, log + [a], k) == Weight(u, log, k)
  {
    var next := log + [a];
    assert next[..|next| - 1] == log;
    assert Cut(next, k) == Cut(log, k);
    CutIsPrefix(log, k);
    var e := |Cut(log, k)|;
    assert next[..e] == log[..e];
    PossiblePrefix(u, log, next, e);
  }

  lemma WeightAfterCut(u: Universe, log: Log, level: nat, k: nat)
    requires GoodLog(u, log) && 1 <= k <= level <= Level(log)
    ensures Weight(u, Cut(log, level), k) == Weight(u, log, k)
  {
    CutEndsBeforeDecision(u, log, level);
    var cut := Cut(log, level);
    CutTwice(log, k, level);
    CutIsPrefix(cut, k);
    var e := |Cut(log, k)|;
    assert cut[..e] == log[..e];
    PossiblePrefix(u, cut, log, e);
  }

  lemma DeriveLowersWeight(u: Universe, log: Log, a: Assignment)
    requires log != [] && GoodLog(u, log + [a]) && a.cause.Some?
    ensures a.level == Level(log)
    ensures Weight(u, log + [a], Level(log)) < Weight(u, log, Level(log))
  {
    var next := log + [a];
    var n := |log|;
    assert EntryOk(u, next, n);
    assert next[n - 1] == log[n - 1];
    assert next[..n] == log == log[..n];
    PossiblePrefix(u, log, next, n);
    PossibleShrinks(u, next, n);
  }

  lemma DeriveLowersRank(u: Universe, log: Log, a: Assignment)
    requires GoodLog(u, log) && GoodLog(u, log + [a]) && a.cause.Some?
    ensures Rank(u, log + [a]) < Rank(u, log)
  {
    DeriveLowersWeight(u, log, a);
    LevelBound(u, log);
    forall j | 1 <= j < Level(log) ensures Weight(u, log + [a], j) == Weight(u, log, j) { WeightBelow(u, log, a, j); }
    RankLess(u, log + [a], log, Level(log));
  }

  lemma DecideLowersRank(u: Universe, log: Log, a: Assignment)
    requires GoodLog(u, log) && GoodLog(u, log + [a]) && a.cause.None?
    ensures Rank(u, log + [a]) < Rank(u, log)
  {
    var next := log + [a];
    assert EntryOk(u, next, |log|);
    assert next[|log| - 1] == log[|log| - 1];
    assert a.level == Level(log) + 1;
    LevelBound(u, next);
    forall j | 1 <= j < a.level ensures Weight(u, next, j) == Weight(u, log, j) { WeightBelow(u, log, a, j); }
    PossibleBelowCeiling(u, next, |next|);
    RankLess(u, next, log, a.level);
  }

  /** Going back and deriving what the root cause says lowers the rank, although levels are lost. */
  lemma BacktrackLowersRank(u: Universe, log: Log, level: nat, a: Assignment)
    requires GoodLog(u, log) && 1 <= level < Level(log)
    requires GoodLog(u, Cut(log, level)) && GoodLog(u, Cut(log, level) + [a]) && a.cause.Some?
    ensures Rank(u, Cut(log, level) + [a]) < Rank(u, log)
  {
    var cut := Cut(log, level);
    CutEndsBeforeDecision(u, log, level);
    assert Level(cut) == level;
    DeriveLowersWeight(u, cut, a);
    LevelBound(u, cut);
    forall j | 1 <= j <= level ensures Weight(u, cut, j) == Weight(u, log, j) { WeightAfterCut(u, log, level, j); }
    forall j | 1 <= j < level ensures Weight(u, cut + [a], j) == Weight(u, log, j) { WeightBelow(u, cut, a, j); }
    RankLess(u, cut + [a], log, level);
  }

  // ---------- The measure of a state ----------

  datatype Measure = Measure(rank: nat, unlisted: nat, calm: nat, scanning: nat, queue: nat, ahead: nat)

  predicate Below(a: Measure, b: Measure) {
    || a.rank < b.rank
    || (a.rank == b.rank && a.unlisted < b.unlisted)
    || (a.rank == b.rank && a.unlisted == b.unlisted && a.calm < b.calm)
    || (a.rank == b.rank && a.unlisted == b.unlisted && a.calm == b.calm && a.scanning < b.scanning)
    || (a.rank == b.rank && a.unlisted == b.unlisted && a.calm == b.calm && a.scanning == b.scanning && a.queue < b.queue)
    || (a.rank == b.rank && a.unlisted == b.unlisted && a.calm == b.calm && a.scanning == b.scanning
        && a.queue == b.queue && a.ahead < b.ahead)
  }

  function Unlisted(u: Universe, listed: set<PackageVersion>): set<PackageVersion> {
    (set n, v | n in u.names && v in Usable(u, n) :: Release(n, v)) - listed
  }

  predicate ConflictAhead(log: Log, ahead: seq<Incompatibility>) {
    exists i :: i in ahead && AllSatAt(log, |log|, i.terms)
  }

  function MeasureOf(u: Universe, st: State): Measure {
    Measure(Rank(u, st.log),
            |Unlisted(u, st.listed)|,
            if st.phase.Scan? && ConflictAhead(st.log, Ahead(st)) then 0 else 1,
            if st.phase.Scan? then 1 else 0,
            |st.queue|,
            if st.phase.Scan? then |Ahead(st)| else 0)
  }

  lemma ExamineDecreases(u: Universe, st: State)
    requires Inv(u, st) && st.phase.Scan? && st.phase.next < |ListOf(st.store, st.phase.item)|
    ensures Final(Step(u, st)) || Below(MeasureOf(u, Step(u, st)), MeasureOf(u, st))
  {
    var item, next := st.phase.item, st.phase.next;
    var list := ListOf(st.store, item);
    var i := list[next];
    var st' := Step(u, st);
    assert i in ListFor(st.store, item.subject);
    assert Stored(u, i);
    ExamineInv(u, st);
    OnlyDerivablePropagate(u, st.log, i);
    match Propagate(st.log, i)
    case Quiet =>
      assert Ahead(st) == [i] + Ahead(st') by { assert list[|list|..] == []; }
      assert forall x :: x in Ahead(st) <==> x == i || x in Ahead(st');
    case Derived(open) =>
      DeriveLowersRank(u, st.log, st'.log[|st.log|]);
    case Conflict =>
      PropagateOutcome(st.log, i);
      ResolveOk(u, st.log, i, |st.log|);
      if Resolve(st.log, i, |st.log|).Learned? {
        LearnLowersRank(u, st, i, Resolve(st.log, i, |st.log|), Scan(item, next + 1));
      }
  }

  lemma LearnLowersRank(u: Universe, st: State, i: Incompatibility, v: Verdict, phase: Phase)
    requires GoodUniverse(u) && Core(u, st) && v.Learned? && VerdictOk(u, st.log, v)
    requires phase.Scan? && phase.item.Changed?
    ensures Rank(u, Learn(st, i, v.level, v.rootCause, phase).log) < Rank(u, st.log)
  {
    LearnInv(u, st, i, v.level, v.rootCause, phase);
    var t :| Propagate(Cut(st.log, v.level), v.rootCause) == Derived(t);
    var cut := Cut(st.log, v.level);
    BacktrackLowersRank(u, st.log, v.level, Derive(cut, t, v.rootCause)[|cut|]);
  }

  lemma NoVersionsDecreases(u: Universe, st: State, n: Name)
    requires Inv(u, st) && n in Undecided(u, st.log)
    ensures var f := NoVersionsFact(u, n, Undecided(u, st.log)[n].versions);
            ConflictAhead(st.log, ListFor(Add(st.store, f), Package(n)))
  {
    var c := Undecided(u, st.log)[n];
    var f := NoVersionsFact(u, n, c.versions);
    var t := f.terms[0];
    AddUnderMembers(st.store, f, f.terms, Package(n));
    assert t in f.terms && SubjectOf(t) == Package(n);
    assert Mentions(f.terms, Package(n));
    TermAtIsGood(u, st.log, |st.log|, Package(n));
    assert SatAt(st.log, |st.log|, t);
    assert AllSatAt(st.log, |st.log|, f.terms);
  }

  lemma ChooseDecreases(u: Universe, st: State)
    requires Inv(u, st) && st.phase.Choosing?
    ensures Final(Step(u, st)) || Below(MeasureOf(u, Step(u, st)), MeasureOf(u, st))
  {
    var open := Undecided(u, st.log);
    var st' := Step(u, st);
    if open != map[] {
      var n := Best(u, open);
      var valid := ValidVersions(u, n, open[n]);
      if valid == {} {
        var list := ListFor(st'.store, Package(n));
        assert Ahead(st') == list by { assert list[0..] == list; }
        NoVersionsDecreases(u, st, n);
      } else {
        SelectDecreases(u, st, n, BestVersion(u, n, valid));
      }
    }
  }

  lemma SelectDecreases(u: Universe, st: State, n: Name, v: Version)
    requires GoodUniverse(u) && Core(u, st)
    requires n in Undecided(u, st.log) && v in ValidVersions(u, n, Undecided(u, st.log)[n])
    ensures var st' := Select(u, st, n, v);
            || Rank(u, st'.log) < Rank(u, st.log)
            || (st'.log == st.log && |Unlisted(u, st'.listed)| < |Unlisted(u, st.listed)|)
  {
    var st' := Select(u, st, n, v);
    var pv := Release(n, v);
    if st'.log == st.log {
      assert pv !in st.listed;
      assert pv in Unlisted(u, st.listed) && pv !in Unlisted(u, st'.listed);
      SubsetSize(Unlisted(u, st'.listed), Unlisted(u, st.listed));
    } else {
      DecideIsGood(u, st.log, n, v);
      DecideLowersRank(u, st.log, st'.log[|st.log|]);
    }
  }

  /** Every step of a run makes progress. */
  lemma StepDecreases(u: Universe, st: State)
    requires Inv(u, st) && !Final(st)
    ensures Final(Step(u, st)) || Below(MeasureOf(u, Step(u, st)), MeasureOf(u, st))
  {
    match st.phase
    case Scan(item, next) =>
      if next < |ListOf(st.store, item)| { ExamineDecreases(u, st); }
    case Choosing => ChooseDecreases(u, st);
  }

  /** Every run ends. */
  lemma {:induction false} RunEnds(u: Universe, k: nat) returns (m: nat)
    requires GoodUniverse(u)
    ensures k <= m && Final(Run(u, m))
    decreases !Final(Run(u, k)), MeasureOf(u, Run(u, k)).rank, MeasureOf(u, Run(u, k)).unlisted, MeasureOf(u, Run(u, k)).calm,
              MeasureOf(u, Run(u, k)).scanning, MeasureOf(u, Run(u, k)).queue, MeasureOf(u, Run(u, k)).ahead
  {
    if Final(Run(u, k)) { return k; }
    RunInv(u, k);
    StepDecreases(u, Run(u, k));
    assert Run(u, k + 1) == Step(u, Run(u, k));
    m := RunEnds(u, k + 1);
  }
}
