/** The resolver as the program runs it: nested loops over mutable state that follow the state machine. */
module Resolvers {
  import opened Terms
  import opened Universes
  import opened Resolution
  import opened Logs
  import opened Conflicts
  import opened Machine
  import opened Invariants
  import opened Termination
  import opened PartialSolutions
  import opened Graphs
  import opened Configs

  lemma {:induction false} FixedStays<S>(run: nat -> S, step: S -> S, k: nat, m: nat)
    requires k <= m && step(run(k)) == run(k)
    requires forall j: nat :: step(run(j)) == run(j + 1)
    ensures run(m) == run(k)
    decreases m
  {
    if m <= k {
    } else {
      FixedStays(run, step, k, m - 1);
      assert step(run(m - 1)) == run(m);
    }
  }

  lemma FinalStays(u: Universe, k: nat, m: nat)
    requires k <= m && Final(Run(u, k))
    ensures Run(u, m) == Run(u, k)
  {
    var run, step := (j: nat) => Run(u, j), st => Step(u, st);
    assert step(run(k)) == run(k);
    FixedStays(run, step, k, m);
    assert run(m) == Run(u, m);
  }

  /** One step further along the run; while the machine has not stopped, its end is still ahead. */
  lemma Advance(u: Universe, run: nat -> State, k: nat, end: nat)
    requires GoodUniverse(u) && IsRun(u, run) && Final(run(end)) && !Final(run(k))
    ensures k < end && run(k + 1) == Step(u, run(k)) && Inv(u, run(k)) && Inv(u, run(k + 1))
  {
    assert run(k) == Run(u, k) && run(k + 1) == Run(u, k + 1) && run(end) == Run(u, end);
    if end <= k { FinalStays(u, end, k); }
    RunInv(u, k);
    RunInv(u, k + 1);
  }

  /** The next step while scanning a list. */
  lemma AdvanceScan(u: Universe, run: nat -> State, k: nat, end: nat)
    requires GoodUniverse(u) && IsRun(u, run) && Final(run(end)) && run(k).phase.Scan?
    ensures k < end && Inv(u, run(k))
    ensures var st := run(k);
            var item, next := st.phase.item, st.phase.next;
            var list := ListOf(st.store, item);
            next < |list| ==> run(k + 1) == Examine(st, list[next], Scan(item, next + 1))
  {
    Advance(u, run, k, end);
  }

  /** At the end of a list the next item is taken from the queue, if there is one. */
  lemma AdvanceList(u: Universe, run: nat -> State, k: nat, end: nat)
    requires GoodUniverse(u) && IsRun(u, run) && Final(run(end)) && run(k).phase.Scan?
    requires |ListOf(run(k).store, run(k).phase.item)| <= run(k).phase.next
    ensures k < end
    ensures var st := run(k);
            run(k + 1) == if st.queue == [] then State(Choosing, st.log, st.store, st.listed, [])
                          else State(Scan(st.queue[0], 0), st.log, st.store, st.listed, st.queue[1..])
  {
    Advance(u, run, k, end);
  }

  lemma AdvanceChoosing(u: Universe, run: nat -> State, k: nat, end: nat)
    requires GoodUniverse(u) && IsRun(u, run) && Final(run(end)) && run(k).phase.Choosing?
    ensures k < end && Inv(u, run(k)) && run(k + 1) == Choose(u, run(k))
  {
    Advance(u, run, k, end);
  }

  lemma RunStarts(u: Universe, run: nat -> State)
    requires GoodUniverse(u) && IsRun(u, run)
    ensures run(0) == Init(u) && exists end :: Final(run(end))
  {
    assert run(0) == Run(u, 0);
    var end := RunEnds(u, 0);
    assert run(end) == Run(u, end);
  }

  /** Undecided packages, computed from the caches. */
  lemma UnsatisfiedIsUndecided(u: Universe, solution: PartialSolution)
    requires solution.Valid() && GoodLog(u, solution.assignments)
    ensures solution.Unsatisfied() == Undecided(u, solution.assignments)
  {
    var log := solution.assignments;
    var a, b := solution.Unsatisfied(), Undecided(u, log);
    forall n ensures n in a <==> n in b {
      assert Lookup(solution.terms, Package(n)) == TermAt(log, |log|, Package(n));
      TermAtIsGood(u, log, |log|, Package(n));
    }
    forall n | n in a ensures a[n] == b[n] {
      assert Lookup(solution.terms, Package(n)) == TermAt(log, |log|, Package(n));
    }
  }

  lemma {:induction false} AddFactsIsAddAll(u: Universe, store: Store, pv: PackageVersion, reqs: seq<Requirement>, i: nat)
    requires i < |reqs|
    ensures AddFacts(u, store, pv, reqs[..i + 1]) == Add(AddFacts(u, store, pv, reqs[..i]), Fact(u, pv, reqs[i]))
    decreases i
  {
    if i == 0 {
      assert reqs[..1] == [reqs[0]] && reqs[..0] == [];
      assert [reqs[0]][1..] == [];
    } else {
      var rest := reqs[1..];
      assert reqs[..i + 1][1..] == rest[..i] && reqs[..i][1..] == rest[..i - 1];
      assert rest[i - 1] == reqs[i];
      AddFactsIsAddAll(u, Add(store, Fact(u, pv, reqs[0])), pv, rest, i - 1);
    }
  }

  lemma {:induction false} FactListAt(u: Universe, pv: PackageVersion, reqs: seq<Requirement>, i: nat)
    ensures |FactList(u, pv, reqs)| == |reqs|
    ensures i < |reqs| ==> FactList(u, pv, reqs)[i] == Fact(u, pv, reqs[i])
    decreases i, |reqs|
  {
    if reqs == [] {
    } else {
      FactListAt(u, pv, reqs[1..], if i > 0 then i - 1 else 0);
    }
  }

  lemma SortOneMore(u: Universe, log: Log, terms: seq<Term>, k: nat)
    requires GoodLog(u, log) && k < |terms| && AllSatAt(log, |log|, terms)
    ensures SortTerms(log, terms[..k + 1]) ==
            Insert(SortTerms(log, terms[..k]), Explained(terms[k], Satisfier(log, terms[k])))
    ensures log[Satisfier(log, terms[k])].index == Satisfier(log, terms[k])
  {
    assert terms[..k + 1][..k] == terms[..k];
    assert EntryOk(u, log, Satisfier(log, terms[k]));
  }

  /** What examining an incompatibility relies on. */
  ghost predicate Ready(u: Universe, log: Log, i: Incompatibility) {
    && GoodLog(u, log) && (Propagate(log, i) != Quiet ==> Derivable(u, i))
    && (Propagate(log, i) == Conflict ==> AllSatAt(log, |log|, i.terms))
  }

  lemma NextIsReady(u: Universe, st: State)
    requires Inv(u, st) && st.phase.Scan? && st.phase.next < |ListOf(st.store, st.phase.item)|
    ensures Ready(u, st.log, ListOf(st.store, st.phase.item)[st.phase.next])
  {
    var i := ListOf(st.store, st.phase.item)[st.phase.next];
    assert i in ListFor(st.store, st.phase.item.subject);
    OnlyDerivablePropagate(u, st.log, i);
  }

  lemma LearnedLogIsGood(u: Universe, log: Log, i: Incompatibility)
    requires GoodLog(u, log) && Derivable(u, i) && AllSatAt(log, |log|, i.terms)
    ensures var v := Resolve(log, i, |log|); v.Learned? ==> GoodLog(u, Cut(log, v.level))
  {
    ResolveOk(u, log, i, |log|);
  }

  class Resolver {
    var incompatibilities: Store
    const solution: PartialSolution
    const config: Config
    ghost const run: nat -> State

    ghost predicate Valid()
      reads this, solution, config, config.graph
    {
      solution.Valid() && config.Valid()
    }

    /** The state of the machine that this object is in. */
    ghost function StateAt(phase: Phase, queue: seq<Item>): State
      reads this, solution, config
    {
      State(phase, solution.assignments, incompatibilities, config.listed, queue)
    }

    constructor (c: Config)
      requires c.Valid()
      ensures Valid() && config == c && fresh(solution) && IsRun(c.universe, run)
      ensures incompatibilities == map[] && solution.assignments == []
    {
      config := c;
      run := (k: nat) => Run(c.universe, k);
      solution := new PartialSolution();
      incompatibilities := map[];
    }

    method AddIncompatibility(i: Incompatibility)
      modifies this`incompatibilities
      ensures incompatibilities == Add(old(incompatibilities), i)
    {
      ghost var start := incompatibilities;
      for k := 0 to |i.terms|
        invariant AddUnder(incompatibilities, i, i.terms[k..]) == Add(start, i)
      {
        var s := SubjectOf(i.terms[k]);
        assert i.terms[k..][1..] == i.terms[k + 1..];
        incompatibilities := incompatibilities[s := ListFor(incompatibilities, s) + [i]];
      }
    }

    /** Checks one incompatibility against the solution, and derives the one open term's inverse. */
    method PropagateIncompatibility(i: Incompatibility) returns (r: Propagation)
      requires solution.Valid() && GoodLog(config.universe, solution.assignments)
      modifies solution
      ensures solution.Valid()
      ensures r == Propagate(old(solution.assignments), i)
      ensures solution.assignments ==
              if r.Derived? then Machine.Derive(old(solution.assignments), r.term, i) else old(solution.assignments)
    {
      var open: Option<Term> := None;
      ghost var log := solution.assignments;
      for k := 0 to |i.terms|
        invariant PropagateFrom(log, i.terms[k..], open) == Propagate(log, i)
      {
        var t := i.terms[k];
        assert i.terms[k..][1..] == i.terms[k + 1..];
        if solution.SatisfiesTerm(t) {
        } else if solution.IsIncompatible(t) {
          return Quiet;
        } else if open.Some? {
          return Quiet;
        } else {
          open := Some(t);
        }
      }
      if open.None? { return Conflict; }
      DecisionCount(config.universe, log, |log|);
      solution.Derive(Inverse(open.value), IncompatibilityCause(i));
      return Derived(open.value);
    }

    /** Terms with their satisfiers, in the order in which they became satisfied. */
    method SortIncompatibilityTerms(i: Incompatibility) returns (sorted: seq<Explained>)
      requires solution.Valid() && GoodLog(config.universe, solution.assignments)
      requires AllSatAt(solution.assignments, |solution.assignments|, i.terms)
      ensures sorted == SortTerms(solution.assignments, i.terms)
    {
      sorted := [];
      for k := 0 to |i.terms|
        invariant sorted == SortTerms(solution.assignments, i.terms[..k])
      {
        var t := i.terms[k];
        var a := solution.FindSatisfier(t, config.universe);
        SortOneMore(config.universe, solution.assignments, i.terms, k);
        sorted := Insert(sorted, Explained(t, a.value.index));
      }
      assert i.terms[..|i.terms|] == i.terms;
    }

    method PreviousDecisionLevel(sorted: seq<Explained>) returns (level: nat)
      requires solution.Valid() && GoodLog(config.universe, solution.assignments)
      requires sorted != [] && forall x :: x in sorted ==>
                 x.index < |solution.assignments| && SubjectOf(solution.assignments[x.index].term) == SubjectOf(x.term)
      requires PreviousLevel(solution.assignments, sorted).Some?
      ensures Some(level) == PreviousLevel(solution.assignments, sorted)
    {
      var top := sorted[|sorted| - 1];
      assert top in sorted;
      level := 1;
      if |sorted| > 1 {
        assert sorted[|sorted| - 2] in sorted;
        level := solution.assignments[sorted[|sorted| - 2].index].level;
      }
      var difference := Difference(solution.assignments[top.index].term, top.term);
      if difference.Some? {
        var partial := solution.FindSatisfier(Inverse(difference.value), config.universe);
        level := Max(level, partial.value.level);
      }
    }

    /** One term per subject, in order of first appearance; None is the "mutually exclusive terms" error. */
    method MergeTerms(terms: seq<Term>) returns (r: Option<seq<Term>>)
      ensures r == Merge(terms)
    {
      var merged: seq<Term> := [];
      for k := 0 to |terms|
        invariant MergeFrom(merged, terms[k..]) == Merge(terms)
      {
        var t := terms[k];
        assert terms[k..][1..] == terms[k + 1..];
        var at := Find(merged, SubjectOf(t));
        if at == |merged| {
          merged := merged + [t];
        } else {
          var m := Intersect(merged[at], t);
          if m.None? { return None; }
          merged := merged[at := m.value];
        }
      }
      return Some(merged);
    }

    method CreateIncompatibilityFromConflict(i: Incompatibility, t: Term, a: Assignment) returns (r: Option<Incompatibility>)
      requires SubjectOf(a.term) == SubjectOf(t) && a.cause.Some? && a.cause.value.IncompatibilityCause?
      ensures var other := a.cause.value.incompatibility;
              r == match Merge(NewTerms(i.terms, other.terms, t, a.term))
                   case None => None
                   case Some(terms) => Some(Incompatibility(terms, ConflictCause(i, other, t, a.term)))
    {
      var other := a.cause.value.incompatibility;
      var left := Without(i.terms, t) + WithoutSubject(other.terms, SubjectOf(a.term));
      var difference := Difference(a.term, t);
      if difference.Some? { left := left + [Inverse(difference.value)]; }
      assert left == NewTerms(i.terms, other.terms, t, a.term);
      var terms := MergeTerms(left);
      if terms.None? { return None; }
      return Some(Incompatibility(terms.value, ConflictCause(i, other, t, a.term)));
    }

    /** The most recently satisfied term, its satisfier, and the level of the next most recent one. */
    method AnalyseConflict(i: Incompatibility) returns (an: Analysis)
      requires solution.Valid() && GoodLog(config.universe, solution.assignments) && Distinct(i.terms) && i.terms != []
      requires GoodTerms(config.universe, i.terms) && AllSatAt(solution.assignments, |solution.assignments|, i.terms)
      ensures Some(an) == Analyse(solution.assignments, i.terms)
    {
      AnalyseSucceeds(config.universe, solution.assignments, i.terms);
      var sorted := SortIncompatibilityTerms(i);
      var top := sorted[|sorted| - 1];
      assert top in sorted;
      var level := PreviousDecisionLevel(sorted);
      return Analysis(top.term, top.index, level);
    }

    /** Finds the root cause of a conflict and backtracks to where it says something new. */
    method ResolveConflict(i: Incompatibility) returns (v: Verdict)
      requires solution.Valid() && GoodLog(config.universe, solution.assignments)
      requires Derivable(config.universe, i) && AllSatAt(solution.assignments, |solution.assignments|, i.terms)
      modifies this`incompatibilities, solution
      ensures solution.Valid() && v == Resolve(old(solution.assignments), i, |old(solution.assignments)|)
      ensures solution.assignments ==
              if v.Learned? then Cut(old(solution.assignments), v.level) else old(solution.assignments)
      ensures incompatibilities ==
              if v.Learned? && v.rootCause != i then Add(old(incompatibilities), v.rootCause) else old(incompatibilities)
    {
      var current := i;
      ghost var log, u := solution.assignments, config.universe;
      ghost var bound: nat := |log|;
      while !IsFailure(current)
        invariant solution.Valid() && solution.assignments == log && incompatibilities == old(incompatibilities)
        invariant bound <= |log| && Derivable(u, current) && AllSatAt(log, bound, current.terms)
        invariant Resolve(log, current, bound) == Resolve(log, i, |log|)
        decreases bound
      {
        RoundUnfolds(u, log, current, bound);
        var an := AnalyseConflict(current);
        var a := solution.assignments[an.index];
        if a.cause.None? || an.previousLevel < a.level {
          solution.Backtrack(an.previousLevel, u);
          if current != i { AddIncompatibility(current); }
          return Learned(an.previousLevel, current);
        }
        var next := CreateIncompatibilityFromConflict(current, an.term, a);
        if next.None? { return MergeError; }
        current := next.value;
        bound := an.index;
      }
      return Failed(current);
    }

    method IsConflictWith(i: Incompatibility) returns (conflict: bool)
      requires solution.Valid()
      ensures conflict <==> IsConflict(solution.assignments, i)
    {
      var allSatisfied, sameSubject := true, true;
      var subject: Option<Subject> := None;
      for k := 0 to |i.terms|
        invariant allSatisfied <==> AllSatAt(solution.assignments, |solution.assignments|, i.terms[..k])
        invariant k == 0 <==> subject.None?
        invariant k > 0 ==> subject == Some(SubjectOf(i.terms[0]))
        invariant sameSubject <==> SameSubjects(i.terms[..k])
      {
        var t := i.terms[k];
        assert i.terms[..k + 1] == i.terms[..k] + [t];
        if !solution.SatisfiesTerm(t) { allSatisfied := false; }
        if subject.None? { subject := Some(SubjectOf(t)); }
        if SubjectOf(t) != subject.value { sameSubject := false; }
        assert t in i.terms[..k + 1];
      }
      assert i.terms[..|i.terms|] == i.terms;
      return allSatisfied || sameSubject;
    }

    /** Resolves a conflict and propagates its root cause; `next` is what goes into the work queue. */
    method HandleConflict(i: Incompatibility, ghost st: State) returns (v: Verdict, next: Item)
      requires solution.Valid() && GoodLog(config.universe, solution.assignments) && Derivable(config.universe, i)
      requires AllSatAt(solution.assignments, |solution.assignments|, i.terms) && StateAt(st.phase, st.queue) == st
      modifies this`incompatibilities, solution
      ensures solution.Valid() && v == Resolve(st.log, i, |st.log|)
      ensures if v.Learned? then StateAt(st.phase, st.queue + [next]) == Learn(st, i, v.level, v.rootCause, st.phase)
              else StateAt(st.phase, st.queue) == st
    {
      LearnedLogIsGood(config.universe, st.log, i);
      v := ResolveConflict(i);
      next := NotASubject;
      if v.Learned? {
        var again := PropagateIncompatibility(v.rootCause);
        if again.Derived? { next := Changed(SubjectOf(again.term)); }
      }
    }

    /** The body of the propagation loop: derive, or resolve a conflict. */
    method ExamineIncompatibility(i: Incompatibility, changed: seq<Item>, item: Item, ghost next: nat)
      returns (changed': seq<Item>, stop: Option<Phase>)
      requires solution.Valid() && Ready(config.universe, solution.assignments, i)
      modifies this`incompatibilities, solution
      ensures solution.Valid()
      ensures var st := Examine(old(StateAt(Scan(item, next), changed)), i, Scan(item, next + 1));
              && StateAt(if stop.None? then Scan(item, next + 1) else stop.value, changed') == st
              && (stop.Some? <==> Final(st))
    {
      var r := PropagateIncompatibility(i);
      match r
      case Quiet => return changed, None;
      case Derived(t) => return changed + [Changed(SubjectOf(t))], None;
      case Conflict =>
        var v, queued := HandleConflict(i, StateAt(Scan(item, next + 1), changed));
        match v
        case Learned(_, _) => return changed + [queued], None;
        case Failed(failure) => return changed, Some(Unsolvable(failure));
        case MergeError => return changed, Some(Broken);
        case Stuck => return changed, Some(Wedged);
    }

    /** Unit propagation from `subject` until nothing changes. */
    method PropagateAll(subject: Subject, ghost k: nat, ghost end: nat) returns (stop: Option<Phase>, ghost k': nat)
      requires solution.Valid() && GoodUniverse(config.universe) && IsRun(config.universe, run)
      requires Final(run(end)) && StateAt(Scan(Changed(subject), 0), []) == run(k)
      modifies this`incompatibilities, solution
      ensures solution.Valid() && k < k' <= end
      ensures stop.None? ==> StateAt(Choosing, []) == run(k')
      ensures stop.Some? ==> Final(run(k')) && run(k').phase == stop.value && run(k').log == solution.assignments
    {
      ghost var u := config.universe;
      var changed := [Changed(subject)];
      k' := k;
      AdvanceScan(u, run, k, end);
      while changed != []
        invariant solution.Valid() && k <= k' <= end && (changed == [] ==> k < k')
        invariant changed != [] ==> StateAt(Scan(changed[0], 0), changed[1..]) == run(k')
        invariant changed == [] ==> StateAt(Choosing, []) == run(k')
        decreases end - k'
      {
        var item := changed[0];
        stop, changed, k' := ScanItem(item, changed[1..], k', end);
        if stop.Some? { return; }
      }
      stop := None;
    }

    /** Examines the incompatibilities filed under one item, including those that are added meanwhile. */
    method ScanItem(item: Item, queue: seq<Item>, ghost k: nat, ghost end: nat)
      returns (stop: Option<Phase>, changed: seq<Item>, ghost k': nat)
      requires solution.Valid() && GoodUniverse(config.universe) && IsRun(config.universe, run) && Final(run(end))
      requires StateAt(Scan(item, 0), queue) == run(k)
      modifies this`incompatibilities, solution
      ensures solution.Valid() && k < k' <= end
      ensures stop.None? ==>
                StateAt(if changed == [] then Choosing else Scan(changed[0], 0),
                        if changed == [] then [] else changed[1..]) == run(k')
      ensures stop.Some? ==> Final(run(k')) && run(k').phase == stop.value && run(k').log == solution.assignments
    {
      changed, k' := queue, k;
      AdvanceScan(config.universe, run, k, end);
      var i := 0;
      while i < |ListOf(incompatibilities, item)|
        invariant solution.Valid() && k <= k' < end && StateAt(Scan(item, i), changed) == run(k')
        decreases end - k'
      {
        changed, stop := ExamineNext(ListOf(incompatibilities, item)[i], changed, item, i, k', end);
        k' := k' + 1;
        if stop.Some? { return; }
        i := i + 1;
      }
      AdvanceList(config.universe, run, k', end);
      k' := k' + 1;
      stop := None;
    }

    method ExamineNext(i: Incompatibility, changed: seq<Item>, item: Item, ghost next: nat, ghost k: nat, ghost end: nat)
      returns (changed': seq<Item>, stop: Option<Phase>)
      requires solution.Valid() && GoodUniverse(config.universe) && IsRun(config.universe, run) && Final(run(end))
      requires StateAt(Scan(item, next), changed) == run(k)
      requires next < |ListOf(incompatibilities, item)| && i == ListOf(incompatibilities, item)[next]
      modifies this`incompatibilities, solution
      ensures solution.Valid() && k < end
      ensures StateAt(if stop.None? then Scan(item, next + 1) else stop.value, changed') == run(k + 1)
      ensures stop.Some? <==> Final(run(k + 1))
      ensures !Final(run(k + 1)) ==> k + 1 < end
    {
      AdvanceScan(config.universe, run, k, end);
      NextIsReady(config.universe, run(k));
      changed', stop := ExamineIncompatibility(i, changed, item, next);
      if stop.None? { AdvanceScan(config.universe, run, k + 1, end); }
    }

    method AddNoVersions(n: Name, versions: set<Version>)
      requires Valid()
      modifies this`incompatibilities
      ensures incompatibilities == Add(old(incompatibilities), NoVersionsFact(config.universe, n, versions))
    {
      var all := VersionsIn(config.graph.index.versions, n);
      AddIncompatibility(Incompatibility([VersionConstraint(n, versions, true, all)],
                                         if all != {} then NoVersionsCause else PackageNotFoundCause));
    }

    /** Adds the facts of a version and reports whether one of them conflicts already. */
    method AddFactsOf(pv: PackageVersion) returns (conflict: bool)
      requires Valid()
      modifies this`incompatibilities, config, config.graph
      ensures Valid() && config.listed == old(config.listed) + {pv}
      ensures var reqs := if pv in old(config.listed) then [] else Dependencies(config.universe, pv);
              && incompatibilities == AddFacts(config.universe, old(incompatibilities), pv, reqs)
              && (conflict <==> exists r :: r in reqs && IsConflict(solution.assignments, Fact(config.universe, pv, r)))
    {
      ghost var reqs := if pv in config.listed then [] else Dependencies(config.universe, pv);
      var facts := config.IncompatibilitiesFor(pv);
      conflict := AddList(facts, pv, reqs);
    }

    method AddList(facts: seq<Incompatibility>, ghost pv: PackageVersion, ghost reqs: seq<Requirement>)
      returns (conflict: bool)
      requires solution.Valid() && facts == FactList(config.universe, pv, reqs)
      modifies this`incompatibilities
      ensures incompatibilities == AddFacts(config.universe, old(incompatibilities), pv, reqs)
      ensures conflict <==> exists r :: r in reqs && IsConflict(solution.assignments, Fact(config.universe, pv, r))
    {
      ghost var u, start := config.universe, incompatibilities;
      FactListAt(u, pv, reqs, 0);
      conflict := false;
      for i := 0 to |facts|
        invariant incompatibilities == AddFacts(u, start, pv, reqs[..i])
        invariant conflict <==> exists r :: r in reqs[..i] && IsConflict(solution.assignments, Fact(u, pv, r))
      {
        FactListAt(u, pv, reqs, i);
        AddFactsIsAddAll(u, start, pv, reqs, i);
        AddIncompatibility(facts[i]);
        var c := IsConflictWith(facts[i]);
        assert reqs[..i + 1] == reqs[..i] + [reqs[i]];
        assert reqs[i] in reqs[..i + 1];
        conflict := conflict || c;
      }
      assert reqs[..|reqs|] == reqs;
    }

    /** Decides on a version of the most constrained package, or finds that it has none. */
    method ChoosePackageVersion() returns (next: Option<Subject>)
      requires Valid() && Inv(config.universe, StateAt(Choosing, []))
      modifies this`incompatibilities, solution, config, config.graph
      ensures Valid()
      ensures StateAt(if next.None? then Solved else Scan(Changed(next.value), 0), []) ==
              Choose(config.universe, old(StateAt(Choosing, [])))
    {
      ghost var u, st := config.universe, StateAt(Choosing, []);
      UnsatisfiedIsUndecided(u, solution);
      var open := solution.Unsatisfied();
      if open == map[] { return None; }
      var n, valid := config.BestPackage(open);
      next := Some(Package(n));
      if valid == {} {
        AddNoVersions(n, open[n].versions);
        return;
      }
      var v := config.BestVersionForPackage(n, valid);
      SelectVersion(n, v, st);
    }

    method ChooseNext(ghost k: nat, ghost end: nat) returns (next: Option<Subject>)
      requires Valid() && GoodUniverse(config.universe) && IsRun(config.universe, run) && Final(run(end))
      requires StateAt(Choosing, []) == run(k)
      modifies this`incompatibilities, solution, config, config.graph
      ensures Valid() && k < end
      ensures StateAt(if next.None? then Solved else Scan(Changed(next.value), 0), []) == run(k + 1)
    {
      AdvanceChoosing(config.universe, run, k, end);
      next := ChoosePackageVersion();
    }

    /** Adds the facts of a version and, unless one of them conflicts, the decision on it. */
    method SelectVersion(n: Name, v: Version, ghost st: State)
      requires Valid() && GoodLog(config.universe, solution.assignments) && StateAt(st.phase, st.queue) == st
      requires Package(n) !in solution.decisions
      modifies this`incompatibilities, solution, config, config.graph
      ensures Valid() && StateAt(Scan(Changed(Package(n)), 0), []) == Select(config.universe, st, n, v)
    {
      var conflict := AddFactsOf(Release(n, v));
      if !conflict { DecideOn(n, v); }
    }

    method DecideOn(n: Name, v: Version)
      requires Valid() && GoodLog(config.universe, solution.assignments) && Package(n) !in solution.decisions
      modifies solution
      ensures Valid() && solution.assignments == Machine.Decide(config.universe, old(solution.assignments), Release(n, v))
    {
      DecisionCount(config.universe, solution.assignments, |solution.assignments|);
      solution.Decide(VersionConstraint(n, {v}, true, VersionsIn(config.graph.index.versions, n)));
    }

    method SetupRoot()
      requires Valid() && incompatibilities == map[] && solution.assignments == [] && config.listed == {}
      modifies this`incompatibilities, solution, config, config.graph
      ensures Valid() && StateAt(Scan(Changed(Root), 0), []) == Init(config.universe)
    {
      var _ := AddFactsOf(RootVersion);
      solution.Decide(RootConstraint(true));
    }

    /** One round of the main loop: propagate, then choose the next package. */
    method Round(subject: Subject, ghost k: nat, ghost end: nat)
      returns (stop: Option<Phase>, next: Option<Subject>, ghost k': nat)
      requires GoodUniverse(config.universe) && IsRun(config.universe, run)
      requires Valid() && Final(run(end)) && StateAt(Scan(Changed(subject), 0), []) == run(k)
      modifies this`incompatibilities, solution, config, config.graph
      ensures Valid() && k < k' <= end
      ensures stop.None? ==> StateAt(if next.None? then Solved else Scan(Changed(next.value), 0), []) == run(k')
      ensures stop.Some? ==> Final(run(k')) && run(k').phase == stop.value && run(k').log == solution.assignments
    {
      stop, k' := PropagateAll(subject, k, end);
      next := None;
      if stop.None? {
        next := ChooseNext(k', end);
        k' := k' + 1;
      }
    }

    /** Runs the solver to its end, which is the end of the machine's run. */
    method Solve() returns (outcome: Phase, ghost k: nat)
      requires GoodUniverse(config.universe) && IsRun(config.universe, run)
      requires Valid() && incompatibilities == map[] && solution.assignments == [] && config.listed == {}
      modifies this`incompatibilities, solution, config, config.graph
      ensures Valid() && Final(run(k)) && run(k).phase == outcome && run(k).log == solution.assignments
    {
      RunStarts(config.universe, run);
      ghost var end: nat :| Final(run(end));
      SetupRoot();
      var current := Some(Root);
      k := 0;
      while current.Some?
        invariant Valid()
        invariant StateAt(if current.None? then Solved else Scan(Changed(current.value), 0), []) == run(k)
        decreases current.Some?, end - k
      {
        var stop;
        stop, current, k := Round(current.value, k, end);
        if stop.Some? { return stop.value, k; }
      }
      outcome := Solved;
    }

    /** The decided versions. */
    method Result() returns (decided: set<PackageVersion>)
      requires Valid() && GoodLog(config.universe, solution.assignments)
      ensures var choice := SolutionOf(solution.assignments);
              decided == set n | n in choice :: Release(n, choice[n])
    {
      decided := set s, v | s in solution.decisions && s.Package? && solution.decisions[s].VersionConstraint?
                            && v in solution.decisions[s].versions :: Release(s.name, v);
      DecidedVersions(config.universe, solution.assignments);
    }
  }

  lemma DecisionInSolution(u: Universe, log: Log, s: Subject, v: Version)
    requires GoodLog(u, log) && s in DecisionsAt(log, |log|) && s.Package?
    requires DecisionsAt(log, |log|)[s].VersionConstraint? && v in DecisionsAt(log, |log|)[s].versions
    ensures s.name in SolutionOf(log) && SolutionOf(log)[s.name] == v
  {
    var d := DecisionWitness(log, |log|, s);
    assert EntryOk(u, log, d);
  }

  /** Each decision names one version, so listing all versions of all decisions lists the solution. */
  lemma DecidedVersions(u: Universe, log: Log)
    requires GoodLog(u, log)
    ensures var decided := DecisionsAt(log, |log|);
            (set s, v | s in decided && s.Package? && decided[s].VersionConstraint? && v in decided[s].versions
               :: Release(s.name, v)) ==
            (set n | n in SolutionOf(log) :: Release(n, SolutionOf(log)[n]))
  {
    var decided := DecisionsAt(log, |log|);
    forall s, v | s in decided && s.Package? && decided[s].VersionConstraint? && v in decided[s].versions
      ensures s.name in SolutionOf(log) && SolutionOf(log)[s.name] == v
    {
      DecisionInSolution(u, log, s, v);
    }
    assert forall n :: n in SolutionOf(log) ==> Package(n) in decided && decided[Package(n)].VersionConstraint?
                                                && SolutionOf(log)[n] in decided[Package(n)].versions;
  }
}
