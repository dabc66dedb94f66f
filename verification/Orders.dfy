/** The order of the work: what is recorded is kept, and changes are followed up in the order in which they happen. */
module Orders {
  import opened Terms
  import opened Universes
  import opened Resolution
  import opened Logs
  import opened Conflicts
  import opened Machine
  import opened Invariants

  // ---------- Filing ----------

  /** An incompatibility goes to the end of the list of each package that it mentions, once. */
  lemma {:induction false} FiledOnce(store: Store, i: Incompatibility, terms: seq<Term>, s: Subject)
    requires Distinct(terms)
    ensures ListFor(AddUnder(store, i, terms), s) == ListFor(store, s) + if Mentions(terms, s) then [i] else []
    decreases |terms|
  {
    if terms == [] {
    } else {
      var t, rest := terms[0], terms[1..];
      assert forall x :: x in terms <==> x == t || x in rest;
      assert forall x :: x in rest ==> SubjectOf(x) != SubjectOf(t);
      FiledOnce(store[SubjectOf(t) := ListFor(store, SubjectOf(t)) + [i]], i, rest, s);
      if SubjectOf(t) == s { assert !Mentions(rest, s); }
    }
  }

  /** The facts of a version are filed under its package in the order of its dependencies. */
  lemma {:induction false} FactsFiledInOrder(u: Universe, store: Store, pv: PackageVersion, reqs: seq<Requirement>)
    requires forall r :: r in reqs ==> !IsSelf(pv, r)
    ensures ListFor(AddFacts(u, store, pv, reqs), Home(pv)) ==
            ListFor(store, Home(pv)) + seq(|reqs|, i requires 0 <= i < |reqs| => Fact(u, pv, reqs[i]))
    decreases |reqs|
  {
    if reqs == [] {
    } else {
      var f := Fact(u, pv, reqs[0]);
      assert reqs[0] in reqs;
      assert f.terms[0] in f.terms && Mentions(f.terms, Home(pv));
      FiledOnce(store, f, f.terms, Home(pv));
      FactsFiledInOrder(u, Add(store, f), pv, reqs[1..]);
    }
  }

  ghost predicate Keeps(before: Store, after: Store) {
    forall s :: ListFor(before, s) <= ListFor(after, s)
  }

  lemma AddKeeps(store: Store, i: Incompatibility)
    ensures Keeps(store, Add(store, i))
  {
    forall s ensures ListFor(store, s) <= ListFor(Add(store, i), s) { AddUnderMembers(store, i, i.terms, s); }
  }

  lemma KeepsTransitive(a: Store, b: Store, c: Store)
    requires Keeps(a, b) && Keeps(b, c)
    ensures Keeps(a, c)
  {
    forall s ensures ListFor(a, s) <= ListFor(c, s) { assert ListFor(a, s) <= ListFor(b, s) <= ListFor(c, s); }
  }

  lemma {:induction false} AddFactsKeeps(u: Universe, store: Store, pv: PackageVersion, reqs: seq<Requirement>)
    ensures Keeps(store, AddFacts(u, store, pv, reqs))
    decreases |reqs|
  {
    if reqs == [] {
    } else {
      var next := Add(store, Fact(u, pv, reqs[0]));
      AddKeeps(store, Fact(u, pv, reqs[0]));
      AddFactsKeeps(u, next, pv, reqs[1..]);
      KeepsTransitive(store, next, AddFacts(u, next, pv, reqs[1..]));
    }
  }

  // ---------- Reasons are on record ----------

  ghost predicate Filed(store: Store, i: Incompatibility) {
    forall s :: Mentions(i.terms, s) ==> i in ListFor(store, s)
  }

  /** Whatever is on record is on record under each package that it mentions. */
  ghost predicate AllFiled(store: Store) {
    forall s, i :: i in ListFor(store, s) ==> Filed(store, i)
  }

  /** The reason of every derivation is on record. */
  ghost predicate ReasonsFiled(log: Log, store: Store) {
    forall a :: a in log && a.cause.Some? && a.cause.value.IncompatibilityCause? ==> Filed(store, a.cause.value.incompatibility)
  }

  ghost predicate OnRecord(st: State) {
    AllFiled(st.store) && ReasonsFiled(st.log, st.store)
  }

  lemma FiledKept(before: Store, after: Store, i: Incompatibility)
    requires Keeps(before, after) && Filed(before, i)
    ensures Filed(after, i)
  {
    forall s | Mentions(i.terms, s) ensures i in ListFor(after, s) { assert ListFor(before, s) <= ListFor(after, s); }
  }

  lemma ReasonsKept(log: Log, before: Store, after: Store)
    requires Keeps(before, after) && ReasonsFiled(log, before)
    ensures ReasonsFiled(log, after)
  {
    forall a | a in log && a.cause.Some? && a.cause.value.IncompatibilityCause?
      ensures Filed(after, a.cause.value.incompatibility)
    {
      FiledKept(before, after, a.cause.value.incompatibility);
    }
  }

  lemma AddFiles(store: Store, i: Incompatibility)
    requires AllFiled(store)
    ensures AllFiled(Add(store, i)) && Filed(Add(store, i), i)
  {
    AddKeeps(store, i);
    forall s | Mentions(i.terms, s) ensures i in ListFor(Add(store, i), s) { AddUnderMembers(store, i, i.terms, s); }
    forall s, x | x in ListFor(Add(store, i), s) ensures Filed(Add(store, i), x) {
      AddUnderMembers(store, i, i.terms, s);
      if x != i { FiledKept(store, Add(store, i), x); }
    }
  }

  lemma {:induction false} AddFactsFiles(u: Universe, store: Store, pv: PackageVersion, reqs: seq<Requirement>)
    requires AllFiled(store)
    ensures AllFiled(AddFacts(u, store, pv, reqs))
    decreases |reqs|
  {
    if reqs == [] {
    } else {
      AddFiles(store, Fact(u, pv, reqs[0]));
      AddFactsFiles(u, Add(store, Fact(u, pv, reqs[0])), pv, reqs[1..]);
    }
  }

  lemma DeriveOnRecord(log: Log, store: Store, open: Term, i: Incompatibility)
    requires ReasonsFiled(log, store) && Filed(store, i)
    ensures ReasonsFiled(Derive(log, open, i), store)
  {
  }

  lemma {:induction false} CutMembers(log: Log, level: nat)
    ensures forall a :: a in Cut(log, level) ==> a in log
    decreases |log|
  {
    if log != [] {
      CutMembers(log[..|log| - 1], level);
    }
  }

  /** Learning keeps the record complete and files the root cause. */
  lemma LearnOnRecord(st: State, i: Incompatibility, level: nat, rootCause: Incompatibility, phase: Phase)
    requires OnRecord(st) && Filed(st.store, i)
    ensures var next := Learn(st, i, level, rootCause, phase);
            OnRecord(next) && Keeps(st.store, next.store) && Filed(next.store, rootCause)
  {
    var log := Cut(st.log, level);
    var store := if rootCause != i then Add(st.store, rootCause) else st.store;
    AddKeeps(st.store, rootCause);
    AddFiles(st.store, rootCause);
    CutMembers(st.log, level);
    ReasonsKept(log, st.store, store);
    var r := Propagate(log, rootCause);
    if r.Derived? { DeriveOnRecord(log, store, r.term, rootCause); }
  }

  lemma ExamineOnRecord(st: State, i: Incompatibility, phase: Phase)
    requires OnRecord(st) && Filed(st.store, i)
    ensures var next := Examine(st, i, phase);
            OnRecord(next) && Keeps(st.store, next.store) && next.listed == st.listed
  {
    match Propagate(st.log, i)
    case Quiet =>
    case Derived(open) => DeriveOnRecord(st.log, st.store, open, i);
    case Conflict =>
      var v := Resolve(st.log, i, |st.log|);
      if v.Learned? { LearnOnRecord(st, i, v.level, v.rootCause, phase); }
  }

  lemma ChooseOnRecord(u: Universe, st: State)
    requires OnRecord(st)
    ensures var next := Choose(u, st);
            OnRecord(next) && Keeps(st.store, next.store) && st.listed <= next.listed
  {
    var open := Undecided(u, st.log);
    if open != map[] {
      var n := Best(u, open);
      var valid := ValidVersions(u, n, open[n]);
      if valid == {} {
        var f := NoVersionsFact(u, n, open[n].versions);
        AddKeeps(st.store, f);
        AddFiles(st.store, f);
        ReasonsKept(st.log, st.store, Add(st.store, f));
      } else {
        SelectOnRecord(u, st, n, BestVersion(u, n, valid));
      }
    }
  }

  lemma SelectOnRecord(u: Universe, st: State, n: Name, v: Version)
    requires OnRecord(st)
    ensures var next := Select(u, st, n, v);
            OnRecord(next) && Keeps(st.store, next.store) && next.listed == st.listed + {Release(n, v)}
  {
    var pv := Release(n, v);
    var reqs := if pv in st.listed then [] else Dependencies(u, pv);
    var store := AddFacts(u, st.store, pv, reqs);
    AddFactsKeeps(u, st.store, pv, reqs);
    AddFactsFiles(u, st.store, pv, reqs);
    ReasonsKept(st.log, st.store, store);
  }

  /** Nothing that was recorded is forgotten or moved. */
  lemma StepOnRecord(u: Universe, st: State)
    requires OnRecord(st)
    ensures OnRecord(Step(u, st)) && Keeps(st.store, Step(u, st).store) && st.listed <= Step(u, st).listed
  {
    match st.phase
    case Scan(item, next) =>
      if next < |ListOf(st.store, item)| {
        var i := ListOf(st.store, item)[next];
        assert i in ListFor(st.store, item.subject);
        ExamineOnRecord(st, i, Scan(item, next + 1));
      }
    case Choosing => ChooseOnRecord(u, st);
    case _ =>
  }

  /** In every reachable state the reason of every derivation is on record, under each package that it mentions. */
  lemma {:induction false} RunOnRecord(u: Universe, k: nat)
    ensures OnRecord(Run(u, k))
  {
    if k == 0 {
      AddFactsFiles(u, map[], RootVersion, u.requirements);
    } else {
      RunOnRecord(u, k - 1);
      StepOnRecord(u, Run(u, k - 1));
    }
  }

  lemma RunStepGrows(u: Universe, run: nat -> State, k: nat)
    requires IsRun(u, run)
    ensures Keeps(run(k).store, run(k + 1).store) && run(k).listed <= run(k + 1).listed
  {
    assert run(k) == Run(u, k) && run(k + 1) == Run(u, k + 1);
    RunOnRecord(u, k);
    StepOnRecord(u, run(k));
  }

  /** Later states have every list of earlier ones as a prefix. */
  lemma {:induction false} RecordGrows(u: Universe, run: nat -> State, k: nat, m: nat)
    requires IsRun(u, run) && k <= m
    ensures Keeps(run(k).store, run(m).store) && run(k).listed <= run(m).listed
    decreases m
  {
    if k < m {
      RecordGrows(u, run, k, m - 1);
      RunStepGrows(u, run, m - 1);
      KeepsTransitive(run(k).store, run(m - 1).store, run(m).store);
    }
  }

  // ---------- Changes are followed up in order ----------

  /** The last entry of the log. */
  function LastChange(log: Log): seq<Item> {
    if log == [] then [] else [Changed(SubjectOf(log[|log| - 1].term))]
  }

  /** The package whose scan begins in this state, if any. */
  function Begins(st: State): seq<Item> {
    if st.phase.Scan? && st.phase.next == 0 then [st.phase.item] else []
  }

  /** The package about which the log learned something in this step, if any. */
  function Change(st: State, next: State): seq<Item> {
    if next.log != st.log then LastChange(next.log) else []
  }

  /** The packages whose scans began during the `j` steps after `k`, in order. */
  function Begun(run: nat -> State, k: nat, j: nat): seq<Item> {
    if j == 0 then [] else Begun(run, k, j - 1) + Begins(run(k + j))
  }

  /** The packages about which the log learned something during these steps, in order. */
  function Changes(run: nat -> State, k: nat, j: nat): seq<Item> {
    if j == 0 then [] else Changes(run, k, j - 1) + Change(run(k + j - 1), run(k + j))
  }

  /** A step of a scan takes the oldest change from the queue, or appends the change that it makes, if any. */
  lemma StepQueues(u: Universe, st: State)
    requires Inv(u, st) && st.phase.Scan? && !Final(Step(u, st))
    ensures var next := Step(u, st);
            Begins(next) + next.queue == st.queue + Change(st, next)
  {
    var item, next := st.phase.item, st.phase.next;
    if next < |ListOf(st.store, item)| {
      var i := ListOf(st.store, item)[next];
      assert i in ListFor(st.store, item.subject);
      OnlyDerivablePropagate(u, st.log, i);
      match Propagate(st.log, i)
      case Quiet =>
      case Derived(open) => InverseIsNegation(open);
      case Conflict => LearnQueues(u, st, i, Scan(item, next + 1));
    }
  }

  lemma LearnQueues(u: Universe, st: State, i: Incompatibility, phase: Phase)
    requires Inv(u, st) && phase.Scan? && phase.item.Changed? && Derivable(u, i) && AllSatAt(st.log, |st.log|, i.terms)
    requires Propagate(st.log, i) == Conflict && !Final(Examine(st, i, phase))
    ensures var next := Examine(st, i, phase);
            next.phase == phase && next.log != st.log && next.queue == st.queue + LastChange(next.log)
  {
    ResolveOk(u, st.log, i, |st.log|);
    var v := Resolve(st.log, i, |st.log|);
    LearnInv(u, st, i, v.level, v.rootCause, phase);
    var cut := Cut(st.log, v.level);
    CutEndsBeforeDecision(u, st.log, v.level);
    var r := Propagate(cut, v.rootCause);
    InverseIsNegation(r.term);
  }

  lemma RunStepQueues(u: Universe, run: nat -> State, k: nat)
    requires GoodUniverse(u) && IsRun(u, run) && run(k).phase.Scan? && !Final(run(k + 1))
    ensures Begins(run(k + 1)) + run(k + 1).queue == run(k).queue + Change(run(k), run(k + 1))
  {
    assert run(k) == Run(u, k) && run(k + 1) == Run(u, k + 1);
    RunInv(u, k);
    StepQueues(u, run(k));
  }

  lemma Shift<T>(done: seq<T>, queue: seq<T>, start: seq<T>, changes: seq<T>, begun: seq<T>, rest: seq<T>, change: seq<T>)
    requires done + queue == start + changes && begun + rest == queue + change
    ensures (done + begun) + rest == start + (changes + change)
  {
    assert (done + begun) + rest == done + (begun + rest) == done + (queue + change) == (done + queue) + change;
    assert (start + changes) + change == start + (changes + change);
  }

  /**
   * As long as a round of propagation lasts, the scans that have begun, followed by the queue, are the queue at its
   * start followed by the changes: every change is followed up, once, in the order in which it was made.
   */
  lemma {:induction false} ChangesAreFollowedUp(u: Universe, run: nat -> State, k: nat, j: nat)
    requires GoodUniverse(u) && IsRun(u, run)
    requires forall i :: k <= i < k + j ==> run(i).phase.Scan?
    requires !Final(run(k + j))
    ensures Begun(run, k, j) + run(k + j).queue == run(k).queue + Changes(run, k, j)
  {
    if j > 0 {
      ChangesAreFollowedUp(u, run, k, j - 1);
      RunStepQueues(u, run, k + j - 1);
      Shift(Begun(run, k, j - 1), run(k + j - 1).queue, run(k).queue, Changes(run, k, j - 1),
            Begins(run(k + j)), run(k + j).queue, Change(run(k + j - 1), run(k + j)));
    }
  }
}
