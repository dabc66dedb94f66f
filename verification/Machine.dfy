/** The solver as a state machine over values: one step is one iteration of its innermost loop. */
module Machine {
  import opened Terms
  import opened Universes
  import opened Resolution
  import opened Logs
  import opened Conflicts

  // ---------- Unit propagation of one incompatibility ----------

  /** Derived carries the one term that is neither implied nor ruled out. */
  datatype Propagation = Quiet | Conflict | Derived(term: Term)

  function PropagateFrom(log: Log, terms: seq<Term>, open: Option<Term>): Propagation
    decreases |terms|
  {
    if terms == [] then (match open case None => Conflict case Some(t) => Derived(t))
    else
      var t := terms[0];
      if SatAt(log, |log|, t) then PropagateFrom(log, terms[1..], open)
      else if ContraAt(log, |log|, t) then Quiet
      else if open.Some? then Quiet
      else PropagateFrom(log, terms[1..], Some(t))
  }

  function Propagate(log: Log, i: Incompatibility): Propagation {
    PropagateFrom(log, i.terms, None)
  }

  predicate Undetermined(log: Log, t: Term) {
    !SatAt(log, |log|, t) && !ContraAt(log, |log|, t)
  }

  /** The three outcomes, stated without the order of the terms. */
  lemma {:induction false} PropagateFromOutcome(log: Log, terms: seq<Term>, open: Option<Term>)
    requires Distinct(terms) && (open.Some? ==> Undetermined(log, open.value) && open.value !in terms)
    ensures var r := PropagateFrom(log, terms, open);
            var all := terms + if open.Some? then [open.value] else [];
            && (r.Conflict? <==> AllSatAt(log, |log|, all))
            && (r.Derived? ==> r.term in all && Undetermined(log, r.term)
                               && forall t :: t in all && t != r.term ==> SatAt(log, |log|, t))
            && (r.Quiet? ==>
                  || (exists t :: t in all && !SatAt(log, |log|, t) && ContraAt(log, |log|, t))
                  || (exists t, t' :: t in all && t' in all && t != t' && !SatAt(log, |log|, t) && !SatAt(log, |log|, t')))
    decreases |terms|
  {
    var all := terms + if open.Some? then [open.value] else [];
    if terms == [] {
    } else {
      var t, rest := terms[0], terms[1..];
      assert forall x :: x in terms <==> x == t || x in rest;
      assert t !in rest by {
        forall k | 0 <= k < |rest| ensures rest[k] != t { assert rest[k] == terms[k + 1]; }
      }
      assert forall x :: x in all <==> x == t || x in rest || open == Some(x);
      if SatAt(log, |log|, t) {
        PropagateFromOutcome(log, rest, open);
      } else if ContraAt(log, |log|, t) {
      } else if open.None? {
        PropagateFromOutcome(log, rest, Some(t));
      } else {
        assert open.value in all && t in all;
      }
    }
  }

  lemma PropagateOutcome(log: Log, i: Incompatibility)
    requires Distinct(i.terms)
    ensures var r := Propagate(log, i);
            && (r.Conflict? <==> AllSatAt(log, |log|, i.terms))
            && (r.Derived? ==> OneOpen(log, i.terms, r.term))
            && (r.Quiet? ==>
                  || (exists t :: t in i.terms && !SatAt(log, |log|, t) && ContraAt(log, |log|, t))
                  || (exists t, t' :: t in i.terms && t' in i.terms && t != t'
                                      && !SatAt(log, |log|, t) && !SatAt(log, |log|, t')))
  {
    PropagateFromOutcome(log, i.terms, None);
    assert i.terms + [] == i.terms;
  }

  /** Exactly one open term is exactly when something is derived, and then that term. */
  lemma OneOpenIsDerived(log: Log, i: Incompatibility, open: Term)
    requires Distinct(i.terms) && OneOpen(log, i.terms, open)
    ensures Propagate(log, i) == Derived(open)
  {
    PropagateOutcome(log, i);
  }

  lemma {:induction false} PropagateLast(log: Log, y: Term, open: Option<Term>)
    ensures PropagateFrom(log, [y], open) ==
            if SatAt(log, |log|, y) then (match open case None => Conflict case Some(t) => Derived(t))
            else if ContraAt(log, |log|, y) || open.Some? then Quiet
            else Derived(y)
  {
    assert [y][1..] == [];
  }

  lemma {:induction false} PropagateTwo(log: Log, i: Incompatibility)
    requires |i.terms| == 2
    ensures var x, y := i.terms[0], i.terms[1];
            Propagate(log, i) ==
            if SatAt(log, |log|, x) then
              (if SatAt(log, |log|, y) then Conflict else if ContraAt(log, |log|, y) then Quiet else Derived(y))
            else if ContraAt(log, |log|, x) then Quiet
            else if SatAt(log, |log|, y) then Derived(x) else Quiet
  {
    var x, y := i.terms[0], i.terms[1];
    assert i.terms[1..] == [y] && [y][1..] == [];
    PropagateLast(log, y, None);
    PropagateLast(log, y, Some(x));
  }

  lemma {:induction false} PropagateOne(log: Log, i: Incompatibility)
    requires |i.terms| == 1
    ensures var x := i.terms[0];
            Propagate(log, i) ==
            if SatAt(log, |log|, x) then Conflict else if ContraAt(log, |log|, x) then Quiet else Derived(x)
  {
    assert i.terms == [i.terms[0]];
    PropagateLast(log, i.terms[0], None);
  }

  // ---------- The store of incompatibilities ----------

  type Store = map<Subject, seq<Incompatibility>>

  function ListFor(store: Store, s: Subject): seq<Incompatibility> {
    if s in store then store[s] else []
  }

  function AddUnder(store: Store, i: Incompatibility, terms: seq<Term>): Store
    decreases |terms|
  {
    if terms == [] then store
    else
      var s := SubjectOf(terms[0]);
      AddUnder(store[s := ListFor(store, s) + [i]], i, terms[1..])
  }

  /** Files the incompatibility under the subject of each of its terms. */
  function Add(store: Store, i: Incompatibility): Store {
    AddUnder(store, i, i.terms)
  }

  function AddFacts(u: Universe, store: Store, pv: PackageVersion, reqs: seq<Requirement>): Store
    decreases |reqs|
  {
    if reqs == [] then store
    else AddFacts(u, Add(store, Fact(u, pv, reqs[0])), pv, reqs[1..])
  }

  // ---------- Choosing a version ----------

  /** Packages that are required but not decided yet. */
  function Undecided(u: Universe, log: Log): (r: map<Name, Term>)
    ensures forall n :: n in r ==> r[n].VersionConstraint? && r[n].positive
  {
    map n | n in u.names && TermAt(log, |log|, Package(n)).Some? && TermAt(log, |log|, Package(n)).value.positive
            && Package(n) !in DecisionsAt(log, |log|)
      :: TermAt(log, |log|, Package(n)).value
  }

  function ValidVersions(u: Universe, n: Name, t: Term): set<Version>
    requires t.VersionConstraint?
  {
    Usable(u, n) * t.versions
  }

  /** Fewer valid versions first, then the smaller name. */
  predicate Precedes(u: Universe, open: map<Name, Term>, n: Name, m: Name)
    requires n in open && m in open && open[n].VersionConstraint? && open[m].VersionConstraint?
  {
    var a, b := |ValidVersions(u, n, open[n])|, |ValidVersions(u, m, open[m])|;
    a < b || (a == b && n <= m)
  }

  ghost predicate IsBest(u: Universe, open: map<Name, Term>, n: Name)
    requires forall m :: m in open ==> open[m].VersionConstraint?
  {
    n in open && forall m :: m in open ==> Precedes(u, open, n, m)
  }

  lemma {:induction false} BestExists(u: Universe, open: map<Name, Term>, among: set<Name>) returns (n: Name)
    requires among != {} && among <= open.Keys
    requires forall m :: m in open ==> open[m].VersionConstraint?
    ensures n in among && forall m :: m in among ==> Precedes(u, open, n, m)
    decreases among
  {
    var a := AnyOf(among);
    n := a;
    if among != {a} {
      assert among - {a} != {};
      var b := BestExists(u, open, among - {a});
      if !Precedes(u, open, a, b) { n := b; }
      forall m | m in among ensures Precedes(u, open, n, m) {
        if m != a { assert m in among - {a}; }
      }
    }
  }

  ghost function Best(u: Universe, open: map<Name, Term>): (n: Name)
    requires open != map[] && forall m :: m in open ==> open[m].VersionConstraint?
    ensures IsBest(u, open, n)
    ensures n in open && forall m :: m in open ==>
              var a, b := |Usable(u, n) * open[n].versions|, |Usable(u, m) * open[m].versions|;
              a <= b && (a == b ==> n <= m)
  {
    assert exists n :: IsBest(u, open, n) by {
      assert open.Keys != {};
      var n := BestExists(u, open, open.Keys);
      assert IsBest(u, open, n);
    }
    var n :| IsBest(u, open, n);
    assert forall m :: m in open ==> Precedes(u, open, n, m);
    n
  }

  lemma BestIsUnique(u: Universe, open: map<Name, Term>, n: Name, m: Name)
    requires forall x :: x in open ==> open[x].VersionConstraint?
    requires IsBest(u, open, n) && IsBest(u, open, m)
    ensures n == m
  {
    assert Precedes(u, open, n, m) && Precedes(u, open, m, n);
  }

  /** The newest valid version, or the oldest one for a package marked for downgrade. */
  ghost predicate IsBestVersion(u: Universe, n: Name, valid: set<Version>, v: Version) {
    v in valid && forall w :: w in valid ==> if n in u.downgrades then v <= w else w <= v
  }

  lemma {:induction false} BestVersionExists(u: Universe, n: Name, valid: set<Version>) returns (v: Version)
    requires valid != {}
    ensures IsBestVersion(u, n, valid, v)
    decreases valid
  {
    var a := AnyOf(valid);
    v := a;
    if valid != {a} {
      assert valid - {a} != {};
      var b := BestVersionExists(u, n, valid - {a});
      if if n in u.downgrades then b < a else a < b { v := b; }
      forall w | w in valid ensures if n in u.downgrades then v <= w else w <= v {
        if w != a { assert w in valid - {a}; }
      }
    }
  }

  ghost function BestVersion(u: Universe, n: Name, valid: set<Version>): (v: Version)
    requires valid != {}
    ensures IsBestVersion(u, n, valid, v)
    ensures v in valid && (n in u.downgrades ==> forall w :: w in valid ==> v <= w)
    ensures n !in u.downgrades ==> forall w :: w in valid ==> w <= v
  {
    assert exists v :: IsBestVersion(u, n, valid, v) by { var v := BestVersionExists(u, n, valid); }
    var v :| IsBestVersion(u, n, valid, v);
    v
  }

  predicate SameSubjects(terms: seq<Term>) {
    forall t :: t in terms ==> SubjectOf(t) == SubjectOf(terms[0])
  }

  /** All terms are satisfied, or all are about one package. */
  predicate IsConflict(log: Log, i: Incompatibility) {
    AllSatAt(log, |log|, i.terms) || SameSubjects(i.terms)
  }

  // ---------- States and steps ----------

  /** What the work queue holds: a package name, or by mistake something else. */
  datatype Item = Changed(subject: Subject) | NotASubject

  datatype Phase =
    | Scan(item: Item, next: nat)
    | Choosing
    | Solved
    | Unsolvable(failure: Incompatibility)
    | Broken
    | Wedged

  datatype State = State(
    phase: Phase,
    log: Log,
    store: Store,
    listed: set<PackageVersion>,
    queue: seq<Item>)

  function ListOf(store: Store, item: Item): seq<Incompatibility> {
    if item.Changed? then ListFor(store, item.subject) else []
  }

  function Derive(log: Log, open: Term, i: Incompatibility): Log {
    log + [Assignment(Inverse(open), Level(log), |log|, Some(IncompatibilityCause(i)))]
  }

  function Decide(u: Universe, log: Log, pv: PackageVersion): Log {
    log + [Assignment(DependeeTerm(u, pv), Level(log) + 1, |log|, None)]
  }

  function Init(u: Universe): State {
    State(Scan(Changed(Root), 0), Decide(u, [], RootVersion),
          AddFacts(u, map[], RootVersion, u.requirements), {RootVersion}, [])
  }

  /** Backtrack, record the root cause and propagate it. */
  function Learn(st: State, i: Incompatibility, level: nat, rootCause: Incompatibility, phase: Phase): State {
    var log := Cut(st.log, level);
    var store := if rootCause != i then Add(st.store, rootCause) else st.store;
    match Propagate(log, rootCause)
    case Derived(t) =>
      State(phase, Derive(log, t, rootCause), store, st.listed, st.queue + [Changed(SubjectOf(t))])
    case _ => State(phase, log, store, st.listed, st.queue + [NotASubject])
  }

  function Examine(st: State, i: Incompatibility, phase: Phase): State {
    match Propagate(st.log, i)
    case Quiet => st.(phase := phase)
    case Derived(t) =>
      st.(phase := phase, log := Derive(st.log, t, i), queue := st.queue + [Changed(SubjectOf(t))])
    case Conflict =>
      match Resolve(st.log, i, |st.log|)
      case Failed(failure) => st.(phase := Unsolvable(failure))
      case MergeError => st.(phase := Broken)
      case Stuck => st.(phase := Wedged)
      case Learned(level, rootCause) => Learn(st, i, level, rootCause, phase)
  }

  /** List the facts of a version and decide on it unless one of them conflicts. */
  ghost function Select(u: Universe, st: State, n: Name, v: Version): State {
    var pv := Release(n, v);
    var reqs := if pv in st.listed then [] else Dependencies(u, pv);
    var conflict := exists r :: r in reqs && IsConflict(st.log, Fact(u, pv, r));
    State(Scan(Changed(Package(n)), 0),
          if conflict then st.log else Decide(u, st.log, pv),
          AddFacts(u, st.store, pv, reqs), st.listed + {pv}, [])
  }

  ghost function Choose(u: Universe, st: State): State {
    var open := Undecided(u, st.log);
    if open == map[] then st.(phase := Solved)
    else
      var n := Best(u, open);
      var valid := ValidVersions(u, n, open[n]);
      if valid == {} then
        st.(phase := Scan(Changed(Package(n)), 0), queue := [],
            store := Add(st.store, NoVersionsFact(u, n, open[n].versions)))
      else Select(u, st, n, BestVersion(u, n, valid))
  }

  ghost function Step(u: Universe, st: State): State {
    match st.phase
    case Scan(item, next) =>
      var list := ListOf(st.store, item);
      if next < |list| then Examine(st, list[next], Scan(item, next + 1))
      else if st.queue != [] then st.(phase := Scan(st.queue[0], 0), queue := st.queue[1..])
      else st.(phase := Choosing)
    case Choosing => Choose(u, st)
    case _ => st
  }

  predicate Final(st: State) {
    !st.phase.Scan? && !st.phase.Choosing?
  }

  /** The state after `k` steps. */
  ghost function Run(u: Universe, k: nat): State {
    if k == 0 then Init(u) else Step(u, Run(u, k - 1))
  }

  /** `run` is the machine's run, as a value. */
  ghost predicate IsRun(u: Universe, run: nat -> State) {
    forall k: nat {:trigger Run(u, k)} :: run(k) == Run(u, k)
  }
}
