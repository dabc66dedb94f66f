/** One choice of a package version, as a relation between the states before and after. */
module Choices {
  import opened Terms
  import opened Universes
  import opened Resolution
  import opened Logs
  import opened Machine
  import opened Invariants
  import opened Orders
  import opened Preferences

  /** The log requires the package and has no decision on it. */
  predicate Pending(u: Universe, log: Log, n: Name) {
    n in u.names && Wanted(log, |log|, n) && Package(n) !in DecisionsAt(log, |log|)
  }

  /** No usable version is left: that is put on record as a fact about what the log says, and nothing is decided. */
  ghost predicate Despairs(u: Universe, st: State, next: State, n: Name)
    requires Wanted(st.log, |st.log|, n)
  {
    && next.log == st.log && next.listed == st.listed
    && exists f: Incompatibility ::
         && ListFor(next.store, Package(n)) == ListFor(st.store, Package(n)) + [f]
         && f.terms == [TermAt(st.log, |st.log|, Package(n)).value]
         && (f.cause == NoVersionsCause <==> AllVersions(u, n) != {})
         && (f.cause == PackageNotFoundCause <==> AllVersions(u, n) == {})
  }

  /** A dependency of the version is on its own package, or it is broken already by what the log says. */
  predicate AlreadyBroken(u: Universe, log: Log, n: Name, v: Version, r: Requirement) {
    r.name == n || (SatAt(log, |log|, DependeeTerm(u, Release(n, v))) && SatAt(log, |log|, DependencyTerm(u, r)))
  }

  /** The best remaining version is listed, and decided unless it was not listed before and a dependency is broken. */
  ghost predicate Takes(u: Universe, st: State, next: State, n: Name, v: Version)
    requires Wanted(st.log, |st.log|, n)
  {
    && v in Remaining(u, st.log, |st.log|, n)
    && (forall w :: w in Remaining(u, st.log, |st.log|, n) ==> AtLeastAsGood(u, n, v, w))
    && next.listed == st.listed + {Release(n, v)}
    && if Release(n, v) !in st.listed && exists r :: r in Dependencies(u, Release(n, v)) && AlreadyBroken(u, st.log, n, v, r)
       then next.log == st.log
       else next.log == st.log + [Assignment(VersionConstraint(n, {v}, true, AllVersions(u, n)), Level(st.log) + 1, |st.log|, None)]
  }

  /** The choice falls on the most constrained pending package, which is scanned next. */
  ghost predicate Chooses(u: Universe, st: State, next: State, n: Name) {
    && Pending(u, st.log, n) && (forall m :: Pending(u, st.log, m) ==> MoreConstrained(u, st.log, |st.log|, n, m))
    && next.phase == Scan(Changed(Package(n)), 0) && next.queue == []
    && if Remaining(u, st.log, |st.log|, n) == {} then Despairs(u, st, next, n) else exists v :: Takes(u, st, next, n, v)
  }

  lemma PendingIsUndecided(u: Universe, log: Log)
    ensures forall n :: n in Undecided(u, log) <==> Pending(u, log, n)
    ensures forall n :: Pending(u, log, n) ==> Undecided(u, log)[n] == TermAt(log, |log|, Package(n)).value
  {
  }

  lemma MostConstrained(u: Universe, log: Log, n: Name)
    requires IsBest(u, Undecided(u, log), n)
    ensures Pending(u, log, n) && forall m :: Pending(u, log, m) ==> MoreConstrained(u, log, |log|, n, m)
  {
    PendingIsUndecided(u, log);
    forall m | Pending(u, log, m) ensures MoreConstrained(u, log, |log|, n, m) {
      assert Precedes(u, Undecided(u, log), n, m);
    }
  }

  lemma NoVersionsOutcome(u: Universe, st: State, n: Name)
    requires GoodLog(u, st.log) && Undecided(u, st.log) != map[] && n == Best(u, Undecided(u, st.log))
    requires Pending(u, st.log, n) && Remaining(u, st.log, |st.log|, n) == {}
    ensures var next := Choose(u, st);
            next.phase == Scan(Changed(Package(n)), 0) && next.queue == [] && Despairs(u, st, next, n)
  {
    DespairOutcome(u, st, Choose(u, st), n);
  }

  lemma VersionOutcome(u: Universe, st: State, n: Name)
    requires Undecided(u, st.log) != map[] && n == Best(u, Undecided(u, st.log))
    requires Pending(u, st.log, n) && Remaining(u, st.log, |st.log|, n) != {}
    ensures var next := Choose(u, st);
            next.phase == Scan(Changed(Package(n)), 0) && next.queue == [] && exists v :: Takes(u, st, next, n, v)
  {
    SelectOutcome(u, st, n, BestVersion(u, n, Remaining(u, st.log, |st.log|, n)));
  }

  lemma PackageOutcome(u: Universe, st: State, next: State, n: Name)
    requires GoodLog(u, st.log) && Undecided(u, st.log) != map[] && n == Best(u, Undecided(u, st.log))
    requires next == Choose(u, st)
    ensures Chooses(u, st, next, n)
  {
    MostConstrained(u, st.log, n);
    if Remaining(u, st.log, |st.log|, n) == {} { NoVersionsOutcome(u, st, n); } else { VersionOutcome(u, st, n); }
  }

  /** Solving ends when nothing is pending; otherwise the most constrained pending package is next. */
  lemma ChooseOutcome(u: Universe, st: State)
    requires Inv(u, st) && st.phase.Choosing?
    ensures (forall n :: !Pending(u, st.log, n)) ==> Step(u, st) == st.(phase := Solved)
    ensures (exists n :: Pending(u, st.log, n)) ==> exists n :: Chooses(u, st, Step(u, st), n)
  {
    PendingIsUndecided(u, st.log);
    if n :| Pending(u, st.log, n) {
      assert n in Undecided(u, st.log);
      PackageOutcome(u, st, Step(u, st), Best(u, Undecided(u, st.log)));
    } else {
      assert Undecided(u, st.log) == map[];
    }
  }

  lemma DespairOutcome(u: Universe, st: State, next: State, n: Name)
    requires GoodLog(u, st.log) && Pending(u, st.log, n) && next.log == st.log && next.listed == st.listed
    requires next.store == Add(st.store, NoVersionsFact(u, n, TermAt(st.log, |st.log|, Package(n)).value.versions))
    ensures Despairs(u, st, next, n)
  {
    var t := TermAt(st.log, |st.log|, Package(n)).value;
    TermAtIsGood(u, st.log, |st.log|, Package(n));
    var f := NoVersionsFact(u, n, t.versions);
    assert f.terms == [t] && f.terms[0] in f.terms && Mentions(f.terms, Package(n));
    FiledOnce(st.store, f, f.terms, Package(n));
  }

  lemma SelectOutcome(u: Universe, st: State, n: Name, v: Version)
    requires Pending(u, st.log, n) && IsBestVersion(u, n, Remaining(u, st.log, |st.log|, n), v)
    ensures Takes(u, st, Select(u, st, n, v), n, v)
  {
    var pv := Release(n, v);
    forall r ensures IsConflict(st.log, Fact(u, pv, r)) <==> AlreadyBroken(u, st.log, n, v, r) {
      var f := Fact(u, pv, r);
      assert f.terms[0] in f.terms && f.terms[1] in f.terms;
      assert forall t :: t in f.terms ==> t == f.terms[0] || t == f.terms[1];
    }
  }
}
