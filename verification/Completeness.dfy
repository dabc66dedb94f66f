/** Inputs on which a failure always means that there is no solution. */
module Completeness {
  import opened Terms
  import opened Universes
  import opened Resolution
  import opened Machine
  import opened Invariants
  import opened Mergeable

  /** The versions that a solution may have to avoid: they need something, or cannot be fetched. */
  function Troublesome(u: Universe, n: Name): set<Version> {
    set v | v in AllVersions(u, n) && (Release(n, v) !in u.dependencies || u.dependencies[Release(n, v)] != [])
  }

  predicate Asks(reqs: seq<Requirement>, n: Name) {
    exists r :: r in reqs && r.name == n
  }

  /** Whichever usable version of `m` is taken, it needs `n`. */
  predicate Demands(u: Universe, m: Name, n: Name) {
    forall v :: v in Usable(u, m) ==> Asks(Dependencies(u, Release(m, v)), n)
  }

  /** Required directly, or by every usable version of a mandatory package, at most `k` levels down. */
  ghost predicate Mandatory(u: Universe, n: Name, k: nat)
    decreases k
  {
    || Asks(u.requirements, n)
    || (k > 0 && exists m :: Demands(u, m, n) && Mandatory(u, m, k - 1))
  }

  /** Every package is mandatory or has at most one troublesome version. */
  ghost predicate Forgiving(u: Universe) {
    forall n :: n in u.names ==> |Troublesome(u, n)| <= 1 || exists k: nat :: Mandatory(u, n, k)
  }

  lemma {:induction false} MandatoryIsUnavoidable(u: Universe, n: Name, k: nat)
    requires Mandatory(u, n, k)
    ensures Unavoidable(u, n)
    decreases k
  {
    forall choice | ValidSolution(u, choice) ensures n in choice {
      if Asks(u.requirements, n) {
        var r :| r in u.requirements && r.name == n;
        assert Meets(u, choice, r);
      } else {
        var m :| Demands(u, m, n) && Mandatory(u, m, k - 1);
        MandatoryIsUnavoidable(u, m, k - 1);
        assert m in choice && choice[m] in Usable(u, m);
        var r :| r in Dependencies(u, Release(m, choice[m])) && r.name == n;
        assert Meets(u, choice, r);
      }
    }
  }

  /** Positive terms speak only about troublesome versions. */
  ghost predicate NamesTrouble(u: Universe, t: Term) {
    t.VersionConstraint? && t.positive ==> Allowed(t) <= Troublesome(u, t.name)
  }

  ghost predicate AllNameTrouble(u: Universe, terms: seq<Term>) {
    forall t :: t in terms ==> NamesTrouble(u, t)
  }

  lemma FactsNameTrouble(u: Universe, i: Incompatibility)
    requires IsFact(u, i)
    ensures AllNameTrouble(u, i.terms)
  {
    if pv, r :| Listable(u, pv) && r in Dependencies(u, pv) && i == Fact(u, pv, r) {
      assert NamesTrouble(u, DependeeTerm(u, pv)) && NamesTrouble(u, DependencyTerm(u, r));
    } else {
      var n, vs :| n in u.names && vs * Usable(u, n) == {} && i == NoVersionsFact(u, n, vs);
      forall v | v in vs && v in AllVersions(u, n) ensures Release(n, v) !in u.dependencies {
        assert v !in vs * Usable(u, n);
      }
    }
  }

  lemma MergedNameTrouble(u: Universe, terms: seq<Term>)
    requires GoodTerms(u, terms) && Merge(terms).Some? && AllNameTrouble(u, terms)
    ensures AllNameTrouble(u, Merge(terms).value)
  {
    var r := Merge(terms).value;
    forall m | m in r ensures NamesTrouble(u, m) {
      if m.VersionConstraint? && m.positive {
        var s := SubjectOf(m);
        MergeMeaning(u, terms, s);
        MeaningMembers(m);
        assert !Accepts(r, s, Absent);
        var x :| x in terms && SubjectOf(x) == s && Absent !in Meaning(x);
        MeaningMembers(x);
        assert GoodTerm(u, x) && GoodTerm(u, m);
        forall v | v in Allowed(m) ensures v in Troublesome(u, m.name) {
          forall y | y in r && SubjectOf(y) == s ensures At(v) in Meaning(y) { DistinctBySubject(r, m, y); }
          assert Accepts(r, s, At(v));
          assert At(v) in Meaning(x);
        }
      }
    }
  }

  lemma {:induction false} DerivedNameTrouble(u: Universe, i: Incompatibility)
    requires Derivable(u, i)
    ensures AllNameTrouble(u, i.terms)
  {
    match i.cause
    case ConflictCause(conflict, other, t, a) =>
      DerivedNameTrouble(u, conflict);
      DerivedNameTrouble(u, other);
      NewTermsAreGood(u, conflict.terms, other.terms, t, a);
      MergedNameTrouble(u, NewTerms(conflict.terms, other.terms, t, a));
    case _ => FactsNameTrouble(u, i);
  }

  lemma TwoMembers<T>(s: set<T>, x: T, y: T)
    requires x in s && y in s && x != y
    ensures |s| >= 2
  {
    assert |s - {x}| == |s| - 1 && y in s - {x};
  }

  /** On a forgiving input no derivation does harm. */
  lemma {:induction false} ForgivingIsHarmless(u: Universe, i: Incompatibility)
    requires Forgiving(u) && Derivable(u, i)
    ensures Harmless(u, i)
  {
    match i.cause
    case ConflictCause(conflict, other, t, a) =>
      ForgivingIsHarmless(u, conflict);
      ForgivingIsHarmless(u, other);
      if Lossy(a, t) {
        DerivedNameTrouble(u, conflict);
        DerivedNameTrouble(u, other);
        assert NamesTrouble(u, t) && NamesTrouble(u, Inverse(a));
        var v, w :| v in Allowed(t) && w in Allowed(Inverse(a)) && v != w;
        TwoMembers(Troublesome(u, a.name), v, w);
        var k: nat :| Mandatory(u, a.name, k);
        MandatoryIsUnavoidable(u, a.name, k);
      }
    case _ =>
  }

  /** Each run on a forgiving input ends in a solution exactly when there is one. */
  lemma RunDecides(u: Universe, k: nat)
    requires GoodUniverse(u) && Satisfiable(u) && Forgiving(u) && Final(Run(u, k))
    ensures Run(u, k).phase.Solved? <==> exists choice :: ValidSolution(u, choice)
  {
    RunOutcome(u, k, map[]);
    RunNeverBreaks(u, k);
    var st := Run(u, k);
    if st.phase.Unsolvable? {
      ForgivingIsHarmless(u, st.phase.failure);
      forall choice ensures !ValidSolution(u, choice) { RunOutcome(u, k, choice); }
    }
  }
}
