/** The packages a resolve works with, the facts they give rise to, and what a solution is. */
module Universes {
  import opened Terms

  datatype PackageVersion = RootVersion | Release(name: Name, version: Version)

  /** One entry of a dependency dictionary: a package name and the acceptable versions. */
  datatype Requirement = Requirement(name: Name, versions: set<Version>)

  /**
   * `versions` and `dependencies` are what the package index answers; a missing key is a
   * PackageNotFoundError. `names` bounds the packages that a resolve can meet.
   */
  datatype Universe = Universe(
    names: set<Name>,
    versions: map<Name, set<Version>>,
    dependencies: map<PackageVersion, seq<Requirement>>,
    requirements: seq<Requirement>,
    overrides: map<Name, set<Version>>,
    downgrades: set<Name>)

  /** What the index answers for a package; nothing for a package that is not found. */
  function VersionsIn(versions: map<Name, set<Version>>, n: Name): set<Version> {
    if n in versions then versions[n] else {}
  }

  function AllVersions(u: Universe, n: Name): set<Version> {
    VersionsIn(u.versions, n)
  }

  function Dependencies(u: Universe, pv: PackageVersion): seq<Requirement> {
    if pv.RootVersion? then u.requirements
    else if pv in u.dependencies then u.dependencies[pv] else []
  }

  /** Versions that exist and whose dependencies can be fetched. */
  function Usable(u: Universe, n: Name): set<Version> {
    set v | v in AllVersions(u, n) && Release(n, v) in u.dependencies
  }

  function Acceptable(u: Universe, r: Requirement): set<Version> {
    if r.name in u.overrides then u.overrides[r.name] else r.versions
  }

  predicate Known(u: Universe, pv: PackageVersion) {
    pv.RootVersion? || (pv.name in u.names && pv.version in AllVersions(u, pv.name))
  }

  predicate Listable(u: Universe, pv: PackageVersion) {
    pv.RootVersion? || (pv.name in u.names && pv.version in Usable(u, pv.name))
  }

  /** Every package that a known version depends on is among the names. */
  ghost predicate Closed(u: Universe) {
    forall pv, r :: Known(u, pv) && r in Dependencies(u, pv) ==> r.name in u.names
  }

  predicate IsSelf(pv: PackageVersion, r: Requirement) {
    pv.Release? && r.name == pv.name
  }

  /** Every dependency on package `n`, after overrides, accepts at least one version that exists. */
  ghost predicate SatisfiableFor(u: Universe, n: Name) {
    forall pv, r :: Known(u, pv) && r in Dependencies(u, pv) && r.name == n ==> Acceptable(u, r) * AllVersions(u, n) != {}
  }

  /** A version may depend on its own package, if it accepts itself and every dependency on the package is satisfiable. */
  ghost predicate SelfAccepting(u: Universe) {
    forall pv, r :: Known(u, pv) && r in Dependencies(u, pv) && IsSelf(pv, r) ==>
                      pv.version in Acceptable(u, r) && SatisfiableFor(u, r.name)
  }

  /** Every dependency, after overrides, accepts at least one version that exists. */
  ghost predicate Satisfiable(u: Universe) {
    forall pv, r :: Known(u, pv) && r in Dependencies(u, pv) ==> Acceptable(u, r) * AllVersions(u, r.name) != {}
  }

  // ---------- Solutions ----------

  type Choice = map<Name, Version>

  predicate Meets(u: Universe, choice: Choice, r: Requirement) {
    r.name in choice && choice[r.name] in Acceptable(u, r)
  }

  ghost predicate ValidSolution(u: Universe, choice: Choice) {
    && (forall r :: r in u.requirements ==> Meets(u, choice, r))
    && (forall n :: n in choice ==>
          && choice[n] in Usable(u, n)
          && forall r :: r in Dependencies(u, Release(n, choice[n])) ==> Meets(u, choice, r))
  }

  function PickFor(choice: Choice, s: Subject): Pick {
    match s
    case Root => At(0)
    case Package(n) => if n in choice then At(choice[n]) else Absent
  }

  predicate HoldsIn(choice: Choice, t: Term) {
    Holds(t, PickFor(choice, SubjectOf(t)))
  }

  // ---------- Incompatibilities ----------

  datatype Cause =
    | DependencyCause
    | OverrideCause
    | NoVersionsCause
    | PackageNotFoundCause
    | ConflictCause(conflict: Incompatibility, other: Incompatibility, resolved: Term, satisfier: Term)
    | IncompatibilityCause(incompatibility: Incompatibility)

  /** The terms must not all hold together. */
  datatype Incompatibility = Incompatibility(terms: seq<Term>, cause: Cause)

  predicate IsFailure(i: Incompatibility) {
    |i.terms| == 0 || (|i.terms| == 1 && i.terms[0].RootConstraint?)
  }

  ghost predicate Violates(choice: Choice, i: Incompatibility) {
    forall t :: t in i.terms ==> HoldsIn(choice, t)
  }

  function DependeeTerm(u: Universe, pv: PackageVersion): Term {
    match pv
    case RootVersion => RootConstraint(true)
    case Release(n, v) => VersionConstraint(n, {v}, true, AllVersions(u, n))
  }

  function DependencyTerm(u: Universe, r: Requirement): Term {
    VersionConstraint(r.name, Acceptable(u, r), false, AllVersions(u, r.name))
  }

  /** "pv depends on r": pv and the absence of every acceptable version exclude each other. */
  function Fact(u: Universe, pv: PackageVersion, r: Requirement): Incompatibility {
    Incompatibility([DependeeTerm(u, pv), DependencyTerm(u, r)],
                    if r.name in u.overrides then OverrideCause else DependencyCause)
  }

  function NoVersionsFact(u: Universe, n: Name, versions: set<Version>): Incompatibility {
    Incompatibility([VersionConstraint(n, versions, true, AllVersions(u, n))],
                    if AllVersions(u, n) != {} then NoVersionsCause else PackageNotFoundCause)
  }

  ghost predicate IsFact(u: Universe, i: Incompatibility) {
    || (exists pv, r :: Listable(u, pv) && r in Dependencies(u, pv) && i == Fact(u, pv, r))
    || (exists n, vs :: n in u.names && vs * Usable(u, n) == {} && i == NoVersionsFact(u, n, vs))
  }

  lemma FactsHoldInSolutions(u: Universe, choice: Choice, i: Incompatibility)
    requires IsFact(u, i) && ValidSolution(u, choice)
    ensures !Violates(choice, i)
  {
    if pv, r :| Listable(u, pv) && r in Dependencies(u, pv) && i == Fact(u, pv, r) {
      if HoldsIn(choice, DependeeTerm(u, pv)) {
        assert Meets(u, choice, r);
        assert !HoldsIn(choice, DependencyTerm(u, r));
        assert DependencyTerm(u, r) == i.terms[1];
      } else {
        assert DependeeTerm(u, pv) == i.terms[0];
      }
    } else {
      var n, vs :| n in u.names && vs * Usable(u, n) == {} && i == NoVersionsFact(u, n, vs);
      assert i.terms[0] in i.terms;
      if n in choice { assert choice[n] !in vs * Usable(u, n); }
    }
  }

  // ---------- Well-formed terms ----------

  predicate GoodTerm(u: Universe, t: Term) {
    match t
    case RootConstraint(positive) => positive
    case VersionConstraint(n, _, _, all) => n in u.names && all == AllVersions(u, n)
  }

  predicate Distinct(terms: seq<Term>) {
    forall i, j :: 0 <= i < j < |terms| ==> SubjectOf(terms[i]) != SubjectOf(terms[j])
  }

  ghost predicate GoodTerms(u: Universe, terms: seq<Term>) {
    forall t :: t in terms ==> GoodTerm(u, t)
  }

  lemma DistinctBySubject(terms: seq<Term>, t: Term, o: Term)
    requires Distinct(terms) && t in terms && o in terms && SubjectOf(t) == SubjectOf(o)
    ensures t == o
  {
  }

  lemma FactIsGood(u: Universe, pv: PackageVersion, r: Requirement)
    requires Closed(u) && Listable(u, pv) && r in Dependencies(u, pv) && !IsSelf(pv, r)
    ensures IsFact(u, Fact(u, pv, r))
    ensures Distinct(Fact(u, pv, r).terms) && GoodTerms(u, Fact(u, pv, r).terms)
  {
    assert Known(u, pv);
  }

  lemma GoodPick(u: Universe, choice: Choice, t: Term)
    requires ValidSolution(u, choice) && GoodTerm(u, t)
    ensures HoldsIn(choice, t) <==> PickFor(choice, SubjectOf(t)) in Meaning(t)
    ensures PickFor(choice, SubjectOf(t)) in Domain(t)
  {
  }
}
