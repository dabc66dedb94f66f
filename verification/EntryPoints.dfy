/** The entry points: resolve a set of requirements, and print the resolved graph. */
module EntryPoints {
  import opened Terms
  import opened Universes
  import opened Resolution
  import opened Logs
  import opened Machine
  import opened Invariants
  import opened Mergeable
  import opened Completeness
  import opened Preferences
  import opened Walks
  import opened Graphs
  import opened Configs
  import opened Resolvers
  import opened ResultGraphs

  /** ExclusiveTerms is the "mutually exclusive terms" error. */
  datatype Outcome =
    | Solution(decided: set<PackageVersion>)
    | NoSolution(failure: Incompatibility)
    | ExclusiveTerms

  /** The input as given, before the walk finds out which packages matter. */
  function Input(ix: Index, reqs: seq<Requirement>, pins: map<Name, set<Version>>, down: set<Name>): Universe {
    Universe(AllNames(ix, reqs), ix.versions, ix.releases, reqs, pins, down)
  }

  /** The versions that a requirement asks for: the pin of the package, if there is one. */
  function Asked(pins: map<Name, set<Version>>, r: Requirement): set<Version> {
    if r.name in pins then pins[r.name] else r.versions
  }

  /** The package is in the index with this version, and the version can be fetched. */
  predicate Offers(ix: Index, n: Name, v: Version) {
    n in ix.versions && v in ix.versions[n] && Release(n, v) in ix.releases
  }

  /** The choice has an asked version for the package of the requirement. */
  predicate Grants(pins: map<Name, set<Version>>, choice: Choice, r: Requirement) {
    r.name in choice && choice[r.name] in Asked(pins, r)
  }

  /** The choice takes versions that the index offers and grants all requirements, its own and those given. */
  ghost predicate Resolves(ix: Index, reqs: seq<Requirement>, pins: map<Name, set<Version>>, choice: Choice) {
    && (forall r :: r in reqs ==> Grants(pins, choice, r))
    && (forall n :: n in choice ==> Offers(ix, n, choice[n]))
    && (forall n, r :: n in choice && r in ix.releases[Release(n, choice[n])] ==> Grants(pins, choice, r))
  }

  lemma ResolvesIsValid(ix: Index, reqs: seq<Requirement>, pins: map<Name, set<Version>>, down: set<Name>, choice: Choice)
    ensures ValidSolution(Input(ix, reqs, pins, down), choice) <==> Resolves(ix, reqs, pins, choice)
  {
    var u := Input(ix, reqs, pins, down);
    assert forall r :: Meets(u, choice, r) <==> Grants(pins, choice, r);
    assert forall n, v :: v in Usable(u, n) <==> Offers(ix, n, v);
  }

  predicate OneVersionEach(decided: set<PackageVersion>) {
    forall p, q :: p in decided && q in decided && p.Release? && q.Release? && p.name == q.name ==> p == q
  }

  function ByName(decided: set<PackageVersion>): Choice
    requires OneVersionEach(decided)
  {
    map p | p in decided && p.Release? :: p.name := p.version
  }

  lemma ByNameOfReleases(choice: Choice)
    ensures var decided := set n | n in choice :: Release(n, choice[n]);
            OneVersionEach(decided) && ByName(decided) == choice
  {
    var decided := set n | n in choice :: Release(n, choice[n]);
    assert forall n :: n in choice ==> Release(n, choice[n]) in decided;
  }

  /** Looking at fewer packages keeps the conditions on the input. */
  lemma ConditionsRestricted(full: Universe, u: Universe)
    requires u.names <= full.names && u == full.(names := u.names)
    ensures SelfAccepting(full) ==> SelfAccepting(u)
    ensures Satisfiable(full) ==> Satisfiable(u)
  {
    assert forall pv :: Known(u, pv) ==> Known(full, pv);
    assert forall pv :: Dependencies(u, pv) == Dependencies(full, pv);
    assert forall r :: Acceptable(u, r) == Acceptable(full, r);
  }

  /** And it does not change what a solution is. */
  lemma Restricted(full: Universe, u: Universe)
    requires u.names <= full.names && u == full.(names := u.names)
    ensures forall choice :: ValidSolution(u, choice) <==> ValidSolution(full, choice)
  {
    assert forall pv :: Dependencies(u, pv) == Dependencies(full, pv);
    assert forall n :: Usable(u, n) == Usable(full, n);
    forall choice ensures ValidSolution(u, choice) <==> ValidSolution(full, choice) {
      assert forall r :: Meets(u, choice, r) <==> Meets(full, choice, r);
    }
  }

  lemma {:induction false} MandatoryRestricted(full: Universe, u: Universe, n: Name, k: nat)
    requires u == full.(names := u.names) && Mandatory(full, n, k)
    ensures Mandatory(u, n, k)
    decreases k
  {
    if !Asks(full.requirements, n) {
      var m :| Demands(full, m, n) && Mandatory(full, m, k - 1);
      MandatoryRestricted(full, u, m, k - 1);
      assert Demands(u, m, n) by {
        forall v | v in Usable(u, m) ensures Asks(Dependencies(u, Release(m, v)), n) { assert v in Usable(full, m); }
      }
    }
  }

  lemma ForgivingRestricted(full: Universe, u: Universe)
    requires u.names <= full.names && u == full.(names := u.names) && Forgiving(full)
    ensures Forgiving(u)
  {
    forall n | n in u.names && |Troublesome(u, n)| > 1 ensures exists k: nat :: Mandatory(u, n, k) {
      assert Troublesome(u, n) == Troublesome(full, n);
      var k: nat :| Mandatory(full, n, k);
      MandatoryRestricted(full, u, n, k);
    }
  }

  lemma FactExtended(full: Universe, u: Universe, i: Incompatibility)
    requires u.names <= full.names && u == full.(names := u.names) && IsFact(u, i)
    ensures IsFact(full, i)
  {
    if pv, r :| Listable(u, pv) && r in Dependencies(u, pv) && i == Fact(u, pv, r) {
      assert Listable(full, pv) && r in Dependencies(full, pv) && i == Fact(full, pv, r);
    } else {
      var n, vs :| n in u.names && vs * Usable(u, n) == {} && i == NoVersionsFact(u, n, vs);
      assert Usable(full, n) == Usable(u, n);
      assert n in full.names && i == NoVersionsFact(full, n, vs);
    }
  }

  lemma {:induction false} DerivableExtended(full: Universe, u: Universe, i: Incompatibility)
    requires u.names <= full.names && u == full.(names := u.names) && Derivable(u, i)
    ensures Derivable(full, i)
  {
    assert forall t: Term :: GoodTerm(u, t) ==> GoodTerm(full, t);
    match i.cause
    case ConflictCause(conflict, other, _, _) =>
      DerivableExtended(full, u, conflict);
      DerivableExtended(full, u, other);
    case _ => FactExtended(full, u, i);
  }

  /** The outcome is what the final state says: the decided versions, the failure, or the error. */
  ghost predicate Reports(st: State, outcome: Outcome) {
    match st.phase
    case Solved =>
      outcome.Solution? && OneVersionEach(outcome.decided) && ByName(outcome.decided) == SolutionOf(st.log)
    case Unsolvable(failure) => outcome == NoSolution(failure)
    case Broken => outcome == ExclusiveTerms
    case _ => false
  }

  /** The run on the packages reachable from the requirements ends with this outcome. */
  ghost predicate EndsWith(ix: Index, reqs: seq<Requirement>, pins: map<Name, set<Version>>, down: set<Name>,
                           names: set<Name>, k: nat, outcome: Outcome) {
    && (forall n :: n in names <==> Reachable(PackageGraph(ix, reqs), n))
    && Reports(Run(Input(ix, reqs, pins, down).(names := names), k), outcome)
  }

  // ---------- Which version ----------

  /** No version that the index offers has dependencies. */
  ghost predicate NoDependencies(ix: Index) {
    forall n, v :: Offers(ix, n, v) ==> ix.releases[Release(n, v)] == []
  }

  /** The index offers the version and every given requirement on the package asks for it. */
  ghost predicate Eligible(ix: Index, reqs: seq<Requirement>, pins: map<Name, set<Version>>, n: Name, v: Version) {
    Offers(ix, n, v) && forall r :: r in reqs && r.name == n ==> v in Asked(pins, r)
  }

  /** Exactly the required packages are decided: in the greatest eligible version, or the least one for a downgrade. */
  ghost predicate TakesNewest(ix: Index, reqs: seq<Requirement>, pins: map<Name, set<Version>>, down: set<Name>, choice: Choice) {
    && (forall n :: n in choice <==> exists r :: r in reqs && r.name == n)
    && (forall n :: n in choice ==> Eligible(ix, reqs, pins, n, choice[n]))
    && (forall n, v :: n in choice && Eligible(ix, reqs, pins, n, v) ==> if n in down then choice[n] <= v else v <= choice[n])
  }

  /** Required directly, or by the chosen version of such a package, at most `k` levels down. */
  ghost predicate RequiredWithin(ix: Index, reqs: seq<Requirement>, choice: Choice, n: Name, k: nat)
    decreases k
  {
    || Asks(reqs, n)
    || (k > 0 && exists m :: m in choice && Asks(FetchedOrEmpty(ix, Release(m, choice[m])), n)
                             && RequiredWithin(ix, reqs, choice, m, k - 1))
  }

  /** Every package of the choice is required, directly or through other chosen versions. */
  ghost predicate AllNeeded(ix: Index, reqs: seq<Requirement>, choice: Choice) {
    forall n :: n in choice ==> exists k: nat :: RequiredWithin(ix, reqs, choice, n, k)
  }

  lemma {:induction false} NeededIsRequired(ix: Index, reqs: seq<Requirement>, u: Universe, choice: Choice, n: Name, k: nat)
    requires u.dependencies == ix.releases && u.requirements == reqs && NeededWithin(u, choice, n, k)
    ensures RequiredWithin(ix, reqs, choice, n, k)
    decreases k
  {
    if !Asks(reqs, n) {
      var m :| m in choice && Asks(Dependencies(u, Release(m, choice[m])), n) && NeededWithin(u, choice, m, k - 1);
      NeededIsRequired(ix, reqs, u, choice, m, k - 1);
    }
  }

  lemma DecidedAreNeeded(ix: Index, reqs: seq<Requirement>, u: Universe, k: nat)
    requires u == Input(ix, reqs, u.overrides, u.downgrades).(names := u.names) && u.names <= AllNames(ix, reqs)
    requires GoodUniverse(u) && Run(u, k).phase.Solved? && Forgiving(Input(ix, reqs, u.overrides, u.downgrades))
    ensures AllNeeded(ix, reqs, SolutionOf(Run(u, k).log))
  {
    ForgivingRestricted(Input(ix, reqs, u.overrides, u.downgrades), u);
    var sol := SolutionOf(Run(u, k).log);
    forall n | n in sol ensures exists j: nat :: RequiredWithin(ix, reqs, sol, n, j) {
      NothingSuperfluous(u, k, n);
      var j: nat :| NeededWithin(u, sol, n, j);
      NeededIsRequired(ix, reqs, u, sol, n, j);
    }
  }

  lemma ReachableIsRequired(ix: Index, reqs: seq<Requirement>, n: Name)
    requires NoDependencies(ix) && Reachable(PackageGraph(ix, reqs), n)
    ensures n in NamesOf(reqs)
  {
    var g := PackageGraph(ix, reqs);
    forall m | m in NamesOf(reqs) ensures Next(g, m) == {} {
      EdgesAreDependencies(ix, reqs, m);
      forall v | v in VersionsIn(ix.versions, m) ensures FetchedOrEmpty(ix, Release(m, v)) == [] {
        assert Release(m, v) in ix.releases ==> Offers(ix, m, v);
      }
    }
    var path :| IsPath(g, n, path);
    PathStaysInside(g, NamesOf(reqs), n, path);
  }

  lemma EligibleIsCandidate(ix: Index, reqs: seq<Requirement>, u: Universe, n: Name, v: Version)
    requires u.versions == ix.versions && u.dependencies == ix.releases && u.requirements == reqs
    ensures v in Candidates(u, n) <==> Eligible(ix, reqs, u.overrides, n, v)
  {
    assert v in Usable(u, n) <==> Offers(ix, n, v);
    assert forall r :: Acceptable(u, r) == Asked(u.overrides, r);
  }

  /** Without dependencies the outcome of every run that succeeds is known in advance. */
  lemma NewestIsTaken(ix: Index, reqs: seq<Requirement>, u: Universe, k: nat)
    requires u.versions == ix.versions && u.dependencies == ix.releases && u.requirements == reqs
    requires forall n :: n in u.names <==> Reachable(PackageGraph(ix, reqs), n)
    requires GoodUniverse(u) && Run(u, k).phase.Solved? && NoDependencies(ix)
    ensures TakesNewest(ix, reqs, u.overrides, u.downgrades, SolutionOf(Run(u, k).log))
  {
    forall n | n in u.names ensures Asks(u.requirements, n) { ReachableIsRequired(ix, reqs, n); }
    forall n, v | n in u.names && v in Usable(u, n) ensures Dependencies(u, Release(n, v)) == [] {
      assert Offers(ix, n, v);
    }
    NewestWins(u, k);
    forall n, v ensures v in Candidates(u, n) <==> Eligible(ix, reqs, u.overrides, n, v) {
      EligibleIsCandidate(ix, reqs, u, n, v);
    }
  }

  /**
   * The outcome is that of the run, which always ends. A returned solution has one version for each package and
   * meets all requirements and dependencies; without dependencies it is the newest one, and on a forgiving input it has
   * only packages that are required. A failure is derived from the facts. It proves that there is no solution when its derivation has no lossy step, and always on a
   * forgiving input. The error about exclusive terms needs a dependency that accepts no existing version.
   */
  method ResolveRequirements(ix: Index, reqs: seq<Requirement>, pins: map<Name, set<Version>>, down: set<Name>)
    returns (outcome: Outcome)
    requires SelfAccepting(Input(ix, reqs, pins, down))
    ensures exists names, k :: EndsWith(ix, reqs, pins, down, names, k, outcome)
    ensures outcome.Solution? ==>
              OneVersionEach(outcome.decided) && Resolves(ix, reqs, pins, ByName(outcome.decided))
    ensures outcome.Solution? && NoDependencies(ix) ==>
              TakesNewest(ix, reqs, pins, down, ByName(outcome.decided))
    ensures outcome.Solution? && Forgiving(Input(ix, reqs, pins, down)) ==>
              AllNeeded(ix, reqs, ByName(outcome.decided))
    ensures outcome.NoSolution? ==>
              IsFailure(outcome.failure) && Derivable(Input(ix, reqs, pins, down), outcome.failure)
    ensures outcome.NoSolution? && (Exact(outcome.failure) || Forgiving(Input(ix, reqs, pins, down))) ==>
              forall choice :: !Resolves(ix, reqs, pins, choice)
    ensures outcome.ExclusiveTerms? ==> !Satisfiable(Input(ix, reqs, pins, down))
  {
    ghost var names, k;
    outcome, names, k := RunToEnd(ix, reqs, pins, down);
    OutcomeIsRight(ix, reqs, pins, down, names, k, outcome);
  }

  /** Builds the graph, runs the solver and reports how it ends. */
  method RunToEnd(ix: Index, reqs: seq<Requirement>, pins: map<Name, set<Version>>, down: set<Name>)
    returns (outcome: Outcome, ghost names: set<Name>, ghost k: nat)
    requires SelfAccepting(Input(ix, reqs, pins, down))
    ensures EndsWith(ix, reqs, pins, down, names, k, outcome)
  {
    var graph := new Graph(ix);
    var config := new Config(graph, reqs, pins, down);
    ghost var u := config.universe;
    ConditionsRestricted(Input(ix, reqs, pins, down), u);
    var resolver := new Resolver(config);
    var phase;
    phase, k := resolver.Solve();
    FinalPhases(u, resolver.run, k);
    names := u.names;
    match phase {
      case Solved =>
        var decided := resolver.Result();
        ByNameOfReleases(SolutionOf(resolver.solution.assignments));
        outcome := Solution(decided);
      case Unsolvable(failure) => outcome := NoSolution(failure);
      case _ => outcome := ExclusiveTerms;
    }
    EndsAt(ix, reqs, pins, down, u, resolver.run, k, outcome);
  }

  lemma FinalPhases(u: Universe, run: nat -> State, k: nat)
    requires GoodUniverse(u) && IsRun(u, run) && Final(run(k))
    ensures GoodLog(u, run(k).log) && !run(k).phase.Wedged?
  {
    assert run(k) == Run(u, k);
    RunInv(u, k);
  }

  /** The packages that are reachable are closed under dependencies. */
  lemma ReachableIsClosed(ix: Index, reqs: seq<Requirement>, u: Universe)
    requires u.versions == ix.versions && u.dependencies == ix.releases && u.requirements == reqs
    requires forall n :: n in u.names <==> Reachable(PackageGraph(ix, reqs), n)
    ensures u.names <= AllNames(ix, reqs) && Closed(u)
  {
    var g, all := PackageGraph(ix, reqs), AllNames(ix, reqs);
    forall n | n in all ensures Next(g, n) <= all { EdgesAreDependencies(ix, reqs, n); }
    forall n | n in u.names ensures n in all {
      var path :| IsPath(g, n, path);
      PathStaysInside(g, all, n, path);
    }
    forall n | n in g.start ensures n in u.names { StartReachable(g, n); }
    forall n, m | n in u.names && m in Next(g, n) ensures m in u.names { NextReachable(g, n, m); }
    VisitedIsClosed(u, ix);
  }

  lemma SolutionIsRight(ix: Index, reqs: seq<Requirement>, u: Universe, k: nat)
    requires u == Input(ix, reqs, u.overrides, u.downgrades).(names := u.names)
    requires u.names <= AllNames(ix, reqs) && forall n :: n in u.names <==> Reachable(PackageGraph(ix, reqs), n)
    requires GoodUniverse(u) && Run(u, k).phase.Solved?
    ensures Resolves(ix, reqs, u.overrides, SolutionOf(Run(u, k).log))
    ensures NoDependencies(ix) ==> TakesNewest(ix, reqs, u.overrides, u.downgrades, SolutionOf(Run(u, k).log))
    ensures Forgiving(Input(ix, reqs, u.overrides, u.downgrades)) ==> AllNeeded(ix, reqs, SolutionOf(Run(u, k).log))
  {
    FinalMeaning(u, k);
    Restricted(Input(ix, reqs, u.overrides, u.downgrades), u);
    ResolvesIsValid(ix, reqs, u.overrides, u.downgrades, SolutionOf(Run(u, k).log));
    if NoDependencies(ix) { NewestIsTaken(ix, reqs, u, k); }
    if Forgiving(Input(ix, reqs, u.overrides, u.downgrades)) { DecidedAreNeeded(ix, reqs, u, k); }
  }

  lemma FailureIsRight(ix: Index, reqs: seq<Requirement>, u: Universe, k: nat)
    requires u == Input(ix, reqs, u.overrides, u.downgrades).(names := u.names) && u.names <= AllNames(ix, reqs)
    requires GoodUniverse(u) && Run(u, k).phase.Unsolvable?
    ensures var full, failure := Input(ix, reqs, u.overrides, u.downgrades), Run(u, k).phase.failure;
            && IsFailure(failure) && Derivable(full, failure)
            && (Exact(failure) || Forgiving(full) ==> forall choice :: !Resolves(ix, reqs, u.overrides, choice))
  {
    var full, failure := Input(ix, reqs, u.overrides, u.downgrades), Run(u, k).phase.failure;
    FinalMeaning(u, k);
    Restricted(full, u);
    DerivableExtended(full, u, failure);
    if Forgiving(full) { ForgivingRestricted(full, u); }
    forall choice ensures ValidSolution(full, choice) <==> Resolves(ix, reqs, u.overrides, choice) {
      ResolvesIsValid(ix, reqs, u.overrides, u.downgrades, choice);
    }
  }

  /** What the entry point promises follows from the end of the run. */
  lemma OutcomeIsRight(ix: Index, reqs: seq<Requirement>, pins: map<Name, set<Version>>, down: set<Name>, names: set<Name>,
                       k: nat, outcome: Outcome)
    requires SelfAccepting(Input(ix, reqs, pins, down)) && EndsWith(ix, reqs, pins, down, names, k, outcome)
    ensures outcome.Solution? ==>
              OneVersionEach(outcome.decided) && Resolves(ix, reqs, pins, ByName(outcome.decided))
    ensures outcome.Solution? && NoDependencies(ix) ==>
              TakesNewest(ix, reqs, pins, down, ByName(outcome.decided))
    ensures outcome.Solution? && Forgiving(Input(ix, reqs, pins, down)) ==>
              AllNeeded(ix, reqs, ByName(outcome.decided))
    ensures outcome.NoSolution? ==>
              IsFailure(outcome.failure) && Derivable(Input(ix, reqs, pins, down), outcome.failure)
    ensures outcome.NoSolution? && (Exact(outcome.failure) || Forgiving(Input(ix, reqs, pins, down))) ==>
              forall choice :: !Resolves(ix, reqs, pins, choice)
    ensures outcome.ExclusiveTerms? ==> !Satisfiable(Input(ix, reqs, pins, down))
  {
    var full := Input(ix, reqs, pins, down);
    var u := full.(names := names);
    ReachableIsClosed(ix, reqs, u);
    ConditionsRestricted(full, u);
    match outcome
    case Solution(_) => SolutionIsRight(ix, reqs, u, k);
    case NoSolution(_) => FailureIsRight(ix, reqs, u, k);
    case ExclusiveTerms => FinalMeaning(u, k);
  }

  lemma EndsAt(ix: Index, reqs: seq<Requirement>, pins: map<Name, set<Version>>, down: set<Name>, u: Universe,
               run: nat -> State, k: nat, outcome: Outcome)
    requires u == Input(ix, reqs, pins, down).(names := u.names) && IsRun(u, run) && Reports(run(k), outcome)
    requires forall n :: n in u.names <==> Reachable(PackageGraph(ix, reqs), n)
    ensures EndsWith(ix, reqs, pins, down, u.names, k, outcome)
  {
    assert run(k) == Run(u, k);
  }

  /** What the end of the run says about all choices. */
  lemma FinalMeaning(u: Universe, k: nat)
    requires GoodUniverse(u) && Final(Run(u, k))
    ensures var st := Run(u, k);
            && (st.phase.Solved? ==> ValidSolution(u, SolutionOf(st.log)))
            && (st.phase.Unsolvable? ==> IsFailure(st.phase.failure) && Derivable(u, st.phase.failure))
            && (st.phase.Unsolvable? && (Exact(st.phase.failure) || Forgiving(u)) ==>
                  forall choice :: !ValidSolution(u, choice))
            && (st.phase.Broken? ==> !Satisfiable(u))
  {
    var st := Run(u, k);
    RunOutcome(u, k, map[]);
    if st.phase.Unsolvable? && (Exact(st.phase.failure) || Forgiving(u)) {
      var failure := st.phase.failure;
      if Exact(failure) { ExactIsHarmless(u, failure); } else { ForgivingIsHarmless(u, failure); }
      forall choice ensures !ValidSolution(u, choice) { RunOutcome(u, k, choice); }
    }
    if Satisfiable(u) { RunNeverBreaks(u, k); }
  }

  // ---------- The resolved graph ----------

  function Targets(choice: Choice, reqs: seq<Requirement>): (r: seq<Node>)
    requires forall q :: q in reqs ==> q.name in choice
    ensures |r| == |reqs| && forall i :: 0 <= i < |reqs| ==> r[i] == Release(reqs[i].name, choice[reqs[i].name])
  {
    if reqs == [] then []
    else [Release(reqs[0].name, choice[reqs[0].name])] + Targets(choice, reqs[1..])
  }

  /** Each decided version with the decided versions of its dependencies. */
  function ResolvedEdges(u: Universe, choice: Choice): Edges
    requires forall n, r :: n in choice && r in Dependencies(u, Release(n, choice[n])) ==> r.name in choice
  {
    map p | p in (set n | n in choice :: Release(n, choice[n])) :: SortNodes(Targets(choice, Dependencies(u, p)))
  }

  predicate Decided(choice: Choice, p: Node) {
    p.Release? && p.name in choice && choice[p.name] == p.version
  }

  /** The list holds the decided version of each required package, one entry for each requirement, names ascending. */
  ghost predicate ListsTargets(choice: Choice, reqs: seq<Requirement>, nodes: seq<Node>) {
    && |nodes| == |reqs| && NamesAscend(nodes)
    && forall m :: m in nodes <==> Decided(choice, m) && exists r :: r in reqs && r.name == m.name
  }

  /** The graph has the decided versions as keys and their index entries as lists. */
  ghost predicate GraphOf(u: Universe, choice: Choice, g: Edges) {
    && (forall p :: p in g <==> Decided(choice, p))
    && (forall p :: p in g ==> p in u.dependencies && ListsTargets(choice, u.dependencies[p], g[p]))
  }

  lemma SortedTargets(choice: Choice, reqs: seq<Requirement>)
    requires forall q :: q in reqs ==> q.name in choice
    ensures ListsTargets(choice, reqs, SortNodes(Targets(choice, reqs)))
  {
    var targets := Targets(choice, reqs);
    forall m ensures m in targets <==> Decided(choice, m) && exists r :: r in reqs && r.name == m.name {
      if m in targets {
        var i :| 0 <= i < |targets| && targets[i] == m;
        assert reqs[i] in reqs;
      }
      if Decided(choice, m) && exists r :: r in reqs && r.name == m.name {
        var r :| r in reqs && r.name == m.name;
        var i :| 0 <= i < |reqs| && reqs[i] == r;
        assert targets[i] == m;
      }
    }
  }

  /** In a solution every lookup that builds the graph succeeds, and the graph is that of the index entries. */
  lemma ResolvedGraph(u: Universe, choice: Choice)
    requires ValidSolution(u, choice)
    ensures forall r :: r in u.requirements ==> r.name in choice
    ensures forall n, r :: n in choice && r in Dependencies(u, Release(n, choice[n])) ==> r.name in choice
    ensures GraphOf(u, choice, ResolvedEdges(u, choice))
  {
    forall r | r in u.requirements ensures r.name in choice { assert Meets(u, choice, r); }
    forall n, r | n in choice && r in Dependencies(u, Release(n, choice[n])) ensures r.name in choice {
      assert Meets(u, choice, r);
    }
    var g := ResolvedEdges(u, choice);
    forall p ensures p in g <==> Decided(choice, p) {
      if Decided(choice, p) { assert p == Release(p.name, choice[p.name]); }
    }
    forall p | p in g ensures p in u.dependencies && ListsTargets(choice, u.dependencies[p], g[p]) {
      assert choice[p.name] in Usable(u, p.name);
      SortedTargets(choice, u.dependencies[p]);
    }
  }

  /** Every edge of the graph of a solution stays inside it, and so do the direct dependencies. */
  lemma ResolvedGraphIsClosed(u: Universe, choice: Choice, g: Edges, direct: seq<Node>)
    requires GraphOf(u, choice, g) && ListsTargets(choice, u.requirements, direct)
    ensures ClosedEdges(g) && forall m :: m in direct ==> m in g
  {
  }

  /** The number of index entries of the packages. */
  function DependencyCount(u: Universe, nodes: seq<Node>): nat {
    if nodes == [] then 0
    else
      var last := nodes[|nodes| - 1];
      DependencyCount(u, nodes[..|nodes| - 1]) + if last in u.dependencies then |u.dependencies[last]| else 0
  }

  lemma {:induction false} OutgoingCount(u: Universe, choice: Choice, g: Edges, nodes: seq<Node>)
    requires GraphOf(u, choice, g) && forall n :: n in nodes ==> n in g
    ensures Outgoing(g, nodes) == DependencyCount(u, nodes)
    decreases |nodes|
  {
    if nodes == [] {
    } else {
      OutgoingCount(u, choice, g, nodes[..|nodes| - 1]);
      assert nodes[|nodes| - 1] in g;
    }
  }

  /**
   * Every reachable package is expanded once, where it first appears at its minimum depth, and the lines are
   * nested accordingly, below the direct dependencies in ascending order.
   */
  ghost predicate Shows(g: Edges, direct: seq<Node>, lines: seq<Line>, expanded: seq<Node>) {
    && ClosedEdges(g) && NoDuplicates(expanded) && (forall n :: n in expanded <==> Reached(g, direct, n))
    && (forall n :: n in expanded ==> exists d :: IsMinDepth(g, direct, n, d) && ExpandsFirst(g, lines, n, d))
    && IsListing(g, lines, direct, 1)
  }

  /** Everything printed is an index entry of a decided version: one line for each, and one for each requirement. */
  ghost predicate Prints(u: Universe, choice: Choice, g: Edges, direct: seq<Node>, lines: seq<Line>, expanded: seq<Node>) {
    && GraphOf(u, choice, g) && ListsTargets(choice, u.requirements, direct) && Shows(g, direct, lines, expanded)
    && |lines| == |u.requirements| + DependencyCount(u, expanded)
  }

  method PrintSolution(u: Universe, choice: Choice) returns (lines: seq<Line>)
    requires ValidSolution(u, choice)
    ensures exists g, direct, expanded :: Prints(u, choice, g, direct, lines, expanded)
  {
    ResolvedGraph(u, choice);
    var g, targets := ResolvedEdges(u, choice), Targets(choice, u.requirements);
    SortedTargets(choice, u.requirements);
    ResolvedGraphIsClosed(u, choice, g, SortNodes(targets));
    var printer := new ResultGraph(g, targets);
    ghost var expanded := printer.Run();
    lines := printer.lines;
    PrintedLines(u, choice, g, targets, SortNodes(targets), printer.depth, lines, expanded);
  }

  lemma PrintedLines(u: Universe, choice: Choice, g: Edges, targets: seq<Node>, direct: seq<Node>, depth: Depths,
                     lines: seq<Line>, expanded: seq<Node>)
    requires GraphOf(u, choice, g) && ListsTargets(choice, u.requirements, direct) && ClosedEdges(g)
    requires |direct| == |targets| && forall m :: m in targets <==> m in direct
    requires DepthTable(g, targets, depth) && IsListing(g, lines, direct, 1)
    requires NoDuplicates(expanded) && forall n :: n in expanded <==> Reached(g, targets, n)
    requires forall n :: n in expanded ==> n in depth && ExpandsFirst(g, lines, n, depth[n])
    requires |lines| == |targets| + Outgoing(g, expanded)
    ensures Prints(u, choice, g, direct, lines, expanded)
  {
    forall n ensures n in expanded <==> Reached(g, direct, n) { SameReach(g, targets, direct, n); }
    forall n | n in expanded ensures exists d :: IsMinDepth(g, direct, n, d) && ExpandsFirst(g, lines, n, d) {
      SameDepth(g, targets, direct, n, depth[n]);
    }
    OutgoingCount(u, choice, g, expanded);
  }

  lemma SameReach(g: Edges, a: seq<Node>, b: seq<Node>, n: Node)
    requires forall m :: m in a <==> m in b
    ensures Reached(g, a, n) <==> Reached(g, b, n)
  {
    if d: nat :| HasWalk(g, a, n, d) { SameWalks(g, a, b, n, d); }
    if d: nat :| HasWalk(g, b, n, d) { SameWalks(g, a, b, n, d); }
  }

  /** Depths do not depend on the order of the direct dependencies. */
  lemma SameDepth(g: Edges, a: seq<Node>, b: seq<Node>, n: Node, d: nat)
    requires forall m :: m in a <==> m in b
    ensures IsMinDepth(g, a, n, d) <==> IsMinDepth(g, b, n, d)
  {
    forall e: nat ensures HasWalk(g, a, n, e) <==> HasWalk(g, b, n, e) { SameWalks(g, a, b, n, e); }
  }

  lemma {:induction false} SameWalks(g: Edges, a: seq<Node>, b: seq<Node>, n: Node, d: nat)
    requires forall m :: m in a <==> m in b
    ensures HasWalk(g, a, n, d) <==> HasWalk(g, b, n, d)
    decreases d
  {
    if d > 1 {
      forall m | m in g && n in g[m] ensures HasWalk(g, a, m, d - 1) <==> HasWalk(g, b, m, d - 1) {
        SameWalks(g, a, b, m, d - 1);
      }
    }
  }
}
