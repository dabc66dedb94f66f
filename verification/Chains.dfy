/** Conflict analysis as a chain of conflicts, each resolved only as far as necessary. */
module Chains {
  import opened Terms
  import opened Universes
  import opened Resolution
  import opened Logs
  import opened Conflicts

  /** A conflict is resolved further only if no level below its latest satisfier supports it. */
  ghost predicate ResolvedAt(log: Log, k: Incompatibility, t: Term) {
    && !IsFailure(k) && Pivot(log, k.terms, t, LevelOf(log, t))
    && var cause := log[Satisfier(log, t)].cause; cause.Some? && cause.value.IncompatibilityCause?
  }

  /** The next conflict resolves the latest satisfier with its own reason. */
  ghost predicate Follows(log: Log, k: Incompatibility, next: Incompatibility, t: Term) {
    && ResolvedAt(log, k, t)
    && var a := log[Satisfier(log, t)];
       var other := a.cause.value.incompatibility;
       next.cause == ConflictCause(k, other, t, a.term) && IsResolvent(next.terms, k.terms, other.terms, t, a.term)
  }

  ghost predicate Chain(log: Log, ks: seq<Incompatibility>) {
    |ks| >= 2 ==> (exists t :: Follows(log, ks[0], ks[1], t)) && Chain(log, ks[1..])
  }

  /** How the analysis ends at the last conflict of a chain. */
  ghost predicate Concluded(log: Log, last: Incompatibility, v: Verdict) {
    match v
    case Learned(level, rootCause) => last == rootCause && !IsFailure(last) && Asserts(log, last.terms, level)
    case Failed(failure) => last == failure && IsFailure(last)
    case MergeError =>
      exists t :: ResolvedAt(log, last, t)
                  && var a := log[Satisfier(log, t)];
                     Merge(NewTerms(last.terms, a.cause.value.incompatibility.terms, t, a.term)).None?
    case Stuck => false
  }

  lemma ChainCons(log: Log, k: Incompatibility, rest: seq<Incompatibility>, t: Term)
    requires rest != [] && Chain(log, rest) && Follows(log, k, rest[0], t)
    ensures Chain(log, [k] + rest)
  {
    var ks := [k] + rest;
    assert ks[1..] == rest && Follows(log, ks[0], ks[1], t);
  }

  /** A conflict that is not learned has its pivot on the level of its latest satisfier. */
  lemma PivotOfRound(u: Universe, log: Log, conflict: Incompatibility, an: Analysis)
    requires GoodLog(u, log) && Derivable(u, conflict) && !IsFailure(conflict) && AnalysisOk(log, conflict.terms, an)
    requires log[an.index].cause.Some? && an.previousLevel >= log[an.index].level
    ensures ResolvedAt(log, conflict, an.term)
    ensures var other := log[an.index].cause.value.incompatibility.terms;
            Inverse(log[an.index].term) in other && SameSubject(log[an.index].term, an.term)
  {
    LevelIsNotAbove(u, log, conflict.terms, an);
    LevelIsLowest(u, log, conflict.terms, an);
    NewTermsSatisfied(u, log, conflict.terms, an);
  }

  lemma RoundIsResolved(log: Log, conflict: Incompatibility, an: Analysis)
    requires ResolvedAt(log, conflict, an.term) && an.index == Satisfier(log, an.term)
    requires var other := log[an.index].cause.value.incompatibility.terms;
             Inverse(log[an.index].term) in other && SameSubject(log[an.index].term, an.term)
    ensures match Resolvent(log, conflict, an)
            case None => Concluded(log, conflict, MergeError)
            case Some(next) => Follows(log, conflict, next, an.term)
  {
  }

  /** The verdict is the end of the chain of conflicts that starts with the given one. */
  lemma {:induction false} ResolveFollowsChain(u: Universe, log: Log, conflict: Incompatibility, bound: nat)
    returns (ks: seq<Incompatibility>)
    requires GoodLog(u, log) && Derivable(u, conflict)
    requires bound <= |log| && AllSatAt(log, bound, conflict.terms)
    ensures ks != [] && ks[0] == conflict && Chain(log, ks)
    ensures Concluded(log, ks[|ks| - 1], Resolve(log, conflict, bound))
    decreases bound
  {
    ks := [conflict];
    if !IsFailure(conflict) {
      RoundUnfolds(u, log, conflict, bound);
      var an := Analyse(log, conflict.terms).value;
      var a := log[an.index];
      if a.cause.None? || an.previousLevel < a.level {
        LearnedIsOk(u, log, conflict, bound);
      } else {
        RoundIsAnalysed(u, log, conflict, bound);
        PivotOfRound(u, log, conflict, an);
        RoundIsResolved(log, conflict, an);
        var r := Resolvent(log, conflict, an);
        if r.Some? {
          var rest := ResolveFollowsChain(u, log, r.value, an.index);
          ChainCons(log, conflict, rest, an.term);
          ks := [conflict] + rest;
        }
      }
    }
  }
}
