/** The mutable partial solution: a log, and caches that agree with it. */
module PartialSolutions {
  import opened Terms
  import opened Universes
  import opened Logs
  import opened Conflicts

  /** `terms` is a cache of TermAt for every subject. */
  ghost predicate TermsMatch(log: Log, i: nat, terms: map<Subject, Term>)
    requires i <= |log|
  {
    forall s :: Lookup(terms, s) == TermAt(log, i, s)
  }

  function Lookup(terms: map<Subject, Term>, s: Subject): Option<Term> {
    if s in terms then Some(terms[s]) else None
  }

  /** The new cache after one more assignment; an impossible intersection is kept as no entry. */
  function Registered(terms: map<Subject, Term>, t: Term): map<Subject, Term>
    requires SubjectOf(t) in terms ==> SubjectOf(terms[SubjectOf(t)]) == SubjectOf(t)
  {
    var s := SubjectOf(t);
    if s !in terms then terms[s := t]
    else
      match Intersect(terms[s], t)
      case Some(m) => terms[s := m]
      case None => terms - {s}
  }

  lemma RegisteredMatches(log: Log, terms: map<Subject, Term>, a: Assignment)
    requires TermsMatch(log, |log|, terms)
    ensures var s := SubjectOf(a.term);
            && (s in terms ==> SubjectOf(terms[s]) == s)
            && TermsMatch(log + [a], |log| + 1, Registered(terms, a.term))
  {
    var next := log + [a];
    var s := SubjectOf(a.term);
    assert Lookup(terms, s) == TermAt(log, |log|, s);
    forall x ensures Lookup(Registered(terms, a.term), x) == TermAt(next, |next|, x) {
      assert next[..|log|] == log == log[..|log|];
      TermAtPrefix(log, next, |log|, x);
      assert Lookup(terms, x) == TermAt(log, |log|, x);
    }
  }

  lemma DecisionsAfter(log: Log, a: Assignment)
    ensures DecisionsAt(log + [a], |log| + 1) ==
            if a.cause.None? then DecisionsAt(log, |log|)[SubjectOf(a.term) := a.term] else DecisionsAt(log, |log|)
  {
    assert (log + [a])[..|log|] == log == log[..|log|];
    DecisionsAtPrefix(log, log + [a], |log|);
  }

  /** Nothing between `i` and `j` is about `s`. */
  ghost predicate Unmentioned(log: Log, i: nat, j: nat, s: Subject) {
    forall x :: i <= x < j && x < |log| ==> SubjectOf(log[x].term) != s
  }

  lemma {:induction false} UnmentionedKeepsTerm(log: Log, i: nat, j: nat, s: Subject)
    requires i <= j <= |log| && Unmentioned(log, i, j, s)
    ensures TermAt(log, i, s) == TermAt(log, j, s)
    ensures Lookup(DecisionsAt(log, i), s) == Lookup(DecisionsAt(log, j), s)
    decreases j
  {
    if j <= i {
    } else {
      UnmentionedKeepsTerm(log, i, j - 1, s);
    }
  }

  function SubjectsFrom(log: Log, i: nat): set<Subject> {
    set x | i <= x < |log| :: SubjectOf(log[x].term)
  }

  /** Dropping decisions by subject drops exactly the decisions above the cut. */
  lemma DroppedDecisions(u: Universe, log: Log, e: nat)
    requires GoodLog(u, log) && 0 < e <= |log|
    ensures DecisionsAt(log, |log|) - SubjectsFrom(log, e) == DecisionsAt(log[..e], e)
  {
    assert log[..e][..e] == log[..e];
    DecisionsAtPrefix(log, log[..e], e);
    var all, kept := DecisionsAt(log, |log|), DecisionsAt(log, e);
    forall s ensures Lookup(all - SubjectsFrom(log, e), s) == Lookup(kept, s) {
      if s in SubjectsFrom(log, e) {
        if s in kept {
          var d := DecisionWitness(log, e, s);
          var x :| e <= x < |log| && SubjectOf(log[x].term) == s;
          DecidedIsFinal(u, log, d, x);
        }
      } else {
        UnmentionedKeepsTerm(log, e, |log|, s);
      }
    }
    forall s ensures s in all - SubjectsFrom(log, e) <==> s in kept {
      assert Lookup(all - SubjectsFrom(log, e), s) == Lookup(kept, s);
    }
    forall s | s in kept ensures (all - SubjectsFrom(log, e))[s] == kept[s] {
      assert Lookup(all - SubjectsFrom(log, e), s) == Lookup(kept, s);
    }
  }

  lemma LevelAfterCut(u: Universe, log: Log, level: nat)
    requires GoodLog(u, log) && 1 <= level
    ensures var cut := Cut(log, level);
            level <= |DecisionsAt(log, |log|)| ==> |DecisionsAt(cut, |cut|)| == level
  {
    DecisionCount(u, log, |log|);
    if level <= Level(log) { CutKeepsFirstDecisions(u, log, level); }
  }

  class PartialSolution {
    var assignments: Log
    var decisions: map<Subject, Term>
    var terms: map<Subject, Term>
    var attemptedSolutions: nat
    var backtracking: bool

    /** The caches say what the log says. */
    ghost predicate Valid()
      reads this
    {
      TermsMatch(assignments, |assignments|, terms) && decisions == DecisionsAt(assignments, |assignments|)
    }

    constructor ()
      ensures Valid() && assignments == [] && attemptedSolutions == 1 && !backtracking
    {
      assignments, decisions, terms := [], map[], map[];
      attemptedSolutions, backtracking := 1, false;
    }

    function DecisionLevel(): nat
      reads this
    {
      |decisions|
    }

    /** Required packages that are not decided yet. */
    function Unsatisfied(): (r: map<Name, Term>)
      requires Valid()
      reads this
      ensures forall n :: n in r ==> r[n].VersionConstraint?
    {
      assert forall s :: s in terms ==> Lookup(terms, s) == TermAt(assignments, |assignments|, s);
      map s | s in terms && s.Package? && terms[s].positive && s !in decisions :: s.name := terms[s]
    }

    method Register(a: Assignment)
      requires SubjectOf(a.term) in terms ==> SubjectOf(terms[SubjectOf(a.term)]) == SubjectOf(a.term)
      modifies this`terms
      ensures terms == Registered(old(terms), a.term)
    {
      var s := SubjectOf(a.term);
      if s !in terms {
        terms := terms[s := a.term];
      } else {
        match Intersect(terms[s], a.term)
        case Some(m) => terms := terms[s := m];
        case None => terms := terms - {s};
      }
    }

    method Decide(t: Term)
      requires Valid()
      modifies this
      ensures Valid()
      ensures decisions == old(decisions)[SubjectOf(t) := t]
      ensures assignments == old(assignments) + [Assignment(t, |decisions|, |old(assignments)|, None)]
      ensures attemptedSolutions == old(attemptedSolutions) + (if old(backtracking) then 1 else 0) && !backtracking
    {
      if backtracking {
        attemptedSolutions := attemptedSolutions + 1;
        backtracking := false;
      }
      decisions := decisions[SubjectOf(t) := t];
      var a := Assignment(t, DecisionLevel(), |assignments|, None);
      DecisionsAfter(assignments, a);
      RegisteredMatches(assignments, terms, a);
      Register(a);
      assignments := assignments + [a];
    }

    method Derive(t: Term, cause: Cause)
      requires Valid()
      modifies this`assignments, this`terms
      ensures Valid() && decisions == old(decisions)
      ensures assignments == old(assignments) + [Assignment(t, |decisions|, |old(assignments)|, Some(cause))]
    {
      var a := Assignment(t, DecisionLevel(), |assignments|, Some(cause));
      DecisionsAfter(assignments, a);
      RegisteredMatches(assignments, terms, a);
      Register(a);
      assignments := assignments + [a];
    }

    method PopAbove(level: nat, ghost u: Universe) returns (removed: set<Subject>)
      requires GoodLog(u, assignments) && 1 <= level
      modifies this`assignments
      ensures assignments == Cut(old(assignments), level)
      ensures 0 < |assignments| <= |old(assignments)| && assignments == old(assignments)[..|assignments|]
      ensures removed == SubjectsFrom(old(assignments), |assignments|)
    {
      removed := {};
      ghost var n := |assignments|;
      ghost var log := assignments;
      while assignments[|assignments| - 1].level > level
        invariant 0 < n <= |log| && assignments == log[..n]
        invariant Cut(assignments, level) == Cut(log, level)
        invariant removed == SubjectsFrom(log, n)
        decreases n
      {
        assert EntryOk(u, log, 0);
        removed := removed + {SubjectOf(assignments[|assignments| - 1].term)};
        assignments := assignments[..|assignments| - 1];
        assert assignments == log[..n - 1];
        assert SubjectsFrom(log, n - 1) == SubjectsFrom(log, n) + {SubjectOf(log[n - 1].term)};
        n := n - 1;
      }
    }

    /** Puts back what the remaining log says about the packages in `removed`. */
    method Rebuild(removed: set<Subject>, ghost log: Log)
      requires |assignments| <= |log| && assignments == log[..|assignments|]
      requires removed == SubjectsFrom(log, |assignments|)
      requires forall s :: Lookup(terms, s) == if s in removed then None else TermAt(log, |log|, s)
      modifies this`terms
      ensures TermsMatch(assignments, |assignments|, terms)
    {
      ghost var e := |assignments|;
      for i := 0 to |assignments|
        invariant forall s :: Lookup(terms, s) == TermAt(log, if s in removed then i else |log|, s)
      {
        var a := assignments[i];
        var s := SubjectOf(a.term);
        if s in removed {
          assert Lookup(terms, s) == TermAt(log, i, s);
          Register(a);
        }
      }
      forall s ensures Lookup(terms, s) == TermAt(assignments, e, s) {
        if s !in removed { UnmentionedKeepsTerm(log, e, |log|, s); }
        assert assignments[..e] == log[..e];
        TermAtPrefix(log, assignments, e, s);
      }
    }

    /** Cuts the log back to a level; the caches are reduced by subject and rebuilt. */
    method Backtrack(level: nat, ghost u: Universe)
      requires Valid() && GoodLog(u, assignments) && 1 <= level
      modifies this
      ensures Valid() && assignments == Cut(old(assignments), level)
      ensures level <= old(DecisionLevel()) ==> DecisionLevel() == level
      ensures backtracking && attemptedSolutions == old(attemptedSolutions)
    {
      ghost var log := assignments;
      backtracking := true;
      var removed := PopAbove(level, u);
      DroppedDecisions(u, log, |assignments|);
      terms := terms - removed;
      decisions := decisions - removed;
      Rebuild(removed, log);
      LevelAfterCut(u, log, level);
    }

    /** The first assignment with which the log implies `t`, if any. */
    method FindSatisfier(t: Term, ghost u: Universe) returns (r: Option<Assignment>)
      requires Valid()
      ensures r.None? <==> forall j :: 0 <= j <= |assignments| ==> !SatAt(assignments, j, t)
      ensures r.Some? ==> exists k :: 0 <= k < |assignments| && r.value == assignments[k] && SatAt(assignments, k + 1, t)
                                      && forall j :: 0 <= j <= k ==> !SatAt(assignments, j, t)
      ensures SatAt(assignments, |assignments|, t) ==> r == Some(assignments[Satisfier(assignments, t)])
      ensures GoodLog(u, assignments) && GoodTerm(u, t) ==> (r.Some? <==> SatisfiesTerm(t))
    {
      var current: Option<Term> := None;
      var i := 0;
      while i < |assignments|
        invariant 0 <= i <= |assignments|
        invariant current == TermAt(assignments, i, SubjectOf(t))
        invariant forall j :: 0 <= j <= i ==> !SatAt(assignments, j, t)
      {
        var a := assignments[i];
        assert !SatAt(assignments, i, t);
        if SubjectOf(a.term) == SubjectOf(t) {
          current := if current.None? then Some(a.term) else Intersect(current.value, a.term);
          if current.Some? && Terms.Satisfies(current.value, t) {
            assert SatAt(assignments, i + 1, t);
            if GoodLog(u, assignments) && GoodTerm(u, t) { SatStays(u, assignments, i + 1, |assignments|, t); }
            return Some(a);
          }
        }
        assert current == TermAt(assignments, i + 1, SubjectOf(t));
        assert !SatAt(assignments, i + 1, t);
        i := i + 1;
      }
      return None;
    }

    function SatisfiesTerm(t: Term): (b: bool)
      requires Valid()
      reads this
      ensures b <==> SatAt(assignments, |assignments|, t)
    {
      assert Lookup(terms, SubjectOf(t)) == TermAt(assignments, |assignments|, SubjectOf(t));
      SubjectOf(t) in terms && Terms.Satisfies(terms[SubjectOf(t)], t)
    }

    function IsIncompatible(t: Term): (b: bool)
      requires Valid()
      reads this
      ensures b <==> ContraAt(assignments, |assignments|, t)
    {
      assert Lookup(terms, SubjectOf(t)) == TermAt(assignments, |assignments|, SubjectOf(t));
      SubjectOf(t) in terms && Intersect(terms[SubjectOf(t)], t).None?
    }
  }
}
