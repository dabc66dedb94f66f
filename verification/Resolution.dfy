/** Combining two incompatibilities into a third during conflict analysis. */
module Resolution {
  import opened Terms
  import opened Universes

  // ---------- Merging terms with the same subject ----------

  /** The position of the term about `s`, or the length when there is none. */
  function Find(terms: seq<Term>, s: Subject): (k: nat)
    ensures k <= |terms|
    ensures k < |terms| ==> SubjectOf(terms[k]) == s
    ensures forall i :: 0 <= i < k ==> SubjectOf(terms[i]) != s
  {
    if terms == [] then 0
    else if SubjectOf(terms[0]) == s then 0
    else
      var k := Find(terms[1..], s);
      assert forall i :: 1 <= i < k + 1 ==> terms[i] == terms[1..][i - 1];
      k + 1
  }

  function MergeInto(merged: seq<Term>, t: Term): Option<seq<Term>> {
    var k := Find(merged, SubjectOf(t));
    if k == |merged| then Some(merged + [t])
    else
      match Intersect(merged[k], t)
      case None => None
      case Some(m) => Some(merged[k := m])
  }

  function MergeFrom(merged: seq<Term>, terms: seq<Term>): Option<seq<Term>>
    decreases |terms|
  {
    if terms == [] then Some(merged)
    else
      match MergeInto(merged, terms[0])
      case None => None
      case Some(m) => MergeFrom(m, terms[1..])
  }

  /** None models the "mutually exclusive terms" error. */
  function Merge(terms: seq<Term>): Option<seq<Term>> {
    MergeFrom([], terms)
  }

  ghost predicate Mentions(terms: seq<Term>, s: Subject) {
    exists t :: t in terms && SubjectOf(t) == s
  }

  /** Every term about `s` accepts `p`. */
  ghost predicate Accepts(terms: seq<Term>, s: Subject, p: Pick) {
    forall t :: t in terms && SubjectOf(t) == s ==> p in Meaning(t)
  }

  ghost predicate Consistent(terms: seq<Term>, s: Subject) {
    exists p :: Accepts(terms, s, p)
  }

  lemma MergeIntoMeaning(u: Universe, merged: seq<Term>, t: Term, s: Subject)
    requires Distinct(merged) && GoodTerms(u, merged) && GoodTerm(u, t)
    ensures MergeInto(merged, t).Some? ==>
              var r := MergeInto(merged, t).value;
              && Distinct(r) && GoodTerms(u, r)
              && (Mentions(r, s) <==> Mentions(merged, s) || SubjectOf(t) == s)
              && forall p :: Accepts(r, s, p) <==> Accepts(merged, s, p) && Accepts([t], s, p)
  {
    var k := Find(merged, SubjectOf(t));
    if k == |merged| {
      var r := merged + [t];
      assert r[|merged|] == t;
      forall x | x in merged ensures x in r {}
    } else if Intersect(merged[k], t).Some? {
      var m := Intersect(merged[k], t).value;
      var r := merged[k := m];
      assert GoodTerm(u, merged[k]);
      IntersectIsConjunction(merged[k], t);
      forall x | x in r ensures x == m || x in merged {}
      forall x | x in merged ensures x == merged[k] || x in r {
        var i :| 0 <= i < |merged| && merged[i] == x;
        assert i != k ==> r[i] == x;
      }
      assert r[k] == m;
      assert m in r && merged[k] in merged && t in [t];
      forall p ensures Accepts(r, s, p) <==> Accepts(merged, s, p) && Accepts([t], s, p) {
        if SubjectOf(t) == s {
          assert p in Meaning(m) <==> p in Meaning(merged[k]) && p in Meaning(t);
          if Accepts(r, s, p) {
            forall x | x in merged && SubjectOf(x) == s ensures p in Meaning(x) {
              DistinctBySubject(merged, x, merged[k]);
            }
          }
          if Accepts(merged, s, p) && Accepts([t], s, p) {
            forall x | x in r && SubjectOf(x) == s ensures p in Meaning(x) {
              assert x == m || x in merged;
            }
          }
        }
      }
    }
  }

  /** Merging keeps the joint meaning and leaves one term for each subject mentioned. */
  lemma {:induction false} MergeFromMeaning(u: Universe, merged: seq<Term>, terms: seq<Term>, s: Subject)
    requires Distinct(merged) && GoodTerms(u, merged) && GoodTerms(u, terms)
    ensures MergeFrom(merged, terms).Some? ==>
              var r := MergeFrom(merged, terms).value;
              && Distinct(r) && GoodTerms(u, r)
              && (Mentions(r, s) <==> Mentions(merged, s) || Mentions(terms, s))
              && forall p :: Accepts(r, s, p) <==> Accepts(merged, s, p) && Accepts(terms, s, p)
    decreases |terms|
  {
    if terms != [] && MergeInto(merged, terms[0]).Some? {
      var t, rest := terms[0], terms[1..];
      assert t in terms && (forall x :: x in terms <==> x == t || x in rest);
      MergeIntoMeaning(u, merged, t, s);
      MergeFromMeaning(u, MergeInto(merged, t).value, rest, s);
    }
  }

  lemma MergeMeaning(u: Universe, terms: seq<Term>, s: Subject)
    requires GoodTerms(u, terms) && Merge(terms).Some?
    ensures var r := Merge(terms).value;
            && Distinct(r) && GoodTerms(u, r)
            && (Mentions(r, s) <==> Mentions(terms, s))
            && forall p :: Accepts(r, s, p) <==> Accepts(terms, s, p)
  {
    MergeFromMeaning(u, [], terms, s);
  }

  // ---------- When merging fails ----------

  /** The terms about `s`, in order. */
  function About(terms: seq<Term>, s: Subject): seq<Term> {
    if terms == [] then []
    else (if SubjectOf(terms[0]) == s then [terms[0]] else []) + About(terms[1..], s)
  }

  ghost predicate AllAccept(terms: seq<Term>, p: Pick) {
    forall t :: t in terms ==> p in Meaning(t)
  }

  /** At least two terms, of which the first two exclude nothing or all together accept nothing. */
  ghost predicate Clash(terms: seq<Term>) {
    |terms| >= 2 && (BothExcludeNothing(terms[0], terms[1]) || forall p :: !AllAccept(terms, p))
  }

  lemma {:induction false} AboutMembers(terms: seq<Term>, s: Subject, t: Term)
    ensures t in About(terms, s) <==> t in terms && SubjectOf(t) == s
  {
    if terms == [] {
    } else {
      AboutMembers(terms[1..], s, t);
      assert t in terms <==> t == terms[0] || t in terms[1..];
    }
  }

  lemma {:induction false} AboutSnoc(terms: seq<Term>, t: Term, s: Subject)
    requires SubjectOf(t) != s
    ensures About(terms + [t], s) == About(terms, s)
  {
    if terms == [] {
      assert (terms + [t])[1..] == [];
    } else {
      AboutSnoc(terms[1..], t, s);
      assert (terms + [t])[1..] == terms[1..] + [t];
    }
  }

  lemma {:induction false} AboutAbsent(terms: seq<Term>, s: Subject)
    requires forall t :: t in terms ==> SubjectOf(t) != s
    ensures About(terms, s) == []
  {
    if terms == [] {
    } else {
      AboutAbsent(terms[1..], s);
    }
  }

  lemma {:induction false} AboutOne(terms: seq<Term>, k: nat)
    requires Distinct(terms) && k < |terms|
    ensures About(terms, SubjectOf(terms[k])) == [terms[k]]
  {
    if k == 0 {
      AboutAbsent(terms[1..], SubjectOf(terms[0]));
    } else {
      AboutOne(terms[1..], k - 1);
    }
  }

  lemma {:induction false} AboutOther(terms: seq<Term>, k: nat, m: Term, s: Subject)
    requires k < |terms| && SubjectOf(m) == SubjectOf(terms[k]) != s
    ensures About(terms[k := m], s) == About(terms, s)
  {
    if k == 0 {
      assert terms[0 := m][1..] == terms[1..];
    } else {
      AboutOther(terms[1..], k - 1, m, s);
      assert terms[k := m][1..] == terms[1..][k - 1 := m];
    }
  }

  /** Merging the first two terms of a package does not change whether its terms clash. */
  lemma ClashAfterMerge(x: Term, y: Term, rest: seq<Term>)
    requires SameSubject(x, y) && Intersect(x, y).Some?
    ensures Clash([x, y] + rest) <==> Clash([Intersect(x, y).value] + rest)
  {
    var m := Intersect(x, y).value;
    var before, after := [x, y] + rest, [m] + rest;
    IntersectIsConjunction(x, y);
    assert before[0] == x && before[1] == y && after[0] == m;
    forall p ensures AllAccept(before, p) <==> AllAccept(after, p) {
      assert x in before && y in before && m in after;
      assert forall t :: t in before <==> t == x || t == y || t in rest;
      assert forall t :: t in after <==> t == m || t in rest;
    }
    if rest == [] {
      var p := AnyOf(Meaning(x) * Meaning(y));
      assert AllAccept(before, p);
    } else {
      assert !BothExcludeNothing(m, after[1]);
    }
  }

  lemma ExclusiveTermsClash(x: Term, y: Term, rest: seq<Term>)
    requires SameSubject(x, y) && Intersect(x, y).None?
    ensures Clash([x, y] + rest)
  {
    var all := [x, y] + rest;
    assert all[0] == x && all[1] == y;
    IntersectIsConjunction(x, y);
    forall p | !BothExcludeNothing(x, y) ensures !AllAccept(all, p) {
      assert x in all && y in all && p !in Meaning(x) * Meaning(y);
    }
  }

  /** What one more term does to the terms of its package. */
  lemma MergeIntoFails(u: Universe, merged: seq<Term>, t: Term, rest: seq<Term>)
    requires Distinct(merged) && GoodTerms(u, merged) && GoodTerm(u, t)
    ensures var s := SubjectOf(t);
            var clash := Clash(About(merged, s) + ([t] + rest));
            if MergeInto(merged, t).None? then clash
            else clash <==> Clash(About(MergeInto(merged, t).value, s) + rest)
  {
    var s := SubjectOf(t);
    var k := Find(merged, s);
    if k == |merged| {
      AboutAbsent(merged, s);
      AboutOne(merged + [t], k);
      assert [] + ([t] + rest) == [t] + rest;
    } else {
      var x := merged[k];
      assert GoodTerm(u, x);
      AboutOne(merged, k);
      assert [x] + ([t] + rest) == [x, t] + rest;
      match Intersect(x, t)
      case None => ExclusiveTermsClash(x, t, rest);
      case Some(m) =>
        ClashAfterMerge(x, t, rest);
        AboutOne(merged[k := m], k);
    }
  }

  lemma MergeIntoOther(merged: seq<Term>, t: Term, s: Subject)
    requires MergeInto(merged, t).Some? && SubjectOf(t) != s
    ensures About(MergeInto(merged, t).value, s) == About(merged, s)
  {
    var k := Find(merged, SubjectOf(t));
    if k == |merged| {
      AboutSnoc(merged, t, s);
    } else {
      AboutOther(merged, k, Intersect(merged[k], t).value, s);
    }
  }

  lemma AtMostOne(merged: seq<Term>, s: Subject)
    requires Distinct(merged)
    ensures !Clash(About(merged, s) + [])
  {
    var k := Find(merged, s);
    if k < |merged| { AboutOne(merged, k); } else { AboutAbsent(merged, s); }
  }

  /** The terms about `s` clash. */
  ghost predicate Clashes(terms: seq<Term>, s: Subject) {
    Clash(About(terms, s))
  }

  ghost predicate Clashing(merged: seq<Term>, terms: seq<Term>, s: Subject) {
    Clash(About(merged, s) + About(terms, s))
  }

  /** Passing on one term keeps whether the terms of a package clash. */
  lemma ClashPassedOn(u: Universe, merged: seq<Term>, terms: seq<Term>, s: Subject)
    requires Distinct(merged) && GoodTerms(u, merged) && GoodTerms(u, terms) && terms != []
    ensures match MergeInto(merged, terms[0])
            case None => SubjectOf(terms[0]) == s ==> Clashing(merged, terms, s)
            case Some(next) => Clashing(merged, terms, s) <==> Clashing(next, terms[1..], s)
  {
    var t, rest := terms[0], About(terms[1..], s);
    assert t in terms;
    if SubjectOf(t) == s {
      assert About(terms, s) == [t] + rest;
      MergeIntoFails(u, merged, t, rest);
    } else {
      assert About(terms, s) == rest;
      if MergeInto(merged, t).Some? { MergeIntoOther(merged, t, s); }
    }
  }

  lemma {:induction false} MergeFromFails(u: Universe, merged: seq<Term>, terms: seq<Term>)
    requires Distinct(merged) && GoodTerms(u, merged) && GoodTerms(u, terms)
    ensures MergeFrom(merged, terms).None? <==> exists s :: Clashing(merged, terms, s)
    decreases |terms|
  {
    if terms == [] {
      forall s ensures !Clashing(merged, terms, s) { AtMostOne(merged, s); }
    } else {
      assert terms[0] in terms;
      ClashPassedOn(u, merged, terms, SubjectOf(terms[0]));
      if MergeInto(merged, terms[0]).Some? {
        var next := MergeInto(merged, terms[0]).value;
        MergeIntoMeaning(u, merged, terms[0], SubjectOf(terms[0]));
        MergeFromFails(u, next, terms[1..]);
        forall s ensures Clashing(merged, terms, s) <==> Clashing(next, terms[1..], s) {
          ClashPassedOn(u, merged, terms, s);
        }
      }
    }
  }

  /** The error is raised exactly when the terms of some package clash. */
  lemma MergeFails(u: Universe, terms: seq<Term>)
    requires GoodTerms(u, terms)
    ensures Merge(terms).None? <==> exists s :: Clashes(terms, s)
  {
    var none: seq<Term> := [];
    MergeFromFails(u, none, terms);
    forall s ensures Clashing(none, terms, s) <==> Clashes(terms, s) {
      assert About(none, s) + About(terms, s) == About(terms, s);
    }
  }

  // ---------- The resolution step ----------

  function Without(terms: seq<Term>, t: Term): (r: seq<Term>)
    ensures forall x :: x in r <==> x in terms && x != t
  {
    if terms == [] then []
    else (if terms[0] != t then [terms[0]] else []) + Without(terms[1..], t)
  }

  function WithoutSubject(terms: seq<Term>, s: Subject): (r: seq<Term>)
    ensures forall x :: x in r <==> x in terms && SubjectOf(x) != s
  {
    if terms == [] then []
    else (if SubjectOf(terms[0]) != s then [terms[0]] else []) + WithoutSubject(terms[1..], s)
  }

  /** What is left when term `t` of the conflict is explained by satisfier `a`, derived from `other`. */
  function NewTerms(conflict: seq<Term>, other: seq<Term>, t: Term, a: Term): seq<Term>
    requires SubjectOf(a) == SubjectOf(t)
  {
    Without(conflict, t) + WithoutSubject(other, SubjectOf(a)) +
    match Difference(a, t) case None => [] case Some(d) => [Inverse(d)]
  }

  ghost predicate IsResolvent(terms: seq<Term>, conflict: seq<Term>, other: seq<Term>, t: Term, a: Term) {
    && t in conflict && Inverse(a) in other && SameSubject(a, t)
    && Merge(NewTerms(conflict, other, t, a)) == Some(terms)
  }

  lemma NewTermsAreGood(u: Universe, conflict: seq<Term>, other: seq<Term>, t: Term, a: Term)
    requires GoodTerms(u, conflict) && GoodTerms(u, other) && t in conflict && GoodTerm(u, a) && SameSubject(a, t)
    ensures GoodTerms(u, NewTerms(conflict, other, t, a))
  {
    assert GoodTerm(u, t);
  }

  /** `f` picks something for every subject; all terms hold. */
  ghost predicate All(f: Subject -> Pick, terms: seq<Term>) {
    forall t :: t in terms ==> f(SubjectOf(t)) in Meaning(t)
  }

  lemma AllMerged(u: Universe, f: Subject -> Pick, terms: seq<Term>)
    requires GoodTerms(u, terms) && Merge(terms).Some?
    ensures All(f, Merge(terms).value) <==> All(f, terms)
  {
    var r := Merge(terms).value;
    if All(f, r) {
      forall t | t in terms ensures f(SubjectOf(t)) in Meaning(t) {
        MergeMeaning(u, terms, SubjectOf(t));
        assert Accepts(r, SubjectOf(t), f(SubjectOf(t)));
      }
    }
    if All(f, terms) {
      forall t | t in r ensures f(SubjectOf(t)) in Meaning(t) {
        MergeMeaning(u, terms, SubjectOf(t));
        assert Accepts(terms, SubjectOf(t), f(SubjectOf(t)));
      }
    }
  }

  /** A step is implied by its parents wherever the package it resolves is present, and everywhere if it is exact. */
  lemma ExactStepIsImplied(u: Universe, f: Subject -> Pick, terms: seq<Term>,
                           conflict: seq<Term>, other: seq<Term>, t: Term, a: Term)
    requires GoodTerms(u, conflict) && GoodTerms(u, other) && Distinct(other) && GoodTerm(u, a)
    requires IsResolvent(terms, conflict, other, t, a)
    requires f(SubjectOf(t)) in Domain(t) && (Lossy(a, t) ==> f(SubjectOf(t)) != Absent)
    requires All(f, terms)
    ensures All(f, conflict) || All(f, other)
  {
    var left := NewTerms(conflict, other, t, a);
    NewTermsAreGood(u, conflict, other, t, a);
    AllMerged(u, f, left);
    var p := f(SubjectOf(t));
    InverseIsNegation(a);
    if p !in Meaning(a) {
      forall x | x in other ensures f(SubjectOf(x)) in Meaning(x) {
        if SubjectOf(x) == SubjectOf(a) { DistinctBySubject(other, x, Inverse(a)); } else { assert x in left; }
      }
    } else {
      DifferenceIsExactUnlessLossy(a, t);
      if Difference(a, t).Some? {
        var d := Difference(a, t).value;
        assert Inverse(d) in left;
        InverseIsNegation(d);
      }
      assert p in Meaning(t);
      forall x | x in conflict ensures f(SubjectOf(x)) in Meaning(x) {
        if x != t { assert x in left; }
      }
    }
  }

  /**
   * What the new incompatibility forbids, exactly: the other terms of both parents together, for picks of the resolved
   * package that the satisfier rules out or the resolved term allows, and for its absence if the step is lossy.
   */
  lemma ResolventMeaning(u: Universe, f: Subject -> Pick, terms: seq<Term>,
                         conflict: seq<Term>, other: seq<Term>, t: Term, a: Term)
    requires GoodTerms(u, conflict) && GoodTerms(u, other) && GoodTerm(u, a) && IsResolvent(terms, conflict, other, t, a)
    requires f(SubjectOf(t)) in Domain(t)
    ensures Distinct(terms)
    ensures All(f, terms) <==>
            && (forall x :: x in conflict && x != t ==> f(SubjectOf(x)) in Meaning(x))
            && (forall x :: x in other && SubjectOf(x) != SubjectOf(t) ==> f(SubjectOf(x)) in Meaning(x))
            && (var p := f(SubjectOf(t)); p !in Meaning(a) || p in Meaning(t) || (p == Absent && Lossy(a, t)))
  {
    var left := NewTerms(conflict, other, t, a);
    NewTermsAreGood(u, conflict, other, t, a);
    AllMerged(u, f, left);
    MergeMeaning(u, left, SubjectOf(t));
    DifferenceIsExactUnlessLossy(a, t);
    var rest := Without(conflict, t) + WithoutSubject(other, SubjectOf(a));
    match Difference(a, t)
    case None => assert left == rest;
    case Some(d) =>
      InverseIsNegation(d);
      assert forall x :: x in left <==> x in rest || x == Inverse(d);
  }

  /** Picks that respect the list of versions of every package. */
  ghost predicate InUniverse(u: Universe, f: Subject -> Pick) {
    forall t: Term :: GoodTerm(u, t) ==> f(SubjectOf(t)) in Domain(t)
  }

  ghost predicate Implied(u: Universe, terms: seq<Term>, conflict: seq<Term>, other: seq<Term>) {
    forall f: Subject -> Pick :: InUniverse(u, f) && All(f, terms) ==> All(f, conflict) || All(f, other)
  }

  ghost function Model(terms: seq<Term>, s: Subject, absent: Subject): Pick {
    if s != absent && Mentions(terms, s) && Consistent(terms, s) then var p :| Accepts(terms, s, p); p
    else if s == Root then At(0) else Absent
  }

  lemma ModelIsInUniverse(u: Universe, terms: seq<Term>, absent: Subject)
    requires GoodTerms(u, terms)
    ensures InUniverse(u, s => Model(terms, s, absent))
  {
    forall t: Term | GoodTerm(u, t) ensures Model(terms, SubjectOf(t), absent) in Domain(t) {
      var s := SubjectOf(t);
      if s != absent && Mentions(terms, s) && Consistent(terms, s) {
        var o :| o in terms && SubjectOf(o) == s;
        assert GoodTerm(u, o) && Accepts(terms, s, Model(terms, s, absent));
        assert Domain(o) == Domain(t);
      }
    }
  }

  /** A lossy step leaves a choice that breaks the new incompatibility and neither parent, if anything can break it. */
  lemma LossyStepIsNotImplied(u: Universe, terms: seq<Term>, conflict: seq<Term>, other: seq<Term>, t: Term, a: Term)
    requires GoodTerms(u, conflict) && GoodTerms(u, other) && Distinct(conflict) && GoodTerm(u, a)
    requires IsResolvent(terms, conflict, other, t, a)
    requires Lossy(a, t)
    requires forall x :: x in terms ==> Meaning(x) != {}
    ensures !Implied(u, terms, conflict, other)
  {
    var left := NewTerms(conflict, other, t, a);
    var absent := SubjectOf(a);
    NewTermsAreGood(u, conflict, other, t, a);
    MergeMeaning(u, left, absent);
    var f := s => Model(terms, s, absent);
    ModelIsInUniverse(u, terms, absent);
    forall x | x in left && SubjectOf(x) == absent ensures Absent in Meaning(x) {
      if x in conflict && x != t { DistinctBySubject(conflict, x, t); }
      assert x == Inverse(Difference(a, t).value);
      MeaningMembers(x);
    }
    assert Accepts(terms, absent, Absent) by { assert Accepts(left, absent, Absent); }
    forall x | x in terms ensures f(SubjectOf(x)) in Meaning(x) {
      var s := SubjectOf(x);
      if s != absent {
        var p :| p in Meaning(x);
        forall y | y in terms && SubjectOf(y) == s ensures y == x { DistinctBySubject(terms, x, y); }
        assert Accepts(terms, s, p);
        assert Accepts(terms, s, Model(terms, s, absent));
      }
    }
    assert All(f, terms);
    MeaningMembers(t);
    MeaningMembers(Inverse(a));
    assert !All(f, conflict) && !All(f, other);
  }

  /** A step is implied by its parents exactly when it is not lossy, or nothing can break its result. */
  lemma StepImpliedIffNotLossy(u: Universe, terms: seq<Term>, conflict: seq<Term>, other: seq<Term>, t: Term, a: Term)
    requires GoodTerms(u, conflict) && GoodTerms(u, other) && Distinct(conflict) && Distinct(other) && GoodTerm(u, a)
    requires IsResolvent(terms, conflict, other, t, a)
    ensures Implied(u, terms, conflict, other) <==> !Lossy(a, t) || exists x :: x in terms && Meaning(x) == {}
  {
    if Lossy(a, t) && forall x :: x in terms ==> Meaning(x) != {} {
      LossyStepIsNotImplied(u, terms, conflict, other, t, a);
    } else if !Lossy(a, t) {
      forall f: Subject -> Pick | InUniverse(u, f) && All(f, terms) ensures All(f, conflict) || All(f, other) {
        assert GoodTerm(u, t);
        ExactStepIsImplied(u, f, terms, conflict, other, t, a);
      }
    }
  }

  // ---------- Derivations ----------

  /** The step plays two different versions of one package against each other. */
  predicate Contested(t: Term, a: Term)
    requires t.VersionConstraint? && a.VersionConstraint?
  {
    exists v, w :: v in Allowed(t) && w in Allowed(Inverse(a)) && v != w
  }

  /** Built from facts of the universe by resolution steps. */
  ghost predicate Derivable(u: Universe, i: Incompatibility) {
    && Distinct(i.terms) && GoodTerms(u, i.terms)
    && match i.cause
       case ConflictCause(conflict, other, t, a) =>
         && Derivable(u, conflict) && Derivable(u, other) && GoodTerm(u, a)
         && IsResolvent(i.terms, conflict.terms, other.terms, t, a)
         && (Lossy(a, t) ==> Contested(t, a))
       case IncompatibilityCause(_) => false
       case _ => IsFact(u, i)
  }

  /** No step of the derivation is lossy. */
  predicate Exact(i: Incompatibility) {
    match i.cause
    case ConflictCause(conflict, other, t, a) => Exact(conflict) && Exact(other) && !Lossy(a, t)
    case _ => true
  }

  /** No solution can do without the package. */
  ghost predicate Unavoidable(u: Universe, n: Name) {
    forall choice :: ValidSolution(u, choice) ==> n in choice
  }

  /** Lossy steps resolve only packages that every solution contains. */
  ghost predicate Harmless(u: Universe, i: Incompatibility) {
    match i.cause
    case ConflictCause(conflict, other, t, a) =>
      Harmless(u, conflict) && Harmless(u, other) && (Lossy(a, t) ==> Unavoidable(u, a.name))
    case _ => true
  }

  lemma {:induction false} ExactIsHarmless(u: Universe, i: Incompatibility)
    requires Exact(i)
    ensures Harmless(u, i)
  {
    match i.cause
    case ConflictCause(conflict, other, t, a) => ExactIsHarmless(u, conflict); ExactIsHarmless(u, other);
    case _ =>
  }

  /** Every solution respects what is derived without harm. */
  lemma {:induction false} HarmlessDerivationHolds(u: Universe, choice: Choice, i: Incompatibility)
    requires Derivable(u, i) && Harmless(u, i) && ValidSolution(u, choice)
    ensures !Violates(choice, i)
  {
    match i.cause
    case ConflictCause(conflict, other, t, a) =>
      if Violates(choice, i) {
        var f := s => PickFor(choice, s);
        AllIsViolates(u, choice, i);
        AllIsViolates(u, choice, conflict);
        AllIsViolates(u, choice, other);
        assert GoodTerm(u, t);
        GoodPick(u, choice, t);
        ExactStepIsImplied(u, f, i.terms, conflict.terms, other.terms, t, a);
        HarmlessDerivationHolds(u, choice, conflict);
        HarmlessDerivationHolds(u, choice, other);
      }
    case _ =>
      FactsHoldInSolutions(u, choice, i);
  }

  lemma AllIsViolates(u: Universe, choice: Choice, i: Incompatibility)
    requires ValidSolution(u, choice) && GoodTerms(u, i.terms)
    ensures All(s => PickFor(choice, s), i.terms) <==> Violates(choice, i)
  {
    forall t | t in i.terms ensures HoldsIn(choice, t) <==> PickFor(choice, SubjectOf(t)) in Meaning(t) {
      GoodPick(u, choice, t);
    }
  }

  /** A failure reached without harm refutes every solution. */
  lemma HarmlessFailureMeansNoSolution(u: Universe, i: Incompatibility, choice: Choice)
    requires Derivable(u, i) && Harmless(u, i) && IsFailure(i)
    ensures !ValidSolution(u, choice)
  {
    if ValidSolution(u, choice) {
      HarmlessDerivationHolds(u, choice, i);
    }
  }
}
