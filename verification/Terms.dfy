/** Terms: the statements the version solver reasons with, and what they mean. */
module Terms {

  datatype Option<+T> = None | Some(value: T)

  ghost function AnyOf<T>(s: set<T>): (x: T)
    requires s != {}
    ensures x in s
  {
    var x :| x in s;
    x
  }

  ghost function AnyOutside<T>(a: set<T>, b: set<T>): (x: T)
    requires a < b
    ensures x in b && x !in a
  {
    assert !(b <= a);
    var x :| x in b && x !in a;
    x
  }

  /** Iteration over a set, in no particular order. */
  method TakeOne<T>(s: set<T>) returns (x: T)
    requires s != {}
    ensures x in s
  {
    x :| x in s;
  }

  // Package names and versions are represented by integers: the solver only compares them.
  type Name = int
  type Version = int

  /** The key under which related terms are grouped. */
  datatype Subject = Root | Package(name: Name)

  datatype Term =
    | RootConstraint(positive: bool)
    | VersionConstraint(name: Name, versions: set<Version>, positive: bool, all: set<Version>)

  function SubjectOf(t: Term): Subject {
    match t
    case RootConstraint(_) => Root
    case VersionConstraint(n, _, _, _) => Package(n)
  }

  function Allowed(t: Term): set<Version>
    requires t.VersionConstraint?
  {
    if t.positive then t.all * t.versions else t.all - t.versions
  }

  predicate Satisfies(t: Term, o: Term)
    requires SubjectOf(t) == SubjectOf(o)
  {
    if t.RootConstraint? then t == o
    else if !t.positive && o.positive then false
    else Allowed(t) <= Allowed(o)
  }

  function Inverse(t: Term): Term {
    t.(positive := !t.positive)
  }

  function Intersect(t: Term, o: Term): Option<Term>
    requires SubjectOf(t) == SubjectOf(o)
  {
    if t.RootConstraint? then (if t == o then Some(t) else None)
    else
      var positive := t.positive || o.positive;
      var versions := if positive then Allowed(t) * Allowed(o) else t.versions + o.versions;
      if versions == {} then None
      else Some(VersionConstraint(t.name, versions, positive, t.all))
  }

  function Difference(t: Term, o: Term): Option<Term>
    requires SubjectOf(t) == SubjectOf(o)
  {
    if t.RootConstraint? then (if t == o then None else Some(t))
    else
      var versions := Allowed(t) - Allowed(o);
      if versions == {} then None
      else Some(VersionConstraint(t.name, versions, true, t.all))
  }

  // ---------- Meaning ----------

  /** What a complete solution may say about one subject. Root is picked as At(0). */
  datatype Pick = Absent | At(version: Version)

  predicate Holds(t: Term, p: Pick) {
    match t
    case RootConstraint(positive) => positive == p.At?
    case VersionConstraint(_, versions, positive, _) => positive == (p.At? && p.version in versions)
  }

  function Domain(t: Term): set<Pick> {
    {Absent} + if t.RootConstraint? then {At(0)} else set v | v in t.all :: At(v)
  }

  function Meaning(t: Term): set<Pick> {
    set p | p in Domain(t) && Holds(t, p)
  }

  /** Two terms about the same package, built from the same list of its versions. */
  predicate SameSubject(t: Term, o: Term) {
    SubjectOf(t) == SubjectOf(o) && (t.VersionConstraint? ==> t.all == o.all)
  }

  /** The one combination on which `Difference` forgets a possibility (the absent package). */
  predicate Lossy(t: Term, o: Term) {
    t.VersionConstraint? && !t.positive && o.positive
  }

  predicate BothExcludeNothing(t: Term, o: Term) {
    t.VersionConstraint? && o.VersionConstraint? && !t.positive && !o.positive && t.versions == o.versions == {}
  }

  /** Membership in a meaning, read off the term. */
  lemma MeaningMembers(t: Term)
    ensures Absent in Meaning(t) <==> !t.positive
    ensures t.RootConstraint? ==> forall v :: At(v) in Meaning(t) <==> t.positive && v == 0
    ensures t.VersionConstraint? ==> forall v :: At(v) in Meaning(t) <==> v in Allowed(t)
  {
  }

  lemma SatisfiesIsImplication(t: Term, o: Term)
    requires SameSubject(t, o)
    ensures Satisfies(t, o) <==> Meaning(t) <= Meaning(o)
  {
    MeaningMembers(t);
    MeaningMembers(o);
    if t.RootConstraint? {
      assert At(0) in Meaning(t) || Absent in Meaning(t);
    } else if Meaning(t) <= Meaning(o) {
      assert Allowed(t) <= Allowed(o) by {
        forall v | v in Allowed(t) ensures v in Allowed(o) { assert At(v) in Meaning(t); }
      }
      assert Absent in Meaning(t) ==> Absent in Meaning(o);
    }
  }

  lemma IntersectIsConjunction(t: Term, o: Term)
    requires SameSubject(t, o)
    ensures Intersect(t, o).Some? ==>
              var r := Intersect(t, o).value;
              SameSubject(r, t) && Meaning(r) == Meaning(t) * Meaning(o)
    ensures Intersect(t, o).None? <==> Meaning(t) * Meaning(o) == {} || BothExcludeNothing(t, o)
  {
    MeaningMembers(t);
    MeaningMembers(o);
    match Intersect(t, o)
    case Some(r) =>
      MeaningMembers(r);
      if t.VersionConstraint? {
        assert Allowed(r) == Allowed(t) * Allowed(o);
        if r.positive {
          if Meaning(t) * Meaning(o) == {} {
            forall v ensures v !in r.versions {
              assert At(v) !in Meaning(t) * Meaning(o);
            }
            assert false;
          }
        } else {
          assert Absent in Meaning(t) * Meaning(o);
        }
      }
      assert Meaning(r) == Meaning(t) * Meaning(o);
      assert t.RootConstraint? ==> At(0) in Meaning(r) || Absent in Meaning(r);
    case None =>
      if !BothExcludeNothing(t, o) {
        forall p ensures p !in Meaning(t) * Meaning(o) {
          if p.At? && t.VersionConstraint? && (t.positive || o.positive) {
            assert p.version !in Allowed(t) * Allowed(o);
          }
        }
      }
  }

  lemma InverseIsNegation(t: Term)
    ensures SameSubject(t, Inverse(t)) && Inverse(Inverse(t)) == t
    ensures Meaning(Inverse(t)) == Domain(t) - Meaning(t)
  {
  }

  /** `Difference` is set difference exactly when it is not lossy; a lossy one drops only Absent. */
  lemma DifferenceIsExactUnlessLossy(t: Term, o: Term)
    requires SameSubject(t, o)
    ensures var left := match Difference(t, o) case Some(d) => Meaning(d) case None => {};
            && (left == Meaning(t) - Meaning(o) <==> !Lossy(t, o))
            && left == (Meaning(t) - Meaning(o)) - (if Lossy(t, o) then {Absent} else {})
    ensures Difference(t, o).Some? ==> SameSubject(Difference(t, o).value, t)
  {
    if t.RootConstraint? {
      assert At(0) in Meaning(t) <==> t.positive;
      assert Absent in Meaning(t) <==> !t.positive;
      assert At(0) in Meaning(o) <==> o.positive;
      assert Absent in Meaning(o) <==> !o.positive;
    } else {
      var left := match Difference(t, o) case Some(d) => Meaning(d) case None => {};
      assert Absent in Meaning(t) - Meaning(o) <==> Lossy(t, o);
      assert forall v :: At(v) in Meaning(t) - Meaning(o) <==> v in Allowed(t) - Allowed(o);
      assert forall v :: At(v) in left <==> v in Allowed(t) - Allowed(o);
      assert Absent !in left;
    }
  }

  /** A term that is neither implied nor excluded can be negated: that narrows, but not to nothing. */
  lemma NegationNarrows(c: Term, open: Term)
    requires SameSubject(c, open) && !Satisfies(c, open) && Intersect(c, open).Some?
    ensures var r := Intersect(c, Inverse(open));
            r.Some? && SameSubject(r.value, c) && {} < Meaning(r.value) < Meaning(c)
  {
    SatisfiesIsImplication(c, open);
    IntersectIsConjunction(c, open);
    IntersectIsConjunction(c, Inverse(open));
    InverseIsNegation(open);
    assert Domain(c) == Domain(open);
    assert Meaning(c) * Meaning(Inverse(open)) == Meaning(c) - Meaning(open) < Meaning(c);
  }
}
