/** Transitivity of `SubtypeOf` through unions, wrappers, literals, length-bounded containers and refinements. */
module Transitivity {
  import opened Wrappers
  import opened Atoms
  import opened Constraints
  import opened Types
  import opened Order
  import opened OrderLaws

  // ----- one step of the definition, for sides that are already taken apart

  lemma UnfoldRefinedLeft(x: Type, y: Type)
    requires Core(x) && Core(y) && x.Refined? && !y.Any?
    requires !(y.Refined? && LengthOnly(y.con) && ContainerLength(x).Some?)
    ensures Below(x, y) <==> RefinedSubtype(false, x, y)
  {
  }

  lemma UnfoldRefinedRight(x: Type, y: Type)
    requires Core(x) && Core(y) && !x.Refined? && !x.Any? && y.Refined?
    requires !(LengthOnly(y.con) && ContainerLength(x).Some?)
    ensures Below(x, y) <==> x.Lit? && Below(x, y.base) && Satisfies(y.con, Scalar(x.atom))
  {
  }

  lemma UnfoldLength(x: Type, y: Type)
    requires Core(x) && Core(y) && y.Refined? && LengthOnly(y.con) && ContainerLength(x).Some?
    ensures Below(x, y) <==> Below(x, y.base) && IntsSubset(ContainerLength(x).value, y.con.length)
  {
  }

  lemma UnfoldShape(x: Type, y: Type)
    requires Core(x) && Core(y) && !x.Refined? && !y.Refined? && !x.Any? && !y.Any?
    ensures Below(x, y) <==> ShapeSubtype(false, x, y)
  {
  }

  // ----- scalar refinements

  /** The bases a scalar constraint sits on. */
  predicate ScalarBase(t: Type) {
    t == Lit(NullAtom) || t.Bool? || t.Int? || t.Real? || t.String? || t.Any?
  }

  lemma ConstrainedBase(t: Type)
    requires WellFormed(t) && t.Constrained()
    ensures Core(t.base) && !t.base.Refined?
    ensures if ContainerLength(t).Some? then LengthOnly(t.con) && Literal(t).None? else ScalarBase(t.base)
    ensures ContainerLength(t).Some? <==> ContainerLength(t.base).Some?
  {
    if ContainerLength(t.base).Some? {
      assert t.base.List? || t.base.Tuple? || t.base.Object?;
    }
  }

  lemma ScalarBasesAntisymmetric(x: Type, y: Type)
    requires ScalarBase(x) && ScalarBase(y) && Below(x, y) && Below(y, x)
    ensures x == y
  {
  }

  /** Only a literal is below a scalar refinement without being refined itself. */
  lemma BaseNotBelowRefinement(base: Type, z: Type)
    requires ScalarBase(base) && base != Lit(NullAtom) && Core(z) && z.Refined?
    ensures !Below(base, z)
  {
  }

  /** Constraints do not tell apart two atoms of the same value that a base both owns. */
  lemma SatisfiesRespectsValue(base: Type, c: Constraint, a: Atom, e: Atom)
    requires ScalarBase(base) && Fits(base, c)
    requires Below(Lit(a), base) && Below(Lit(e), base) && SameValue(a, e)
    requires Satisfies(c, Scalar(e))
    ensures Satisfies(c, Scalar(a))
  {
    if !base.Any? {
      UnfoldShape(Lit(a), base);
      UnfoldShape(Lit(e), base);
    }
    if base.Int? {
      assert a == e;
    } else if c.enum.Some? {
      var i :| 0 <= i < |c.enum.value| && CompareAtoms(e, c.enum.value[i]) == 0;
      CompareDecidesValue(e, c.enum.value[i]);
      CompareDecidesValue(a, c.enum.value[i]);
    }
  }

  lemma OwnAtomsBelow(base: Type, c: Constraint, i: nat)
    requires ScalarBase(base) && Fits(base, c) && c.enum.Some? && i < |c.enum.value|
    ensures Below(Lit(c.enum.value[i]), base)
  {
    var e := c.enum.value[i];
    assert KindOf(e) == KindOf(e);
    CompareDecidesValue(NullAtom, NullAtom);
  }

  /** The subset test is sound for the atoms a base owns. */
  lemma SubsetSound(base: Type, b: Constraint, c: Constraint, a: Atom)
    requires ScalarBase(base) && Fits(base, b) && Fits(base, c)
    requires Below(Lit(a), base) && Subset(b, c) && Satisfies(b, Scalar(a))
    ensures Satisfies(c, Scalar(a))
  {
    if b.enum.Some? {
      var i :| 0 <= i < |b.enum.value| && CompareAtoms(a, b.enum.value[i]) == 0;
      CompareDecidesValue(a, b.enum.value[i]);
      OwnAtomsBelow(base, b, i);
      SatisfiesRespectsValue(base, c, a, b.enum.value[i]);
    }
  }

  lemma SubsetTransitive(base: Type, a: Constraint, b: Constraint, c: Constraint)
    requires ScalarBase(base) && Fits(base, a) && Fits(base, b) && Fits(base, c)
    requires Subset(a, b) && Subset(b, c)
    ensures Subset(a, c)
  {
    if a.enum.Some? {
      forall i | 0 <= i < |a.enum.value| ensures Satisfies(c, Scalar(a.enum.value[i])) {
        OwnAtomsBelow(base, a, i);
        SubsetSound(base, b, c, a.enum.value[i]);
      }
    }
  }

  /** A singleton refinement is below whatever its atom is below. */
  lemma LiftLiteral(x: Type, z: Type)
    requires WellFormed(x) && Core(x) && Core(z) && x.Refined? && Literal(x).Some?
    requires Below(Lit(Literal(x).value), z)
    ensures Below(x, z)
  {
    if !z.Any? {
      var a := Literal(x).value;
      LiteralOfEnum(x);
      ConstrainedBase(x);
      UnfoldRefinedLeft(x, z);
      if z.Refined? {
        UnfoldRefinedRight(Lit(a), z);
      }
    }
  }

  /** What a subset of a singleton is: the same singleton. */
  lemma SubsetOfSingleton(base: Type, x: Constraint, y: Constraint)
    requires ScalarBase(base) && Fits(base, x) && Fits(base, y)
    requires Subset(x, y) && y.enum.Some? && |y.enum.value| == 1
    ensures x.enum == y.enum
  {
    var (e, f) := (x.enum.value, y.enum.value[0]);
    forall i | 0 <= i < |e| ensures SameValue(e[i], f) {
      assert Satisfies(y, Scalar(e[i]));
      CompareDecidesValue(e[i], f);
    }
    if |e| > 1 {
      assert CompareAtoms(e[0], e[1]) != 0;
      CompareDecidesValue(e[0], e[1]);
    }
    assert KindOf(e[0]) == KindOf(f) || base.Any?;
    assert e == [f];
    assert y.enum.value == [f];
  }

  // ----- the induction

  ghost function Measure(x: Type, y: Type, z: Type): nat {
    Size(x) + Size(y) + Size(z)
  }

  lemma FieldsTransitive(x: Type, y: Type, z: Type)
    requires x.Object? && y.Object? && z.Object?
    requires WellFormed(x) && WellFormed(y) && WellFormed(z)
    requires FieldsBelow(x.fields, y.fields) && FieldsBelow(y.fields, z.fields)
    ensures FieldsBelow(x.fields, z.fields)
    decreases Measure(x, y, z), 0
  {
    forall i | 0 <= i < |x.fields| ensures FieldBelow(x.fields[i], z.fields) {
      assert FieldBelow(x.fields[i], y.fields);
      var j := IndexOf(y.fields, x.fields[i].name);
      assert FieldBelow(y.fields[j], z.fields);
      var k := IndexOf(z.fields, y.fields[j].name);
      BelowTransitive(x.fields[i].typ, y.fields[j].typ, z.fields[k].typ);
    }
    RequiredTransitive(x.fields, y.fields, z.fields);
  }

  lemma RequiredTransitive(x: seq<Field>, y: seq<Field>, z: seq<Field>)
    requires RequiredIn(x, y) && RequiredIn(y, z)
    ensures RequiredIn(x, z)
  {
    forall k | 0 <= k < |z| && !z[k].optional
      ensures IndexOf(x, z[k].name) >= 0 && !x[IndexOf(x, z[k].name)].optional
    {
      var j := IndexOf(y, z[k].name);
      assert y[j].name == z[k].name && !y[j].optional;
    }
  }

  lemma ShapeTransitive(x: Type, y: Type, z: Type)
    requires WellFormed(x) && WellFormed(y) && WellFormed(z)
    requires Core(x) && Core(y) && Core(z) && !x.Refined? && !y.Refined? && !z.Refined?
    requires ShapeSubtype(false, x, y) && ShapeSubtype(false, y, z)
    ensures ShapeSubtype(false, x, z)
    decreases Measure(x, y, z), 1
  {
    if x.Object? {
      ObjectShape(x, y);
      ObjectShape(y, z);
      FieldsTransitive(x, y, z);
      ObjectShape(x, z);
    } else if x.List? {
      BelowTransitive(x.elem, y.elem, z.elem);
    } else if x.Tuple? && y.List? {
      forall i | 0 <= i < |x.elems| ensures SubtypeOf(false, x.elems[i], z.elem) {
        BelowTransitive(x.elems[i], y.elem, z.elem);
      }
    } else if x.Tuple? && z.List? {
      forall i | 0 <= i < |x.elems| ensures SubtypeOf(false, x.elems[i], z.elem) {
        BelowTransitive(x.elems[i], y.elems[i], z.elem);
      }
    } else if x.Tuple? {
      forall i | 0 <= i < |x.elems| ensures SubtypeOf(false, x.elems[i], z.elems[i]) {
        BelowTransitive(x.elems[i], y.elems[i], z.elems[i]);
      }
    } else if x.Lit? && y.Lit? {
      CompareDecidesValue(x.atom, y.atom);
      if z.Lit? {
        CompareDecidesValue(y.atom, z.atom);
        CompareDecidesValue(x.atom, z.atom);
      }
    }
  }

  /** The middle is a list, tuple or object, with or without a length bound. */
  lemma ContainerTransitive(x: Type, y: Type, z: Type)
    requires WellFormed(x) && WellFormed(y) && WellFormed(z)
    requires Core(x) && Core(y) && Core(z) && !x.Any? && !y.Any? && !z.Any?
    requires ContainerLength(y).Some?
    requires Below(x, y) && Below(y, z)
    ensures Below(x, z)
    decreases Measure(x, y, z), 2
  {
    ContainerLengthMonotone(x, y);
    if z.Refined? && LengthOnly(z.con) {
      UnfoldLength(y, z);
      BelowTransitive(x, y, z.base);
      UnfoldLength(x, z);
    } else {
      if z.Refined? {
        ConstrainedBase(z);
      }
      if y.Refined? {
        ConstrainedBase(y);
        UnfoldRefinedLeft(y, z);
        if z.Refined? && Below(y.base, z.base) && Below(z.base, y.base) {
          ContainerOnlyBelowContainer(y.base, z.base);
        } else {
          UnfoldLength(x, y);
          BelowTransitive(x, y.base, z);
        }
      } else if z.Refined? {
        UnfoldRefinedRight(y, z);
      } else if x.Refined? {
        ConstrainedBase(x);
        UnfoldRefinedLeft(x, y);
        BelowTransitive(x.base, y, z);
        UnfoldRefinedLeft(x, z);
      } else {
        UnfoldShape(x, y);
        UnfoldShape(y, z);
        ShapeTransitive(x, y, z);
        UnfoldShape(x, z);
      }
    }
  }

  /** The middle is a refined scalar, the left an atom. */
  lemma AtomRefinedTransitive(x: Type, y: Type, z: Type)
    requires WellFormed(x) && WellFormed(y) && WellFormed(z)
    requires Core(x) && Core(y) && Core(z) && !x.Any? && !y.Any? && !z.Any?
    requires !x.Refined? && ContainerLength(x).None?
    requires y.Refined? && ContainerLength(y).None?
    requires Below(x, y) && Below(y, z)
    ensures Below(x, z)
    decreases Measure(x, y, z), 1
  {
    ConstrainedBase(y);
    UnfoldRefinedRight(x, y);
    if z.Refined? && Below(y.base, z.base) && Below(z.base, y.base) {
      UnfoldRefinedLeft(y, z);
      ScalarBelowBoth(y, z);
      SubsetSound(y.base, y.con, z.con, x.atom);
      UnfoldRefinedRight(x, z);
    } else if Literal(y).Some? {
      UnfoldRefinedLeft(y, z);
      AtomBelowSingleton(x, y);
      BelowTransitive(x, Lit(Literal(y).value), z);
    } else {
      UnfoldRefinedLeft(y, z);
      BelowTransitive(x, y.base, z);
    }
  }

  /** The middle and the left are refined scalars. */
  lemma RefinedTransitive(x: Type, y: Type, z: Type)
    requires WellFormed(x) && WellFormed(y) && WellFormed(z)
    requires Core(x) && Core(y) && Core(z) && !y.Any? && !z.Any?
    requires x.Refined? && ContainerLength(x).None?
    requires y.Refined? && ContainerLength(y).None?
    requires Below(x, y) && Below(y, z)
    ensures Below(x, z)
    decreases Measure(x, y, z), 2
  {
    if Below(x.base, y.base) && Below(y.base, x.base) {
      SameBaseTransitive(x, y, z);
    } else {
      OtherBaseIsLiteral(x, y);
      BelowTransitive(Lit(Literal(x).value), y, z);
      LiftLiteral(x, z);
    }
  }

  lemma OtherBaseIsLiteral(x: Type, y: Type)
    requires WellFormed(x) && WellFormed(y) && Core(x) && Core(y) && x.Refined? && y.Refined?
    requires ContainerLength(x).None? && Below(x, y) && !(Below(x.base, y.base) && Below(y.base, x.base))
    ensures Literal(x).Some? && Below(Lit(Literal(x).value), y)
  {
    ConstrainedBase(x);
    UnfoldRefinedLeft(x, y);
    if x.base == Lit(NullAtom) {
      NullEnumIsLiteral(x);
    } else if Literal(x).None? {
      BaseNotBelowRefinement(x.base, y);
    }
  }

  lemma NullEnumIsLiteral(t: Type)
    requires WellFormed(t) && t.Constrained() && t.base == Lit(NullAtom)
    ensures Literal(t).Some?
  {
    if |t.con.enum.value| > 1 { NullsDoNotAscend(t.con.enum.value); }
    LiteralOfEnum(t);
  }

  lemma NullsDoNotAscend(e: seq<Atom>)
    requires AllOfKind(e, NullKind) && |e| > 1
    ensures !Ascending(e)
  {
    assert CompareAtoms(e[0], e[1]) == 0;
  }

  lemma ScalarBelowBoth(y: Type, z: Type)
    requires WellFormed(y) && WellFormed(z) && Core(y) && Core(z) && y.Refined? && z.Refined?
    requires ContainerLength(y).None?
    requires Below(y.base, z.base) && Below(z.base, y.base)
    ensures ScalarBase(y.base) && z.base == y.base && ContainerLength(z).None?
  {
    ConstrainedBase(y);
    ConstrainedBase(z);
    if ContainerLength(z.base).Some? {
      ContainerOnlyBelowContainer(z.base, y.base);
    } else {
      ScalarBasesAntisymmetric(y.base, z.base);
    }
  }

  lemma AtomBelowSingleton(x: Type, y: Type)
    requires x.Lit? && WellFormed(y) && Core(y) && y.Refined? && ScalarBase(y.base)
    requires Literal(y).Some? && Below(x, y.base) && Satisfies(y.con, Scalar(x.atom))
    ensures Below(x, Lit(Literal(y).value))
  {
    var b := Literal(y).value;
    LiteralOfEnum(y);
    assert KindOf(y.con.enum.value[0]) == KindOf(b);
    CompareDecidesValue(x.atom, b);
    if !y.base.Any? { UnfoldShape(x, y.base); }
    UnfoldShape(x, Lit(b));
  }

  /** Two refinements of one scalar base, then anything. */
  lemma SameBaseTransitive(x: Type, y: Type, z: Type)
    requires WellFormed(x) && WellFormed(y) && WellFormed(z)
    requires Core(x) && Core(y) && Core(z) && !z.Any?
    requires x.Refined? && y.Refined? && ContainerLength(x).None? && ContainerLength(y).None?
    requires Below(x.base, y.base) && Below(y.base, x.base) && Below(x, y) && Below(y, z)
    ensures Below(x, z)
    decreases Measure(x, y, z), 1
  {
    ScalarBelowBoth(x, y);
    SameBaseSubset(x, y);
    if z.Refined? && Below(y.base, z.base) && Below(z.base, y.base) {
      ThreeRefinements(x, y, z);
    } else if Literal(y).Some? {
      SingletonMiddle(x, y, z);
    } else {
      BaseMiddle(x, y, z);
    }
  }

  lemma BaseMiddle(x: Type, y: Type, z: Type)
    requires WellFormed(x) && WellFormed(y) && WellFormed(z)
    requires Core(x) && Core(y) && Core(z) && !z.Any?
    requires x.Refined? && y.Refined? && ContainerLength(x).None? && ContainerLength(y).None?
    requires x.base == y.base && ScalarBase(x.base) && Literal(y).None? && Below(y, z)
    requires !(z.Refined? && Below(y.base, z.base) && Below(z.base, y.base))
    ensures Below(x, z)
    decreases Measure(x, y, z), 0
  {
    BaseBelow(y, z);
    if Literal(x).Some? {
      LiteralBelowOwnBase(x);
      BelowTransitive(Lit(Literal(x).value), y.base, z);
      LiftLiteral(x, z);
    } else {
      BaseBelow(x, z);
    }
  }

  lemma LiteralBelowOwnBase(x: Type)
    requires WellFormed(x) && Core(x) && x.Refined? && ScalarBase(x.base) && Literal(x).Some?
    ensures Below(Lit(Literal(x).value), x.base)
  {
    LiteralOfEnum(x);
    OwnAtomsBelow(x.base, x.con, 0);
  }

  lemma ThreeRefinements(x: Type, y: Type, z: Type)
    requires WellFormed(x) && WellFormed(y) && WellFormed(z) && Core(x) && Core(y) && Core(z)
    requires x.Refined? && y.Refined? && z.Refined? && ContainerLength(x).None? && ContainerLength(y).None?
    requires x.base == y.base && ScalarBase(x.base) && Subset(x.con, y.con)
    requires Below(y.base, z.base) && Below(z.base, y.base) && Below(y, z)
    ensures Below(x, z)
  {
    ScalarBelowBoth(y, z);
    SameBaseSubset(y, z);
    SubsetTransitive(x.base, x.con, y.con, z.con);
    SameBaseSubset(x, z);
  }

  lemma SingletonMiddle(x: Type, y: Type, z: Type)
    requires WellFormed(x) && WellFormed(y) && Core(x) && Core(y) && Core(z) && !z.Any?
    requires x.Refined? && y.Refined? && ContainerLength(y).None?
    requires x.base == y.base && ScalarBase(x.base) && Subset(x.con, y.con)
    requires !(z.Refined? && Below(y.base, z.base) && Below(z.base, y.base))
    requires Literal(y).Some? && Below(y, z)
    ensures Below(x, z)
  {
    LiteralOfEnum(y);
    SubsetOfSingleton(x.base, x.con, y.con);
    LiteralOfEnum(x);
    UnfoldRefinedLeft(y, z);
    LiftLiteral(x, z);
  }

  lemma SameBaseSubset(x: Type, y: Type)
    requires Core(x) && Core(y) && x.Refined? && y.Refined? && ContainerLength(x).None?
    requires Below(x.base, y.base) && Below(y.base, x.base)
    ensures Below(x, y) <==> Subset(x.con, y.con)
  {
    UnfoldRefinedLeft(x, y);
  }

  lemma BaseBelow(y: Type, z: Type)
    requires Core(y) && Core(z) && y.Refined? && ContainerLength(y).None? && !z.Any?
    requires !(z.Refined? && Below(y.base, z.base) && Below(z.base, y.base)) && Literal(y).None?
    ensures Below(y, z) <==> Below(y.base, z)
  {
    UnfoldRefinedLeft(y, z);
  }

  /** The middle is a scalar type or an atom. */
  lemma ScalarTransitive(x: Type, y: Type, z: Type)
    requires WellFormed(x) && WellFormed(y) && WellFormed(z)
    requires Core(x) && Core(y) && Core(z) && !x.Any? && !y.Any? && !z.Any?
    requires !y.Refined? && ContainerLength(y).None? && ContainerLength(x).None?
    requires Below(x, y) && Below(y, z)
    ensures Below(x, z)
    decreases Measure(x, y, z), 2
  {
    if x.Refined? {
      ConstrainedBase(x);
      UnfoldRefinedLeft(x, y);
      if Literal(x).Some? {
        BelowTransitive(Lit(Literal(x).value), y, z);
        LiftLiteral(x, z);
      } else {
        if x.base == Lit(NullAtom) { NullEnumIsLiteral(x); }
        BelowTransitive(x.base, y, z);
        if z.Refined? { BaseNotBelowRefinement(x.base, z); }
        UnfoldRefinedLeft(x, z);
      }
    } else {
      UnfoldShape(x, y);
      if z.Refined? {
        UnfoldRefinedRight(y, z);
        ConstrainedBase(z);
        if ContainerLength(z).Some? { UnfoldShape(y, z.base); }
        BelowTransitive(x, y, z.base);
        CompareDecidesValue(x.atom, y.atom);
        SatisfiesRespectsValue(z.base, z.con, x.atom, y.atom);
        UnfoldRefinedRight(x, z);
      } else {
        UnfoldShape(y, z);
        ShapeTransitive(x, y, z);
        UnfoldShape(x, z);
      }
    }
  }

  lemma CoreTransitive(x: Type, y: Type, z: Type)
    requires WellFormed(x) && WellFormed(y) && WellFormed(z)
    requires Core(x) && Core(y) && Core(z)
    requires Below(x, y) && Below(y, z)
    ensures Below(x, z)
    decreases Measure(x, y, z), 3
  {
    if !z.Any? {
      if ContainerLength(y).Some? {
        ContainerTransitive(x, y, z);
      } else {
        if ContainerLength(x).Some? { ContainerOnlyBelowContainer(x, y); }
        if !y.Refined? { ScalarTransitive(x, y, z); }
        else if x.Refined? { RefinedTransitive(x, y, z); }
        else { AtomRefinedTransitive(x, y, z); }
      }
    }
  }

  /** The left is taken apart; take the middle apart. */
  lemma MiddleTransitive(x: Type, y: Type, z: Type)
    requires WellFormed(x) && WellFormed(y) && WellFormed(z)
    requires Core(x) && !x.Any? && Below(x, y) && Below(y, z) && !z.Any?
    ensures Below(x, z)
    decreases Measure(x, y, z), 5
  {
    if y.Wrapper() {
      BelowTransitive(x, y.base, z);
    } else if y.Sum? {
      var i :| 0 <= i < |y.members| && Below(x, y.members[i]);
      BelowTransitive(x, y.members[i], z);
    } else {
      RightTransitive(x, y, z);
    }
  }

  /** Left and middle are taken apart; take the right apart. */
  lemma RightTransitive(x: Type, y: Type, z: Type)
    requires WellFormed(x) && WellFormed(y) && WellFormed(z)
    requires Core(x) && Core(y) && !x.Any? && Below(x, y) && Below(y, z) && !z.Any?
    ensures Below(x, z)
    decreases Measure(x, y, z), 4
  {
    if z.Wrapper() {
      BelowTransitive(x, y, z.base);
    } else if z.Sum? {
      var i :| 0 <= i < |z.members| && Below(y, z.members[i]);
      BelowTransitive(x, y, z.members[i]);
      BelowMember(x, z, i);
    } else {
      CoreTransitive(x, y, z);
    }
  }

  lemma UnfoldSumLeft(x: Type, z: Type)
    requires x.Sum? && !z.Any? && !z.Never?
    ensures Below(x, z) <==> forall i :: 0 <= i < |x.members| ==> Below(x.members[i], z)
  {
  }

  lemma UnfoldWrapperLeft(x: Type, z: Type)
    requires x.Wrapper() && !z.Any? && !z.Never?
    ensures Below(x, z) <==> Below(x.base, z)
  {
  }

  /** The bottom is only above itself, the top only below itself. */
  lemma Ends(x: Type, y: Type)
    requires Below(x, y)
    ensures y.Never? ==> x.Never?
    ensures x.Any? ==> y.Any?
  {
  }

  lemma {:induction false} BelowTransitive(x: Type, y: Type, z: Type)
    requires WellFormed(x) && WellFormed(y) && WellFormed(z)
    requires Below(x, y) && Below(y, z)
    ensures Below(x, z)
    decreases Measure(x, y, z), 6
  {
    Ends(x, y);
    Ends(y, z);
    if !x.Never? && !z.Any? {
      if x.Sum? {
        UnfoldSumLeft(x, y);
        UnfoldSumLeft(x, z);
        forall i | 0 <= i < |x.members| ensures Below(x.members[i], z) {
          BelowTransitive(x.members[i], y, z);
        }
      } else if x.Wrapper() {
        UnfoldWrapperLeft(x, y);
        UnfoldWrapperLeft(x, z);
        BelowTransitive(x.base, y, z);
      } else {
        MiddleTransitive(x, y, z);
      }
    }
  }
}
