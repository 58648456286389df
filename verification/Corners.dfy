/** Where the order's promises stop: enums over `any` and wrappers around `any` (internal/compiled/order.go). */
module Corners {
  import opened Wrappers
  import opened Atoms
  import opened Constraints
  import opened Types
  import opened Order
  import opened OrderLaws
  import opened Transitivity
  import opened Soundness

  // ----- enums over `any`

  function AnyEnum(e: seq<Atom>): Type {
    EnumType(Any, e)
  }

  /** The one enum over `any` that is not well-formed although it is sorted and free of duplicates. */
  predicate SingleInt(e: seq<Atom>) {
    |e| == 1 && e[0].IntAtom?
  }

  lemma SingletonFacts(e: Atom)
    ensures Literal(AnyEnum([e])) == Some(e)
    ensures forall a :: Satisfies(AnyEnum([e]).con, Scalar(a)) <==> SameValue(a, e)
  {
    forall a ensures Satisfies(AnyEnum([e]).con, Scalar(a)) <==> SameValue(a, e) {
      CompareDecidesValue(a, e);
      assert [e][0] == e;
    }
  }

  /** On the left a one-atom enum over `any` stands for its atom. */
  lemma {:induction false} LeftIsLiteral(e: Atom, z: Type)
    requires WellFormed(z)
    ensures Below(AnyEnum([e]), z) <==> Below(Lit(e), z)
    decreases Size(z)
  {
    var a := AnyEnum([e]);
    SingletonFacts(e);
    if z.Any? || z.Never? {
    } else if z.Wrapper() {
      BelowWrapper(a, z);
      BelowWrapper(Lit(e), z);
      LeftIsLiteral(e, z.base);
    } else if z.Sum? {
      forall k | 0 <= k < |z.members| ensures Below(a, z.members[k]) <==> Below(Lit(e), z.members[k]) {
        LeftIsLiteral(e, z.members[k]);
      }
    } else {
      UnfoldRefinedLeft(a, z);
      if z.Refined? && z.base.Any? { UnfoldRefinedRight(Lit(e), z); }
    }
  }

  /** On the right the integer atom of a one-atom enum over `any` can be read as a decimal. */
  lemma {:induction false} RightIsDecimal(x: Type, i: int)
    requires WellFormed(x)
    ensures Below(x, AnyEnum([IntAtom(i)])) <==> Below(x, AnyEnum([RealAtom(i as real)]))
    decreases Size(x)
  {
    var (n, d) := (AnyEnum([IntAtom(i)]), AnyEnum([RealAtom(i as real)]));
    SingletonFacts(IntAtom(i));
    SingletonFacts(RealAtom(i as real));
    if x.Sum? {
      UnfoldSumLeft(x, n);
      UnfoldSumLeft(x, d);
      forall k | 0 <= k < |x.members| ensures Below(x.members[k], n) <==> Below(x.members[k], d) {
        RightIsDecimal(x.members[k], i);
      }
    } else if x.Wrapper() {
      UnfoldWrapperLeft(x, n);
      UnfoldWrapperLeft(x, d);
      RightIsDecimal(x.base, i);
    } else if x.Refined? {
      RefinedRightIsDecimal(x, i);
    } else if !x.Any? && !x.Never? {
      UnfoldRefinedRight(x, n);
      UnfoldRefinedRight(x, d);
    }
  }

  lemma {:induction false} RefinedRightIsDecimal(x: Type, i: int)
    requires WellFormed(x) && x.Constrained()
    ensures Below(x, AnyEnum([IntAtom(i)])) <==> Below(x, AnyEnum([RealAtom(i as real)]))
  {
    var (n, d) := (AnyEnum([IntAtom(i)]), AnyEnum([RealAtom(i as real)]));
    SingletonFacts(IntAtom(i));
    SingletonFacts(RealAtom(i as real));
    UnfoldRefinedLeft(x, n);
    UnfoldRefinedLeft(x, d);
    if Literal(x).Some? {
      UnfoldRefinedRight(Lit(Literal(x).value), n);
      UnfoldRefinedRight(Lit(Literal(x).value), d);
    }
    if !x.base.Any? {
      UnfoldRefinedRight(x.base, n);
      UnfoldRefinedRight(x.base, d);
    }
  }

  /** The soundness promise for one type and one larger type. */
  ghost predicate SoundBelow(a: Type, b: Type) {
    forall v :: WellFormed(v) && IsValue(v) && Accepts(a, v) ==> Accepts(b, v)
  }

  /** An enum of several atoms over `any` is only below what takes all of them. */
  lemma {:induction false} SeveralBelow(e: seq<Atom>, b: Type, v: Atom)
    requires |e| > 1 && WellFormed(b) && Below(AnyEnum(e), b) && InEnum(e, v)
    ensures Accepts(b, Lit(v))
    decreases Size(b)
  {
    var a := AnyEnum(e);
    if b.Any? {
    } else if b.Wrapper() {
      SeveralBelow(e, b.base, v);
    } else if b.Sum? {
      var k :| 0 <= k < |b.members| && Below(a, b.members[k]);
      SeveralBelow(e, b.members[k], v);
    } else {
      UnfoldRefinedLeft(a, b);
      var i :| 0 <= i < |e| && CompareAtoms(v, e[i]) == 0;
      CompareDecidesValue(v, e[i]);
      SatisfiesRespectsValue(Any, b.con, v, e[i]);
    }
  }

  lemma SingleIntUnsound(i: int)
    ensures Below(AnyEnum([IntAtom(i)]), Int) && !SoundBelow(AnyEnum([IntAtom(i)]), Int)
  {
    var (a, v) := (AnyEnum([IntAtom(i)]), Lit(RealAtom(i as real)));
    SingletonFacts(IntAtom(i));
    LeftIsLiteral(IntAtom(i), Int);
    UnfoldShape(Lit(IntAtom(i)), Int);
    assert LiteralBase(v) == v && SameValue(v.atom, IntAtom(i));
    assert Satisfies(a.con, SubjectOf(v)) && Accepts(Any, v);
    assert Accepts(a, v) && !Accepts(Int, v);
  }

  /** The order is sound for an enum over `any` exactly when it is not a single integer: that one also admits the
    * decimal of its value, which an integer type above it does not. */
  lemma AnyEnumSoundExact(e: seq<Atom>)
    requires e != []
    ensures (forall b :: WellFormed(b) && Below(AnyEnum(e), b) ==> SoundBelow(AnyEnum(e), b)) <==> !SingleInt(e)
  {
    var a := AnyEnum(e);
    if SingleInt(e) {
      assert e == [IntAtom(e[0].i)];
      SingleIntUnsound(e[0].i);
    } else {
      forall b | WellFormed(b) && Below(a, b) ensures SoundBelow(a, b) {
        forall v | WellFormed(v) && IsValue(v) && Accepts(a, v) ensures Accepts(b, v) {
          if |e| == 1 {
            SubtypeSound(a, b, v);
          } else {
            SeveralBelow(e, b, LiteralBase(v).atom);
            AcceptsLooksThroughRefinements(b, v);
          }
        }
      }
    }
  }

  /** An enum over `any` in the middle of a chain. */
  ghost predicate Joins(y: Type) {
    forall x, z :: WellFormed(x) && WellFormed(z) && Below(x, y) && Below(y, z) ==> Below(x, z)
  }

  /** A chain that breaks: (any, x == 1.0) <= (any, x == 1) <= int, but the first is not below int. */
  lemma AnyEnumNotTransitive(i: int)
    ensures var (d, n) := (AnyEnum([RealAtom(i as real)]), AnyEnum([IntAtom(i)]));
      WellFormed(d) && Below(d, n) && Below(n, Int) && !Below(d, Int)
  {
    var (r, n) := (RealAtom(i as real), IntAtom(i));
    assert WellFormed(AnyEnum([r]));
    BelowReflexive(AnyEnum([r]));
    RightIsDecimal(AnyEnum([r]), i);
    LeftIsLiteral(n, Int);
    LeftIsLiteral(r, Int);
    UnfoldShape(Lit(n), Int);
    UnfoldShape(Lit(r), Int);
  }

  /** Transitivity through an enum over `any`, sorted and without duplicates, holds exactly when it is not a single
    * integer. */
  lemma AnyEnumTransitiveExact(e: seq<Atom>)
    requires e != [] && NeighboursDiffer(e)
    ensures Joins(AnyEnum(e)) <==> !SingleInt(e)
  {
    var y := AnyEnum(e);
    if SingleInt(e) {
      assert e == [IntAtom(e[0].i)];
      AnyEnumNotTransitive(e[0].i);
    } else {
      forall x, z | WellFormed(x) && WellFormed(z) && Below(x, y) && Below(y, z) ensures Below(x, z) {
        BelowTransitive(x, y, z);
      }
    }
  }

  /** At the left end of a chain any such enum will do, a single integer too. */
  lemma AnyEnumLeftTransitive(e: seq<Atom>, y: Type, z: Type)
    requires e != [] && NeighboursDiffer(e) && WellFormed(y) && WellFormed(z)
    requires Below(AnyEnum(e), y) && Below(y, z)
    ensures Below(AnyEnum(e), z)
  {
    if SingleInt(e) {
      assert e == [e[0]];
      LeftIsLiteral(e[0], y);
      BelowTransitive(Lit(e[0]), y, z);
      LeftIsLiteral(e[0], z);
    } else {
      BelowTransitive(AnyEnum(e), y, z);
    }
  }

  /** And at the right end. */
  lemma AnyEnumRightTransitive(x: Type, y: Type, e: seq<Atom>)
    requires e != [] && NeighboursDiffer(e) && WellFormed(x) && WellFormed(y)
    requires Below(x, y) && Below(y, AnyEnum(e))
    ensures Below(x, AnyEnum(e))
  {
    if SingleInt(e) {
      var (i, r) := (e[0].i, RealAtom(e[0].i as real));
      assert e == [IntAtom(i)];
      assert WellFormed(AnyEnum([r]));
      RightIsDecimal(y, i);
      BelowTransitive(x, y, AnyEnum([r]));
      RightIsDecimal(x, i);
    } else {
      BelowTransitive(x, y, AnyEnum(e));
    }
  }

  // ----- a wrapper around `any`

  /** Metadata around `any` is not below itself without the identity shortcut; around anything else
    * well-formed it is. */
  lemma WrapperReflexiveExact(w: Type)
    requires w.Wrapper() && WellFormed(w.base) && (w.base.Any? || w.base.Never? || WellFormed(w))
    ensures Below(w, w) <==> !w.base.Any?
  {
    if w.base.Any? || w.base.Never? {
      UnfoldWrapperLeft(w, w);
      assert Below(w.base, w) == w.base.Never?;
    } else {
      BelowReflexive(w);
    }
  }
}
