/** The order against the reference semantics: a concrete value is below a type exactly when the type
  * accepts it, so the order is sound; and the identity shortcut changes no answer. */
module Soundness {
  import opened Wrappers
  import opened Atoms
  import opened Constraints
  import opened Types
  import opened Order
  import opened OrderLaws
  import opened Transitivity

  lemma AcceptsLooksThroughRefinements(t: Type, v: Type)
    ensures Accepts(t, v) == Accepts(t, LiteralBase(v))
  {
  }

  /** An atom and a type taken apart. */
  lemma {:induction false} AtomBelowIffAccepted(a: Atom, t: Type)
    requires WellFormed(t) && Core(t)
    ensures Below(Lit(a), t) <==> Accepts(t, Lit(a))
    decreases Size(t)
  {
    var v := Lit(a);
    if t.Refined? {
      ConstrainedBase(t);
      AtomBelowIffAccepted(a, t.base);
      UnfoldRefinedRight(v, t);
      AcceptsLooksThroughRefinements(t.base, v);
    } else if !t.Any? {
      UnfoldShape(v, t);
      if t.Lit? {
        CompareDecidesValue(a, t.atom);
        CompareDecidesValue(t.atom, a);
      }
    }
  }

  /** The literal of a singleton refinement stands for it on the left of the order. */
  lemma SingletonBelow(v: Type, t: Type)
    requires WellFormed(v) && WellFormed(t) && Core(v) && Core(t) && v.Refined? && Literal(v).Some?
    ensures Below(v, t) <==> Below(Lit(Literal(v).value), t)
  {
    var a := Literal(v).value;
    LiteralOfEnum(v);
    ConstrainedBase(v);
    if Below(Lit(a), t) {
      LiftLiteral(v, t);
    }
    if Below(v, t) {
      assert CompareAtoms(a, a) == 0 by { CompareDecidesValue(a, a); }
      assert InEnum(v.con.enum.value, a);
      OwnAtomsBelow(v.base, v.con, 0);
      assert Below(Lit(a), v) by { UnfoldRefinedRight(Lit(a), v); }
      BelowTransitive(Lit(a), v, t);
    }
  }

  /** The shape bounds of a concrete container are its length. */
  lemma {:induction false} ValueLength(v: Type)
    requires WellFormed(v) && Core(v) && IsValue(v) && Literal(v).None?
    ensures var b := LiteralBase(v);
      && (b.Tuple? || b.Object?)
      && ContainerLength(v) == Some(IntBounds(LengthOf(SubjectOf(b)), LengthOf(SubjectOf(b))))
  {
    if v.Refined? {
      ConstrainedBase(v);
      if v.base.Lit? { NullEnumIsLiteral(v); } else { ValueLength(v.base); }
    } else if v.Object? {
      AllRequired(v.fields);
    }
  }

  lemma {:induction false} AllRequired(fs: seq<Field>)
    requires forall i :: 0 <= i < |fs| ==> !fs[i].optional
    ensures RequiredCount(fs) == |fs|
  {
    if fs != [] { AllRequired(fs[..|fs| - 1]); }
  }

  /** A concrete container and a length-bounded type. */
  lemma LengthBelowIffAccepted(v: Type, t: Type)
    requires WellFormed(v) && WellFormed(t) && Core(v) && Core(t) && t.Refined?
    requires IsValue(v) && Literal(v).None?
    requires Below(v, t.base) <==> Accepts(t.base, v)
    ensures Below(v, t) <==> Accepts(t, v)
  {
    ValueLength(v);
    ConstrainedBase(t);
    AcceptsLooksThroughRefinements(t.base, v);
    if LengthOnly(t.con) {
      UnfoldLength(v, t);
    } else if Below(v, t) {
      ContainerOnlyBelowContainer(v, t);
    }
  }

  lemma TupleBelowIffAccepted(v: Type, t: Type)
    requires v.Tuple? && WellFormed(t) && Core(t) && !t.Refined? && !t.Any?
    requires t.List? ==>
      forall i :: 0 <= i < |v.elems| ==> (Below(v.elems[i], t.elem) <==> Accepts(t.elem, v.elems[i]))
    requires t.Tuple? && |v.elems| == |t.elems| ==>
      forall i :: 0 <= i < |v.elems| ==> (Below(v.elems[i], t.elems[i]) <==> Accepts(t.elems[i], v.elems[i]))
    ensures Below(v, t) <==> Accepts(t, v)
  {
    UnfoldShape(v, t);
  }

  predicate FieldsAccept(want: seq<Field>, got: seq<Field>) {
    KeysFit(want, got) &&
    forall i :: 0 <= i < |want| && IndexOf(got, want[i].name) >= 0 ==>
      Accepts(want[i].typ, got[IndexOf(got, want[i].name)].typ)
  }

  /** Each given field is below its declaration exactly when the declaration accepts it. */
  predicate FieldsAgree(got: seq<Field>, want: seq<Field>) {
    forall i, j :: 0 <= i < |got| && 0 <= j < |want| ==>
      (Below(got[i].typ, want[j].typ) <==> Accepts(want[j].typ, got[i].typ))
  }

  lemma FieldsBelowAccepted(got: seq<Field>, want: seq<Field>)
    requires SortedFields(want) && FieldsAgree(got, want) && FieldsBelow(got, want)
    ensures FieldsAccept(want, got)
  {
    forall j | 0 <= j < |got| ensures IndexOf(want, got[j].name) >= 0 {
      assert FieldBelow(got[j], want);
    }
    forall i | 0 <= i < |want| && IndexOf(got, want[i].name) >= 0
      ensures Accepts(want[i].typ, got[IndexOf(got, want[i].name)].typ)
    {
      var j := IndexOf(got, want[i].name);
      assert FieldBelow(got[j], want);
      IndexOfOwnField(want, i);
    }
  }

  lemma FieldsAcceptedBelow(got: seq<Field>, want: seq<Field>)
    requires SortedFields(got) && FieldsAgree(got, want) && FieldsAccept(want, got)
    requires forall i :: 0 <= i < |got| ==> !got[i].optional
    ensures FieldsBelow(got, want)
  {
    forall j | 0 <= j < |got| ensures FieldBelow(got[j], want) {
      var i := IndexOf(want, got[j].name);
      IndexOfOwnField(got, j);
      assert want[i].name == got[j].name;
    }
  }

  lemma ObjectBelowIffAccepted(v: Type, t: Type)
    requires v.Object? && t.Object? && WellFormed(v) && WellFormed(t) && IsValue(v)
    requires FieldsAgree(v.fields, t.fields)
    ensures Below(v, t) <==> Accepts(t, v)
  {
    UnfoldShape(v, t);
    ObjectShape(v, t);
    assert Accepts(t, v) == FieldsAccept(t.fields, v.fields);
    if FieldsBelow(v.fields, t.fields) { FieldsBelowAccepted(v.fields, t.fields); }
    if FieldsAccept(t.fields, v.fields) { FieldsAcceptedBelow(v.fields, t.fields); }
  }

  /** A concrete value is below a well-formed type exactly when the type accepts it: the test that
    * `TypeCheck` makes and the one that `ValidType` makes agree. */
  lemma {:induction false} ValueBelowIffAccepted(v: Type, t: Type)
    requires WellFormed(v) && WellFormed(t) && IsValue(v)
    ensures Below(v, t) <==> Accepts(t, v)
    decreases Size(v) + Size(t), 3
  {
    if t.Any? || t.Never? {
    } else if v.Wrapper() {
      UnfoldWrapperLeft(v, t);
      ValueBelowIffAccepted(v.base, t);
      AcceptsLooksThroughRefinements(t, v);
      AcceptsLooksThroughRefinements(t, v.base);
    } else if t.Wrapper() {
      BelowWrapper(v, t);
      ValueBelowIffAccepted(v, t.base);
      AcceptsLooksThroughRefinements(t.base, v);
    } else if t.Sum? {
      forall i | 0 <= i < |t.members| ensures Below(v, t.members[i]) <==> Accepts(t.members[i], v) {
        ValueBelowIffAccepted(v, t.members[i]);
      }
      SumBelowIffAccepted(v, t);
    } else {
      CoreValueBelowIffAccepted(v, t);
    }
  }

  lemma SumBelowIffAccepted(v: Type, t: Type)
    requires Core(v) && !v.Any? && t.Sum?
    requires forall i :: 0 <= i < |t.members| ==> (Below(v, t.members[i]) <==> Accepts(t.members[i], v))
    ensures Below(v, t) <==> Accepts(t, v)
  {
    forall i | 0 <= i < |t.members| ensures Accepts(t.members[i], v) == Accepts(t.members[i], LiteralBase(v)) {
      AcceptsLooksThroughRefinements(t.members[i], v);
    }
  }

  lemma CoreValueBelowIffAccepted(v: Type, t: Type)
    requires WellFormed(v) && WellFormed(t) && Core(v) && Core(t) && IsValue(v) && !t.Any?
    ensures Below(v, t) <==> Accepts(t, v)
    decreases Size(v) + Size(t), 2
  {
    if Literal(v).Some? {
      AtomBelowIffAccepted(Literal(v).value, t);
      AcceptsLooksThroughRefinements(t, v);
      if v.Refined? { SingletonBelow(v, t); }
    } else if t.Refined? {
      ConstrainedBase(t);
      ValueBelowIffAccepted(v, t.base);
      LengthBelowIffAccepted(v, t);
    } else if v.Refined? {
      ConstrainedBase(v);
      UnfoldRefinedLeft(v, t);
      ValueBelowIffAccepted(v.base, t);
      AcceptsLooksThroughRefinements(t, v);
      AcceptsLooksThroughRefinements(t, v.base);
    } else {
      ShapeValueBelowIffAccepted(v, t);
    }
  }

  lemma ShapeValueBelowIffAccepted(v: Type, t: Type)
    requires WellFormed(v) && WellFormed(t) && Core(v) && Core(t) && IsValue(v)
    requires !t.Any? && !t.Refined? && !v.Refined? && Literal(v).None?
    ensures Below(v, t) <==> Accepts(t, v)
    decreases Size(v) + Size(t), 1
  {
    if v.Tuple? {
      TupleValueBelowIffAccepted(v, t);
    } else if t.Object? {
      forall i, j | 0 <= i < |v.fields| && 0 <= j < |t.fields|
        ensures Below(v.fields[i].typ, t.fields[j].typ) <==> Accepts(t.fields[j].typ, v.fields[i].typ)
      {
        ValueBelowIffAccepted(v.fields[i].typ, t.fields[j].typ);
      }
      ObjectBelowIffAccepted(v, t);
    } else {
      UnfoldShape(v, t);
    }
  }

  lemma TupleValueBelowIffAccepted(v: Type, t: Type)
    requires WellFormed(v) && WellFormed(t) && v.Tuple? && Core(t) && IsValue(v) && !t.Any? && !t.Refined?
    ensures Below(v, t) <==> Accepts(t, v)
    decreases Size(v) + Size(t), 0
  {
    if t.List? {
      forall i | 0 <= i < |v.elems| ensures Below(v.elems[i], t.elem) <==> Accepts(t.elem, v.elems[i]) {
        ValueBelowIffAccepted(v.elems[i], t.elem);
      }
    } else if t.Tuple? && |v.elems| == |t.elems| {
      forall i | 0 <= i < |v.elems|
        ensures Below(v.elems[i], t.elems[i]) <==> Accepts(t.elems[i], v.elems[i])
      {
        ValueBelowIffAccepted(v.elems[i], t.elems[i]);
      }
    }
    TupleBelowIffAccepted(v, t);
  }

  /** The order is sound: every concrete value the smaller type admits, the larger admits. */
  lemma SubtypeSound(a: Type, b: Type, v: Type)
    requires WellFormed(a) && WellFormed(b) && WellFormed(v) && IsValue(v)
    requires Below(a, b) && Accepts(a, v)
    ensures Accepts(b, v)
  {
    ValueBelowIffAccepted(v, a);
    BelowTransitive(v, a, b);
    ValueBelowIffAccepted(v, b);
  }

  // ----- the identity shortcut

  /** Inside one arena, where identical references answer at once, every answer is the one the rules
    * give without the shortcut. */
  lemma {:induction false} IdentityInvisible(a: Type, b: Type)
    requires WellFormed(a) && WellFormed(b)
    ensures SubtypeOf(true, a, b) == Below(a, b)
    decreases Size(a) + Size(b), 2
  {
    if a == b {
      BelowReflexive(a);
    } else if !a.Never? && !b.Any? && !a.Any? && !b.Never? {
      if a.Sum? {
        forall i | 0 <= i < |a.members|
          ensures SubtypeOf(true, a.members[i], b) == Below(a.members[i], b)
        {
          IdentityInvisible(a.members[i], b);
        }
        SumLeftIdentity(a, b);
      } else if a.Wrapper() {
        IdentityInvisible(a.base, b);
      } else if b.Wrapper() {
        IdentityInvisible(a, b.base);
      } else if b.Sum? {
        forall i | 0 <= i < |b.members|
          ensures SubtypeOf(true, a, b.members[i]) == Below(a, b.members[i])
        {
          IdentityInvisible(a, b.members[i]);
        }
        SumRightIdentity(a, b);
      } else if a.Refined? || b.Refined? {
        RefinedIdentity(a, b);
      } else {
        ShapeIdentity(a, b);
      }
    }
  }

  lemma SumLeftIdentity(a: Type, b: Type)
    requires a != b && a.Sum? && !b.Any? && !b.Never?
    requires forall i :: 0 <= i < |a.members| ==> SubtypeOf(true, a.members[i], b) == Below(a.members[i], b)
    ensures SubtypeOf(true, a, b) == Below(a, b)
  {
  }

  lemma SumRightIdentity(a: Type, b: Type)
    requires a != b && Core(a) && !a.Any? && b.Sum?
    requires forall i :: 0 <= i < |b.members| ==> SubtypeOf(true, a, b.members[i]) == Below(a, b.members[i])
    ensures SubtypeOf(true, a, b) == Below(a, b)
  {
  }

  lemma RefinedIdentity(a: Type, b: Type)
    requires WellFormed(a) && WellFormed(b) && Core(a) && Core(b) && !a.Any? && !b.Any? && a != b
    requires a.Refined? || b.Refined?
    ensures SubtypeOf(true, a, b) == Below(a, b)
    decreases Size(a) + Size(b), 1
  {
    if b.Refined? && LengthOnly(b.con) && ContainerLength(a).Some? {
      IdentityInvisible(a, b.base);
    } else if a.Refined? {
      if b.Refined? {
        IdentityInvisible(a.base, b.base);
        IdentityInvisible(b.base, a.base);
      }
      if Literal(a).Some? { IdentityInvisible(Lit(Literal(a).value), b); }
      IdentityInvisible(a.base, b);
      assert RefinedSubtype(true, a, b) == RefinedSubtype(false, a, b);
    } else if a.Lit? {
      IdentityInvisible(a, b.base);
    }
  }

  lemma ShapeIdentity(a: Type, b: Type)
    requires WellFormed(a) && WellFormed(b) && Core(a) && Core(b) && !a.Any? && !b.Any? && a != b
    requires !a.Refined? && !b.Refined?
    ensures SubtypeOf(true, a, b) == Below(a, b)
    decreases Size(a) + Size(b), 1
  {
    if a.List? && b.List? {
      IdentityInvisible(a.elem, b.elem);
    } else if a.Tuple? {
      TupleIdentity(a, b);
    } else if a.Object? && b.Object? {
      forall i, j | 0 <= i < |a.fields| && 0 <= j < |b.fields|
        ensures SubtypeOf(true, a.fields[i].typ, b.fields[j].typ) == Below(a.fields[i].typ, b.fields[j].typ)
      {
        IdentityInvisible(a.fields[i].typ, b.fields[j].typ);
      }
      ObjectIdentity(a.fields, b.fields, Size(a) + Size(b));
    }
    ShapesDecide(a, b);
  }

  lemma TupleIdentity(a: Type, b: Type)
    requires WellFormed(a) && WellFormed(b) && a.Tuple? && a != b
    ensures ShapeSubtype(true, a, b) == ShapeSubtype(false, a, b)
    decreases Size(a) + Size(b), 0
  {
    if b.List? {
      forall i | 0 <= i < |a.elems| ensures SubtypeOf(true, a.elems[i], b.elem) == Below(a.elems[i], b.elem) {
        IdentityInvisible(a.elems[i], b.elem);
      }
    } else if b.Tuple? && |a.elems| == |b.elems| {
      forall i | 0 <= i < |a.elems|
        ensures SubtypeOf(true, a.elems[i], b.elems[i]) == Below(a.elems[i], b.elems[i])
      {
        IdentityInvisible(a.elems[i], b.elems[i]);
      }
    }
  }

  lemma ShapesDecide(a: Type, b: Type)
    requires Core(a) && Core(b) && !a.Any? && !b.Any? && a != b && !a.Refined? && !b.Refined?
    ensures SubtypeOf(true, a, b) == ShapeSubtype(true, a, b)
    ensures Below(a, b) == ShapeSubtype(false, a, b)
  {
  }

  lemma ObjectIdentity(af: seq<Field>, bf: seq<Field>, bound: nat)
    requires forall i, j :: 0 <= i < |af| && 0 <= j < |bf| ==> Size(af[i].typ) + Size(bf[j].typ) < bound
    requires forall i, j :: 0 <= i < |af| && 0 <= j < |bf| ==>
      SubtypeOf(true, af[i].typ, bf[j].typ) == Below(af[i].typ, bf[j].typ)
    ensures ObjectSubtype(true, af, bf, bound) == ObjectSubtype(false, af, bf, bound)
  {
  }
}
