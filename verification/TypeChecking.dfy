/** Reading a value in the context of a schema (internal/compiled/typecheck.go): the result is the same value, and
  * the schema accepts it. */
module TypeChecking {
  import opened Wrappers
  import opened Atoms
  import opened Constraints
  import opened Types
  import opened Order
  import opened OrderLaws
  import opened Transitivity
  import opened Soundness
  import Clauses
  import opened NormalForms

  const FLOAT32 := Refined(Real, UNCONSTRAINED.(format := F32), 0, "")
  const FLOAT64 := Refined(Real, UNCONSTRAINED.(format := F64), 0, "")

  /** The type a scalar is read as. */
  function TypeCheckBase(schema: Type): Type {
    if !schema.Refined? then schema
    else match schema.con.format
      case F32 => FLOAT32
      case F64 => FLOAT64
      case NoFormat => schema.base
  }

  function TypeCheckAtom(base: Type, a: Atom): Atom {
    if Clauses.Kernel(base).Real? && a.IntAtom? then RealAtom(a.i as real) else a
  }

  /** A tuple, or `never` if a component is empty (`internTuple`). */
  function TupleOf(ts: seq<Type>): Type {
    if exists i :: 0 <= i < |ts| && Clauses.Kernel(ts[i]).Never? then Never else Tuple(ts)
  }

  /** The one member of a union the value is below, if there is exactly one. */
  function OnlyMember(ms: seq<Type>, value: Type): (m: Option<nat>)
    ensures m.Some? ==> m.value < |ms| && SubtypeOf(true, value, ms[m.value])
  {
    if ms == [] then None
    else
      var last := |ms| - 1;
      var below := SubtypeOf(true, value, ms[last]);
      if !below then OnlyMember(ms[..last], value)
      else if exists i :: 0 <= i < last && SubtypeOf(true, value, ms[i]) then None
      else Some(last)
  }

  /** `typeCheck`, for a value below the schema. */
  function TypeCheck(schema: Type, value: Type): Type
    decreases Size(schema) + Size(value)
  {
    if schema.Any? || schema == value || value.Never? then value
    else if schema.Sum? then
      var m := OnlyMember(schema.members, value);
      if m.Some? then TypeCheck(schema.members[m.value], value) else value
    else if Literal(value).Some? then
      var a := Literal(value).value;
      if Literal(schema).Some? && CompareAtoms(a, Literal(schema).value) == 0 then schema
      else EnumType(TypeCheckBase(schema), [TypeCheckAtom(TypeCheckBase(schema), a)])
    else if value.Refined? && Clauses.Kernel(value).Tuple? then
      Refined(TypeCheck(schema, value.base), value.con, value.meta, value.name)
    else match (schema, value)
      case (Refined(base, _, _, _), Tuple(_)) => TypeCheck(base, value)
      case (List(e), List(v)) => List(TypeCheck(e, v))
      case (List(e), Tuple(vs)) => TupleOf(seq(|vs|, i requires 0 <= i < |vs| => TypeCheck(e, vs[i])))
      case (Tuple(es), Tuple(vs)) =>
        if |es| != |vs| then value
        else TupleOf(seq(|vs|, i requires 0 <= i < |vs| => TypeCheck(es[i], vs[i])))
      case (Object(fs), Object(vs)) =>
        if exists i :: 0 <= i < |vs| && IndexOf(fs, vs[i].name) < 0 then value
        else Object(seq(|vs|, i requires 0 <= i < |vs| =>
          Field(vs[i].name, TypeCheck(fs[IndexOf(fs, vs[i].name)].typ, vs[i].typ), vs[i].optional, vs[i].meta)))
      case _ => value
  }

  /** The same value, up to the kind of its numbers and the refinements around its parts. */
  predicate SameContent(v: Type, r: Type)
    decreases Size(v)
  {
    var (a, b) := (LiteralBase(v), LiteralBase(r));
    match (a, b)
    case (Lit(x), Lit(y)) => SameValue(x, y)
    case (Tuple(xs), Tuple(ys)) => |xs| == |ys| && forall i :: 0 <= i < |xs| ==> SameContent(xs[i], ys[i])
    case (Object(xs), Object(ys)) =>
      |xs| == |ys| && forall i :: 0 <= i < |xs| ==>
        xs[i].name == ys[i].name && xs[i].optional == ys[i].optional && xs[i].meta == ys[i].meta &&
        SameContent(xs[i].typ, ys[i].typ)
    case _ => false
  }

  // ----- values

  lemma {:induction false} ContentReflexive(v: Type)
    requires IsValue(v)
    ensures SameContent(v, v)
    decreases Size(v)
  {
    var b := LiteralBase(v);
    ValueShape(v);
    match b
    case Tuple(xs) => forall i | 0 <= i < |xs| ensures SameContent(xs[i], xs[i]) { ContentReflexive(xs[i]); }
    case Object(xs) => forall i | 0 <= i < |xs| ensures SameContent(xs[i].typ, xs[i].typ) { ContentReflexive(xs[i].typ); }
    case _ =>
  }

  /** Without its refinements a concrete value is an atom, a tuple or an object of concrete values. */
  lemma {:induction false} ValueShape(v: Type)
    requires IsValue(v)
    ensures var b := LiteralBase(v);
      IsValue(b) && (b.Lit? || b.Tuple? || b.Object?)
    decreases v
  {
    if v.Refined? && Literal(v).None? { ValueShape(v.base); }
  }

  lemma {:induction false} ValueKernel(v: Type)
    requires WellFormed(v) && IsValue(v)
    ensures !Clauses.Kernel(v).Never?
    decreases v
  {
    if v.Refined? && v.Wrapper() { ValueKernel(v.base); }
  }

  // ----- the result is accepted

  /** Schemas under which a literal is read as a type that can be refined: without float formats, and without a second
    * refinement, a union or `any` under a refinement. */
  predicate Readable(t: Type) {
    match t
    case List(e) => Readable(e)
    case Tuple(es) => forall i :: 0 <= i < |es| ==> Readable(es[i])
    case Object(fs) => forall i :: 0 <= i < |fs| ==> Readable(fs[i].typ)
    case Sum(ms) => forall i :: 0 <= i < |ms| ==> Readable(ms[i])
    case Refined(b, c, _, _) => Readable(b) && c.format == NoFormat && (ScalarKernel(b) || Container(b))
    case _ => true
  }

  /** What reading `value` under `schema` promises of the result. */
  predicate Reads(schema: Type, value: Type, r: Type) {
    && IsValue(r) && Accepts(schema, r) && SameContent(value, r) && !Clauses.Kernel(r).Never?
    && (Readable(schema) ==> WellFormed(r))
  }

  lemma KeepsItself(schema: Type, value: Type)
    requires WellFormed(value) && IsValue(value) && Accepts(schema, value)
    ensures Reads(schema, value, value)
  {
    ContentReflexive(value);
    ValueKernel(value);
  }

  /** Reading a concrete value below a schema gives a concrete value of the same content that the schema accepts. */
  lemma {:induction false} TypeCheckSound(schema: Type, value: Type)
    requires WellFormed(schema) && WellFormed(value) && IsValue(value) && Accepts(schema, value)
    ensures Reads(schema, value, TypeCheck(schema, value))
    decreases Size(schema) + Size(value), 2
  {
    KeepsItself(schema, value);
    if schema.Any? || schema == value || value.Never? {
    } else if schema.Sum? {
      SumReads(schema, value);
    } else if Literal(value).Some? {
      LiteralReads(schema, value);
    } else if value.Refined? && Clauses.Kernel(value).Tuple? {
      RefinedTupleReads(schema, value);
    } else if value.Tuple? {
      TupleReads(schema, value);
    } else if schema.Object? && value.Object? {
      ObjectReads(schema, value);
    }
  }

  lemma {:induction false} SumReads(schema: Type, value: Type)
    requires WellFormed(schema) && schema.Sum? && WellFormed(value) && IsValue(value) && Accepts(schema, value)
    requires schema != value && !value.Never? && Reads(schema, value, value)
    ensures Reads(schema, value, TypeCheck(schema, value))
    decreases Size(schema) + Size(value), 1
  {
    var m := OnlyMember(schema.members, value);
    if m.Some? {
      var member := schema.members[m.value];
      IdentityInvisible(value, member);
      ValueBelowIffAccepted(value, member);
      TypeCheckSound(member, value);
      AcceptsLooksThroughRefinements(member, TypeCheck(member, value));
    }
  }

  /** The atoms of one value: a decimal type that accepts an integer accepts the decimal of its value. */
  lemma {:induction false} RealAcceptsDecimal(t: Type, i: int)
    requires WellFormed(t) && Clauses.Kernel(t).Real? && Accepts(t, Lit(IntAtom(i)))
    ensures Accepts(t, Lit(RealAtom(i as real)))
    decreases t
  {
    if t.Refined? {
      RealAcceptsDecimal(t.base, i);
      if t.Constrained() {
        ConstrainedBase(t);
        AtomBelowIffAccepted(IntAtom(i), t.base);
        AtomBelowIffAccepted(RealAtom(i as real), t.base);
        SatisfiesRespectsValue(t.base, t.con, RealAtom(i as real), IntAtom(i));
      }
    }
  }

  lemma EnumTypeIsValue(base: Type, a: Atom)
    ensures var r := EnumType(base, [a]);
      IsValue(r) && LiteralBase(r) == Lit(a) && Clauses.Kernel(r) == Clauses.Kernel(base)
  {
    CompareDecidesValue(a, a);
    assert InEnum([a], a) by { assert CompareAtoms(a, [a][0]) == 0; }
  }

  lemma BaseKernel(schema: Type)
    requires WellFormed(schema)
    ensures Clauses.Kernel(TypeCheckBase(schema)) == Clauses.Kernel(schema)
  {
  }

  lemma AcceptingKernel(schema: Type, v: Type)
    requires Accepts(schema, v)
    ensures !Clauses.Kernel(schema).Never?
    decreases schema
  {
    if schema.Refined? { AcceptingKernel(schema.base, LiteralBase(v)); }
  }

  lemma SameLiteralReads(schema: Type, value: Type)
    requires WellFormed(schema) && Literal(schema).Some? && Literal(value).Some?
    requires CompareAtoms(Literal(value).value, Literal(schema).value) == 0
    ensures Reads(schema, value, schema)
  {
    CompareDecidesValue(Literal(value).value, Literal(schema).value);
    BelowReflexive(schema);
    ValueBelowIffAccepted(schema, schema);
    ValueKernel(schema);
  }

  lemma {:induction false} LiteralReads(schema: Type, value: Type)
    requires WellFormed(schema) && WellFormed(value) && Accepts(schema, value)
    requires !schema.Any? && schema != value && !value.Never? && !schema.Sum? && Literal(value).Some?
    ensures Reads(schema, value, TypeCheck(schema, value))
  {
    var a := Literal(value).value;
    assert LiteralBase(value) == Lit(a);
    AcceptsLooksThroughRefinements(schema, value);
    if Literal(schema).Some? && CompareAtoms(a, Literal(schema).value) == 0 {
      SameLiteralReads(schema, value);
    } else {
      AtomReads(schema, a);
      RetypedReads(schema, value, a);
    }
  }

  lemma RetypedReads(schema: Type, value: Type, a: Atom)
    requires LiteralBase(value) == Lit(a)
    requires var b := TypeCheckAtom(TypeCheckBase(schema), a);
      var r := EnumType(TypeCheckBase(schema), [b]);
      && IsValue(r) && Accepts(schema, r) && LiteralBase(r) == Lit(b) && SameValue(a, b) && !Clauses.Kernel(r).Never?
      && (Readable(schema) ==> WellFormed(r))
    ensures Reads(schema, value, EnumType(TypeCheckBase(schema), [TypeCheckAtom(TypeCheckBase(schema), a)]))
  {
  }

  lemma LiteralAccepts(x: Atom, a: Atom)
    requires Accepts(Lit(x), Lit(a))
    ensures CompareAtoms(a, x) == 0
  {
    CompareDecidesValue(a, x);
  }

  /** Under a readable schema the base of a literal is one of the scalars. */
  lemma ScalarBaseOf(schema: Type, a: Atom)
    requires Accepts(schema, Lit(a)) && Readable(schema) && !schema.Any? && !schema.Sum?
    requires !(Literal(schema).Some? && CompareAtoms(a, Literal(schema).value) == 0)
    ensures ScalarKernel(TypeCheckBase(schema)) && Accepts(TypeCheckBase(schema), Lit(a))
  {
    if schema.Lit? { LiteralAccepts(schema.atom, a); }
  }

  lemma ScalarFits(base: Type, a: Atom)
    requires ScalarKernel(base) && Accepts(base, Lit(a))
    ensures WellFormed(EnumType(base, [TypeCheckAtom(base, a)]))
  {
    var e := [TypeCheckAtom(base, a)];
    assert OwnAtom(base, e[0]) by { if base.Lit? { LiteralAccepts(NullAtom, a); } }
    assert forall x :: x in e ==> x == e[0];
    EnumFits(base, e);
  }

  lemma LiteralFits(schema: Type, a: Atom)
    requires Accepts(schema, Lit(a)) && Readable(schema) && !schema.Any? && !schema.Sum?
    requires !(Literal(schema).Some? && CompareAtoms(a, Literal(schema).value) == 0)
    ensures var base := TypeCheckBase(schema); WellFormed(EnumType(base, [TypeCheckAtom(base, a)]))
  {
    ScalarBaseOf(schema, a);
    ScalarFits(TypeCheckBase(schema), a);
  }

  /** An accepted atom, retyped: the literal stands for an atom of the same value that is accepted too. */
  lemma AtomReads(schema: Type, a: Atom)
    requires WellFormed(schema) && Accepts(schema, Lit(a))
    requires !schema.Any? && !schema.Sum? && !(Literal(schema).Some? && CompareAtoms(a, Literal(schema).value) == 0)
    ensures Readable(schema) ==> WellFormed(EnumType(TypeCheckBase(schema), [TypeCheckAtom(TypeCheckBase(schema), a)]))
    ensures var b := TypeCheckAtom(TypeCheckBase(schema), a);
      var r := EnumType(TypeCheckBase(schema), [b]);
      && IsValue(r) && Accepts(schema, r) && LiteralBase(r) == Lit(b) && SameValue(a, b) && !Clauses.Kernel(r).Never?
  {
    var base := TypeCheckBase(schema);
    var b := TypeCheckAtom(base, a);
    BaseKernel(schema);
    AcceptingKernel(schema, Lit(a));
    EnumTypeIsValue(base, b);
    if b != a { RealAcceptsDecimal(schema, a.i); }
    if Readable(schema) { LiteralFits(schema, a); }
    AcceptsLooksThroughRefinements(schema, EnumType(base, [b]));
  }

  lemma {:induction false} RefinedTupleReads(schema: Type, value: Type)
    requires WellFormed(schema) && WellFormed(value) && IsValue(value) && Accepts(schema, value)
    requires !schema.Any? && schema != value && !schema.Sum?
    requires value.Refined? && Literal(value).None? && Clauses.Kernel(value).Tuple?
    ensures Reads(schema, value, TypeCheck(schema, value))
    decreases Size(schema) + Size(value), 1
  {
    AcceptsLooksThroughRefinements(schema, value);
    AcceptsLooksThroughRefinements(schema, value.base);
    TypeCheckSound(schema, value.base);
    if value.base.Tuple? { TupleStaysTuple(schema, value.base); }
    RewrapReads(schema, value, TypeCheck(schema, value.base));
  }

  /** A tuple is read as a tuple. */
  lemma {:induction false} TupleStaysTuple(schema: Type, value: Type)
    requires value.Tuple? && !Clauses.Kernel(TypeCheck(schema, value)).Never?
    ensures TypeCheck(schema, value).Tuple? && |TypeCheck(schema, value).elems| == |value.elems|
    decreases schema
  {
    if !schema.Any? && schema != value {
      if schema.Sum? {
        var m := OnlyMember(schema.members, value);
        if m.Some? { TupleStaysTuple(schema.members[m.value], value); }
      } else if schema.Refined? {
        TupleStaysTuple(schema.base, value);
      }
    }
  }

  lemma ConstrainedTuple(value: Type, inner: Type)
    requires WellFormed(value) && value.Refined? && Clauses.Kernel(value).Tuple?
    requires WellFormed(inner) && IsValue(inner) && (value.base.Tuple? ==> inner.Tuple?)
    ensures WellFormed(Refined(inner, value.con, value.meta, value.name))
  {
    if value.Constrained() { ConstrainedBase(value); }
  }

  lemma RewrapReads(schema: Type, value: Type, inner: Type)
    requires WellFormed(value) && IsValue(value) && value.Refined? && Literal(value).None?
    requires Clauses.Kernel(value).Tuple? && Reads(schema, value.base, inner)
    requires value.base.Tuple? ==> inner.Tuple?
    ensures Reads(schema, value, Refined(inner, value.con, value.meta, value.name))
  {
    var r := Refined(inner, value.con, value.meta, value.name);
    TupleConstraint(value);
    KernelTuple(value);
    ContentLength(value.base, inner);
    if Readable(schema) { ConstrainedTuple(value, inner); }
    AcceptsLooksThroughRefinements(schema, inner);
    AcceptsLooksThroughRefinements(schema, r);
    assert LiteralBase(r) == LiteralBase(inner) && LiteralBase(value) == LiteralBase(value.base);
    assert Satisfies(value.con, SubjectOf(LiteralBase(value.base)));
  }

  lemma {:induction false} KernelTuple(v: Type)
    requires WellFormed(v) && IsValue(v) && Clauses.Kernel(v).Tuple?
    ensures LiteralBase(v).Tuple? && (v.Refined? ==> IsValue(v.base))
  {
    if v.Refined? {
      TupleConstraint(v);
      KernelTuple(v.base);
    }
  }

  /** A tuple is only refined by its length, or by nothing. */
  lemma {:induction false} TupleConstraint(t: Type)
    requires WellFormed(t) && t.Refined? && Clauses.Kernel(t).Tuple?
    ensures t.con.enum.None? && t.con == UNCONSTRAINED.(length := t.con.length)
  {
    if t.Constrained() { ConstrainedBase(t); }
  }

  lemma ContentLength(v: Type, r: Type)
    requires SameContent(v, r) && IsValue(v)
    ensures LiteralBase(v).Tuple? || LiteralBase(v).Object? ==>
      LengthOf(SubjectOf(LiteralBase(r))) == LengthOf(SubjectOf(LiteralBase(v)))
  {
  }

  lemma {:induction false} TupleReads(schema: Type, value: Type)
    requires WellFormed(schema) && WellFormed(value) && IsValue(value) && Accepts(schema, value)
    requires !schema.Any? && schema != value && !schema.Sum? && value.Tuple? && Reads(schema, value, value)
    ensures Reads(schema, value, TypeCheck(schema, value))
    decreases Size(schema) + Size(value), 1
  {
    if schema.Refined? {
      TypeCheckSound(schema.base, value);
      RefinedSchemaReads(schema, value, TypeCheck(schema.base, value));
    } else if schema.List? || schema.Tuple? {
      SequenceReads(schema, value);
    }
  }

  function ElementType(schema: Type, i: nat): Type
    requires schema.List? || (schema.Tuple? && i < |schema.elems|)
  {
    if schema.List? then schema.elem else schema.elems[i]
  }

  lemma {:induction false} SequenceReads(schema: Type, value: Type)
    requires WellFormed(schema) && WellFormed(value) && IsValue(value) && Accepts(schema, value)
    requires (schema.List? || schema.Tuple?) && schema != value && value.Tuple?
    ensures Reads(schema, value, TypeCheck(schema, value))
    decreases Size(schema) + Size(value), 0
  {
    var vs := value.elems;
    var rs := seq(|vs|, i requires 0 <= i < |vs| => TypeCheck(ElementType(schema, i), vs[i]));
    forall i | 0 <= i < |vs| ensures Reads(ElementType(schema, i), vs[i], rs[i]) {
      TypeCheckSound(ElementType(schema, i), vs[i]);
    }
    SequenceRetyped(schema, value, rs);
    ElementsRead(schema, value, rs);
  }

  lemma SequenceRetyped(schema: Type, value: Type, rs: seq<Type>)
    requires value.Tuple? && schema != value && (schema.List? || (schema.Tuple? && |schema.elems| == |value.elems|))
    requires |rs| == |value.elems| && forall i :: 0 <= i < |rs| ==> rs[i] == TypeCheck(ElementType(schema, i), value.elems[i])
    ensures TypeCheck(schema, value) == TupleOf(rs)
  {
    if schema.List? { ListRetyped(schema, value, rs); } else { TupleRetyped(schema, value, rs); }
  }

  lemma ListRetyped(schema: Type, value: Type, rs: seq<Type>)
    requires schema.List? && value.Tuple? && |rs| == |value.elems|
    requires forall i :: 0 <= i < |rs| ==> rs[i] == TypeCheck(schema.elem, value.elems[i])
    ensures TypeCheck(schema, value) == TupleOf(rs)
  {
    var own := seq(|value.elems|, i requires 0 <= i < |value.elems| => TypeCheck(schema.elem, value.elems[i]));
    assert own == rs;
    assert TypeCheck(schema, value) == TupleOf(own);
  }

  lemma TupleRetyped(schema: Type, value: Type, rs: seq<Type>)
    requires schema.Tuple? && value.Tuple? && schema != value && |schema.elems| == |rs| == |value.elems|
    requires forall i :: 0 <= i < |rs| ==> rs[i] == TypeCheck(schema.elems[i], value.elems[i])
    ensures TypeCheck(schema, value) == TupleOf(rs)
  {
    var own := TupleUnfolded(schema, value);
    assert own == rs;
  }

  lemma TupleUnfolded(schema: Type, value: Type) returns (own: seq<Type>)
    requires schema.Tuple? && value.Tuple? && schema != value && |schema.elems| == |value.elems|
    ensures TypeCheck(schema, value) == TupleOf(own) && |own| == |value.elems|
    ensures forall i :: 0 <= i < |own| ==> own[i] == TypeCheck(schema.elems[i], value.elems[i])
  {
    own := seq(|value.elems|, i requires 0 <= i < |value.elems| => TypeCheck(schema.elems[i], value.elems[i]));
  }

  lemma RefinedSchemaReads(schema: Type, value: Type, r: Type)
    requires WellFormed(schema) && schema.Refined? && value.Tuple? && IsValue(value)
    requires Accepts(schema, value) && Reads(schema.base, value, r)
    ensures Reads(schema, value, r)
  {
    ContentLength(value, r);
    AcceptsLooksThroughRefinements(schema.base, r);
    assert LiteralBase(r).Tuple?;
    assert Satisfies(schema.con, SubjectOf(value));
  }

  lemma ElementsRead(schema: Type, value: Type, rs: seq<Type>)
    requires value.Tuple? && Accepts(schema, value) && (schema.List? || schema.Tuple?) && |rs| == |value.elems|
    requires forall i :: 0 <= i < |rs| ==> Reads(ElementType(schema, i), value.elems[i], rs[i])
    ensures Reads(schema, value, TupleOf(rs))
  {
  }

  lemma {:induction false} ObjectReads(schema: Type, value: Type)
    requires WellFormed(schema) && WellFormed(value) && IsValue(value) && Accepts(schema, value)
    requires schema.Object? && value.Object? && schema != value && Reads(schema, value, value)
    ensures Reads(schema, value, TypeCheck(schema, value))
    decreases Size(schema) + Size(value), 1
  {
    var (fs, vs) := (schema.fields, value.fields);
    var rs := TypeCheck(schema, value).fields;
    forall i | 0 <= i < |vs| ensures FieldRead(fs, vs[i], rs[i]) {
      var k := IndexOf(fs, vs[i].name);
      SortedNamesDistinct(vs, i, IndexOf(vs, fs[k].name));
      TypeCheckSound(fs[k].typ, vs[i].typ);
    }
    FieldsRead(fs, vs, rs);
  }

  lemma {:induction false} SameNamesIndex(vs: seq<Field>, rs: seq<Field>, name: string)
    requires |rs| == |vs| && forall i :: 0 <= i < |vs| ==> rs[i].name == vs[i].name
    ensures IndexOf(rs, name) == IndexOf(vs, name)
  {
    if vs != [] { SameNamesIndex(vs[..|vs| - 1], rs[..|rs| - 1], name); }
  }

  /** Field by field the same names and flags, and values read under the declared types. */
  predicate FieldRead(fs: seq<Field>, v: Field, r: Field) {
    && r.name == v.name && r.optional == v.optional && r.meta == v.meta
    && IndexOf(fs, v.name) >= 0 && Reads(fs[IndexOf(fs, v.name)].typ, v.typ, r.typ)
  }

  lemma FieldsRead(fs: seq<Field>, vs: seq<Field>, rs: seq<Field>)
    requires SortedFields(fs) && SortedFields(vs) && KeysFit(fs, vs) && |rs| == |vs| && IsValue(Object(vs))
    requires forall i :: 0 <= i < |vs| ==> FieldRead(fs, vs[i], rs[i])
    ensures Reads(Object(fs), Object(vs), Object(rs))
  {
    FieldsContent(fs, vs, rs);
    FieldsAccepted(fs, vs, rs);
    if Readable(Object(fs)) { FieldsWellFormed(fs, vs, rs); }
  }

  lemma FieldsWellFormed(fs: seq<Field>, vs: seq<Field>, rs: seq<Field>)
    requires SortedFields(vs) && |rs| == |vs| && Readable(Object(fs))
    requires forall i :: 0 <= i < |vs| ==> FieldRead(fs, vs[i], rs[i])
    ensures WellFormed(Object(rs))
  {
    forall i, j | 0 <= i < j < |rs| ensures CompareStrings(rs[i].name, rs[j].name) < 0 {
      assert FieldRead(fs, vs[i], rs[i]) && FieldRead(fs, vs[j], rs[j]);
    }
    forall i | 0 <= i < |rs| ensures WellFormed(rs[i].typ) {
      assert FieldRead(fs, vs[i], rs[i]);
      assert Readable(fs[IndexOf(fs, vs[i].name)].typ);
    }
  }

  lemma FieldsContent(fs: seq<Field>, vs: seq<Field>, rs: seq<Field>)
    requires |rs| == |vs| && IsValue(Object(vs)) && forall i :: 0 <= i < |vs| ==> FieldRead(fs, vs[i], rs[i])
    ensures IsValue(Object(rs)) && SameContent(Object(vs), Object(rs))
  {
    forall i | 0 <= i < |vs| ensures IsValue(rs[i].typ) && SameContent(vs[i].typ, rs[i].typ) {
      assert FieldRead(fs, vs[i], rs[i]);
    }
  }

  lemma FieldsAccepted(fs: seq<Field>, vs: seq<Field>, rs: seq<Field>)
    requires SortedFields(fs) && KeysFit(fs, vs) && |rs| == |vs|
    requires forall i :: 0 <= i < |vs| ==> FieldRead(fs, vs[i], rs[i])
    ensures Accepts(Object(fs), Object(rs))
  {
    forall i | 0 <= i < |fs|
      ensures !fs[i].optional ==> IndexOf(rs, fs[i].name) >= 0
      ensures IndexOf(rs, fs[i].name) >= 0 ==> Accepts(fs[i].typ, rs[IndexOf(rs, fs[i].name)].typ)
    {
      SameNamesIndex(vs, rs, fs[i].name);
      var k := IndexOf(rs, fs[i].name);
      if k >= 0 {
        assert FieldRead(fs, vs[k], rs[k]);
        SortedNamesDistinct(fs, i, IndexOf(fs, vs[k].name));
      }
    }
    forall j | 0 <= j < |rs| ensures IndexOf(fs, rs[j].name) >= 0 { assert FieldRead(fs, vs[j], rs[j]); }
  }

  // ----- in the context of the schema

  /** The type a literal of the schema stands on: its own base, or the float type of its format. */
  function ContextBase(schema: Type): Type {
    if !schema.Refined? then schema
    else if schema.con.format == F32 then FLOAT32
    else if schema.con.format == F64 then FLOAT64
    else schema.base
  }

  /** A literal read under a schema: the schema itself if that is the same literal, and otherwise the literal over the
    * schema's base, a number over a real base as a decimal. */
  predicate LiteralContext(schema: Type, a: Atom, r: Type) {
    if Literal(schema).Some? && SameValue(a, Literal(schema).value) then r == schema
    else r == EnumType(ContextBase(schema), [if Clauses.Kernel(schema).Real? && a.IntAtom? then RealAtom(a.i as real) else a])
  }

  /** The one member of a union that is above the value; for a concrete value, that admits it. */
  predicate OnlyAbove(ms: seq<Type>, value: Type, i: nat) {
    i < |ms| && Below(value, ms[i]) && forall j :: 0 <= j < |ms| && j != i ==> !Below(value, ms[j])
  }

  /** `r` is the value in the type context of the schema: literals as above, elements and fields under their own
    * declarations, and under a union whatever its one member above the value makes of it.  Metadata around a tuple stays.
    * Where there is no such context, under `any`, under a union with several members above, and for wrapped objects, it
    * is the value. */
  predicate InContext(schema: Type, value: Type, r: Type)
    decreases Size(schema) + Size(value)
  {
    if schema.Any? then r == value
    else if schema.Sum? then
      && (forall i :: 0 <= i < |schema.members| && OnlyAbove(schema.members, value, i) ==>
            InContext(schema.members[i], value, r))
      && ((forall i :: 0 <= i < |schema.members| ==> !OnlyAbove(schema.members, value, i)) ==> r == value)
    else if Literal(value).Some? then LiteralContext(schema, Literal(value).value, r)
    else if value.Refined? then
      if Clauses.Kernel(value).Tuple? then
        && r.Refined? && r.con == value.con && r.meta == value.meta && r.name == value.name
        && InContext(schema, value.base, r.base)
      else r == value
    else if schema.Refined? && value.Tuple? then InContext(schema.base, value, r)
    else if schema.List? && value.List? then r.List? && InContext(schema.elem, value.elem, r.elem)
    else if (schema.List? || schema.Tuple?) && value.Tuple? then
      && r.Tuple? && |r.elems| == |value.elems| && (schema.Tuple? ==> |schema.elems| == |value.elems|)
      && forall i :: 0 <= i < |value.elems| ==> InContext(ElementType(schema, i), value.elems[i], r.elems[i])
    else if schema.Object? && value.Object? then
      && r.Object? && |r.fields| == |value.fields|
      && forall i :: 0 <= i < |value.fields| ==>
           && r.fields[i].name == value.fields[i].name
           && r.fields[i].optional == value.fields[i].optional && r.fields[i].meta == value.fields[i].meta
           && var j := IndexOf(schema.fields, value.fields[i].name);
              j >= 0 && InContext(schema.fields[j].typ, value.fields[i].typ, r.fields[i].typ)
    else r == value
  }

  /** The same with the identity shortcut, as the loop asks it. */
  predicate OnlySubtype(ms: seq<Type>, value: Type, i: nat) {
    i < |ms| && SubtypeOf(true, value, ms[i]) && forall j :: 0 <= j < |ms| && j != i ==> !SubtypeOf(true, value, ms[j])
  }

  lemma {:induction false} OnlyMemberScan(ms: seq<Type>, value: Type)
    ensures var m := OnlyMember(ms, value);
      && (m.Some? ==> OnlySubtype(ms, value, m.value))
      && (m.None? ==> forall i :: 0 <= i < |ms| ==> !OnlySubtype(ms, value, i))
  {
    if ms != [] {
      var (init, last) := (ms[..|ms| - 1], |ms| - 1);
      OnlyMemberScan(init, value);
      assert forall i :: 0 <= i < last ==> init[i] == ms[i];
      if OnlyMember(init, value).None? && !SubtypeOf(true, value, ms[last]) {
        forall i | 0 <= i < |ms| ensures !OnlySubtype(ms, value, i) {
          if i < last { assert !OnlySubtype(init, value, i); }
        }
      }
    }
  }

  lemma OnlyMemberUnique(ms: seq<Type>, value: Type)
    requires WellFormed(value) && forall i :: 0 <= i < |ms| ==> WellFormed(ms[i])
    ensures var m := OnlyMember(ms, value);
      && (m.Some? ==> OnlyAbove(ms, value, m.value))
      && (m.None? ==> forall i :: 0 <= i < |ms| ==> !OnlyAbove(ms, value, i))
  {
    forall i | 0 <= i < |ms| ensures SubtypeOf(true, value, ms[i]) == Below(value, ms[i]) {
      IdentityInvisible(value, ms[i]);
    }
    forall i: nat ensures OnlySubtype(ms, value, i) <==> OnlyAbove(ms, value, i) { }
    OnlyMemberScan(ms, value);
  }

  /** A type under itself, or under itself with more metadata around it, is in context. */
  lemma {:induction false} OwnContext(schema: Type, value: Type)
    requires Unwraps(schema, value) && WellFormed(schema) && WellFormed(value)
    requires Literal(value).Some? || !Clauses.Kernel(value).Tuple? ==> schema == value
    ensures InContext(schema, value, value)
    decreases Size(schema) + Size(value)
  {
    if schema.Any? || schema.Sum? {
      if schema.Sum? { SumOwnContext(schema, value); }
    } else if Literal(value).Some? {
      CompareDecidesValue(Literal(value).value, Literal(value).value);
    } else if value.Refined? {
      if Clauses.Kernel(value).Tuple? {
        UnwrapsBase(schema, value);
        TupleKernelNoLiteral(value.base);
        OwnContext(schema, value.base);
      }
    } else if schema.Refined? {
      if value.Tuple? { OwnContext(schema.base, value); }
    } else if value.List? {
      OwnContext(value.elem, value.elem);
    } else if value.Tuple? {
      forall i | 0 <= i < |value.elems| ensures InContext(value.elems[i], value.elems[i], value.elems[i]) {
        OwnContext(value.elems[i], value.elems[i]);
      }
    } else if value.Object? {
      forall i | 0 <= i < |value.fields|
        ensures InContext(value.fields[i].typ, value.fields[i].typ, value.fields[i].typ)
        ensures IndexOf(value.fields, value.fields[i].name) == i
      {
        IndexOfOwnField(value.fields, i);
        OwnContext(value.fields[i].typ, value.fields[i].typ);
      }
    }
  }

  /** A union has no part that a member would be read in. */
  lemma SumOwnContext(schema: Type, value: Type)
    requires schema.Sum? && schema == value && WellFormed(schema)
    ensures InContext(schema, value, value)
  {
    forall i | 0 <= i < |schema.members| && OnlyAbove(schema.members, value, i)
      ensures InContext(schema.members[i], value, value)
    {
    }
  }

  lemma TupleKernelNoLiteral(t: Type)
    requires WellFormed(t) && Clauses.Kernel(t).Tuple?
    ensures Literal(t).None?
  {
    if t.Refined? { TupleConstraint(t); }
  }

  /** The second is the first without some of the refinements around it that keep it a container. */
  predicate Unwraps(outer: Type, inner: Type)
    decreases outer
  {
    outer == inner || (outer.Refined? && Literal(outer).None? && Unwraps(outer.base, inner))
  }

  lemma {:induction false} UnwrapsBase(outer: Type, inner: Type)
    requires Unwraps(outer, inner) && inner.Refined? && Literal(inner).None?
    ensures Unwraps(outer, inner.base)
    decreases outer
  {
    if outer == inner { assert Unwraps(inner.base, inner.base); } else { UnwrapsBase(outer.base, inner); }
  }

  /** What can be read part by part: concrete values, and types whose tuples carry no length bound. */
  predicate Readout(schema: Type, value: Type) {
    WellFormed(schema) && WellFormed(value) && Below(value, schema) && (IsValue(value) || Settled(value))
  }

  lemma {:induction false} ReadoutBase(schema: Type, value: Type)
    requires Readout(schema, value) && value.Refined? && Literal(value).None? && Clauses.Kernel(value).Tuple?
    requires !schema.Any?
    ensures Readout(schema, value.base)
  {
    if IsValue(value) {
      KernelTuple(value);
      ValueBelowIffAccepted(value, schema);
      AcceptsLooksThroughRefinements(schema, value);
      AcceptsLooksThroughRefinements(schema, value.base);
      ValueBelowIffAccepted(value.base, schema);
    } else {
      WrapsTuple(value);
      NotNeverKernel(value);
      Ends(value, schema);
      UnfoldWrapperLeft(value, schema);
    }
  }

  lemma ReadoutRefined(schema: Type, value: Type)
    requires Readout(schema, value) && schema.Refined? && value.Tuple?
    ensures Readout(schema.base, value)
  {
    if schema.Wrapper() { BelowWrapper(value, schema); } else { BoundedAbove(value, schema); }
  }

  /** Reading does not make a type empty. */
  lemma {:induction false} ReadNotNever(schema: Type, value: Type)
    requires Readout(schema, value) && !Clauses.Kernel(value).Never?
    ensures !Clauses.Kernel(TypeCheck(schema, value)).Never?
    decreases Size(schema) + Size(value), 1
  {
    if schema.Any? || schema == value {
    } else if schema.Sum? {
      var m := OnlyMember(schema.members, value);
      if m.Some? {
        IdentityInvisible(value, schema.members[m.value]);
        ReadNotNever(schema.members[m.value], value);
      }
    } else if Literal(value).Some? {
      ValueBelowIffAccepted(value, schema);
      TypeCheckSound(schema, value);
    } else if value.Refined? {
      if Clauses.Kernel(value).Tuple? {
        ReadoutBase(schema, value);
        ReadNotNever(schema, value.base);
      }
    } else if value.Tuple? {
      ReadTupleNotNever(schema, value);
    }
  }

  lemma {:induction false} ReadTupleNotNever(schema: Type, value: Type)
    requires Readout(schema, value) && !schema.Any? && schema != value && !schema.Sum? && value.Tuple?
    ensures !Clauses.Kernel(TypeCheck(schema, value)).Never?
    decreases Size(schema) + Size(value), 0
  {
    if schema.Refined? {
      ReadoutRefined(schema, value);
      ReadNotNever(schema.base, value);
    } else if schema.List? || schema.Tuple? {
      UnfoldShape(value, schema);
      forall i | 0 <= i < |value.elems| ensures !Clauses.Kernel(TypeCheck(ElementType(schema, i), value.elems[i])).Never? {
        NotNeverKernel(value.elems[i]);
        ReadNotNever(ElementType(schema, i), value.elems[i]);
      }
    }
  }

  /** Reading puts the type in the context of the schema. */
  lemma {:induction false} TypeCheckInContext(schema: Type, value: Type)
    requires Readout(schema, value)
    ensures InContext(schema, value, TypeCheck(schema, value))
    decreases Size(schema) + Size(value), 2
  {
    if schema.Any? {
    } else if schema == value {
      OwnContext(schema, value);
    } else if schema.Sum? {
      SumInContext(schema, value);
    } else if Literal(value).Some? {
      LiteralInContext(schema, value);
    } else if value.Refined? && Clauses.Kernel(value).Tuple? {
      WrappedInContext(schema, value);
    } else if value.Tuple? {
      TupleInContext(schema, value);
    } else if schema.List? && value.List? {
      ListInContext(schema, value);
    } else if schema.Object? && value.Object? {
      ObjectInContext(schema, value);
    } else {
      NoContext(schema, value);
    }
  }

  /** Everything else is handed back. */
  lemma NoContext(schema: Type, value: Type)
    requires !schema.Any? && schema != value && !schema.Sum? && Literal(value).None? && !value.Tuple?
    requires !(value.Refined? && Clauses.Kernel(value).Tuple?)
    requires !(schema.List? && value.List?) && !(schema.Object? && value.Object?)
    ensures InContext(schema, value, TypeCheck(schema, value))
  {
    assert TypeCheck(schema, value) == value;
  }

  lemma {:induction false} WrappedInContext(schema: Type, value: Type)
    requires Readout(schema, value) && !schema.Any? && schema != value && !schema.Sum?
    requires value.Refined? && Literal(value).None? && Clauses.Kernel(value).Tuple?
    ensures InContext(schema, value, TypeCheck(schema, value))
    decreases Size(schema) + Size(value), 1
  {
    ReadoutBase(schema, value);
    TypeCheckInContext(schema, value.base);
  }

  lemma {:induction false} ListInContext(schema: Type, value: Type)
    requires Readout(schema, value) && schema.List? && value.List? && schema != value
    ensures InContext(schema, value, TypeCheck(schema, value))
    decreases Size(schema) + Size(value), 1
  {
    UnfoldShape(value, schema);
    TypeCheckInContext(schema.elem, value.elem);
  }

  lemma LiteralInContext(schema: Type, value: Type)
    requires WellFormed(schema) && Literal(value).Some? && !schema.Any? && schema != value && !schema.Sum?
    ensures LiteralContext(schema, Literal(value).value, TypeCheck(schema, value))
  {
    var a := Literal(value).value;
    if Literal(schema).Some? { CompareDecidesValue(a, Literal(schema).value); }
    BaseKernel(schema);
  }

  lemma {:induction false} SumInContext(schema: Type, value: Type)
    requires Readout(schema, value) && schema.Sum? && schema != value
    ensures InContext(schema, value, TypeCheck(schema, value))
    decreases Size(schema) + Size(value), 1
  {
    OnlyMemberUnique(schema.members, value);
    var m := OnlyMember(schema.members, value);
    if m.Some? {
      TypeCheckInContext(schema.members[m.value], value);
      assert OnlyAbove(schema.members, value, m.value);
    }
  }

  lemma {:induction false} TupleInContext(schema: Type, value: Type)
    requires Readout(schema, value) && !schema.Any? && schema != value && !schema.Sum? && value.Tuple?
    ensures InContext(schema, value, TypeCheck(schema, value))
    decreases Size(schema) + Size(value), 1
  {
    if schema.Refined? {
      ReadoutRefined(schema, value);
      TypeCheckInContext(schema.base, value);
    } else if schema.List? || schema.Tuple? {
      ElementsInContext(schema, value);
    } else {
      UnfoldShape(value, schema);
    }
  }

  lemma {:induction false} ElementsInContext(schema: Type, value: Type)
    requires Readout(schema, value) && (schema.List? || schema.Tuple?) && schema != value && value.Tuple?
    ensures InContext(schema, value, TypeCheck(schema, value))
    decreases Size(schema) + Size(value), 0
  {
    UnfoldShape(value, schema);
    var vs := value.elems;
    var rs := seq(|vs|, i requires 0 <= i < |vs| => TypeCheck(ElementType(schema, i), vs[i]));
    forall i | 0 <= i < |vs| ensures InContext(ElementType(schema, i), vs[i], rs[i]) && !Clauses.Kernel(rs[i]).Never? {
      NotNeverKernel(vs[i]);
      TypeCheckInContext(ElementType(schema, i), vs[i]);
      ReadNotNever(ElementType(schema, i), vs[i]);
    }
    SequenceRetyped(schema, value, rs);
    assert TupleOf(rs) == Tuple(rs);
  }

  lemma {:induction false} ObjectInContext(schema: Type, value: Type)
    requires Readout(schema, value) && schema.Object? && value.Object? && schema != value
    ensures InContext(schema, value, TypeCheck(schema, value))
    decreases Size(schema) + Size(value), 1
  {
    var (fs, vs) := (schema.fields, value.fields);
    UnfoldShape(value, schema);
    ObjectShape(value, schema);
    forall i | 0 <= i < |vs|
      ensures var j := IndexOf(fs, vs[i].name);
        j >= 0 && InContext(fs[j].typ, vs[i].typ, TypeCheck(fs[j].typ, vs[i].typ))
    {
      assert FieldBelow(vs[i], fs);
      TypeCheckInContext(fs[IndexOf(fs, vs[i].name)].typ, vs[i].typ);
    }
    FieldsRetyped(schema, value);
  }

  lemma FieldsRetyped(schema: Type, value: Type)
    requires schema.Object? && value.Object? && schema != value
    requires forall i :: 0 <= i < |value.fields| ==> IndexOf(schema.fields, value.fields[i].name) >= 0
    ensures var r := TypeCheck(schema, value);
      && r.Object? && |r.fields| == |value.fields|
      && forall i :: 0 <= i < |value.fields| ==>
           r.fields[i] == value.fields[i].(typ :=
             TypeCheck(schema.fields[IndexOf(schema.fields, value.fields[i].name)].typ, value.fields[i].typ))
  {
  }

  /** For instance, the integer 10 under `real` is the decimal 10 over `real`. */
  lemma TenUnderReal()
    ensures TypeCheck(Real, EnumType(Int, [IntAtom(10)])) == EnumType(Real, [RealAtom(10.0)])
  {
    EnumTypeIsValue(Int, IntAtom(10));
  }

  // ----- the checked entry point

  /** `TypeCheck`: an error unless the value is below the schema. */
  function Interpret(schema: Type, value: Type): Option<Type> {
    if SubtypeOf(true, value, schema) then Some(TypeCheck(schema, value)) else None
  }

  /** A concrete value is read exactly when validation admits it; what is read is valid and has its content. */
  lemma InterpretExact(schema: Type, value: Type)
    requires WellFormed(schema) && WellFormed(value) && IsValue(value)
    ensures Interpret(schema, value).Some? <==> ValidType(schema, value)
    ensures Interpret(schema, value).Some? ==>
      ValidType(schema, Interpret(schema, value).value) && SameContent(value, Interpret(schema, value).value)
    ensures Interpret(schema, value).Some? && Readable(schema) ==> WellFormed(Interpret(schema, value).value)
    ensures Interpret(schema, value).Some? ==> InContext(schema, value, Interpret(schema, value).value)
  {
    IdentityInvisible(value, schema);
    ValueBelowIffAccepted(value, schema);
    if Accepts(schema, value) {
      TypeCheckSound(schema, value);
      TypeCheckInContext(schema, value);
    }
  }

  // ----- types that are not values

  /** Tuples carry no length bound, which finishing drops. */
  predicate Settled(t: Type) {
    match t
    case List(e) => Settled(e)
    case Tuple(es) => forall i :: 0 <= i < |es| ==> Settled(es[i])
    case Object(fs) => forall i :: 0 <= i < |fs| ==> Settled(fs[i].typ)
    case Sum(ms) => forall i :: 0 <= i < |ms| ==> Settled(ms[i])
    case Refined(b, c, _, _) => Settled(b) && (b.Tuple? ==> c == UNCONSTRAINED)
    case _ => true
  }

  /** Finishing leaves no bound on a tuple. */
  lemma TuplesFinishSettled(base: Type, n: Constraint, impossible: bool)
    requires base.Tuple? && Shaped(base, n) && Finished(base, n, impossible).Some?
    ensures Finished(base, n, impossible).value == UNCONSTRAINED
  {
    if n.enum.Some? && n.enum.value != [] { OwnsNothing(base, n.enum.value); }
  }

  /** What reading any type below a schema promises: a well-formed type below it. */
  predicate StaysBelow(schema: Type, value: Type) {
    var r := TypeCheck(schema, value);
    WellFormed(r) && Below(r, schema) && (Clauses.Kernel(r).Never? ==> Clauses.Kernel(value).Never?)
  }

  lemma {:induction false} TypeCheckBelow(schema: Type, value: Type)
    requires WellFormed(schema) && WellFormed(value) && Readable(schema) && Settled(value) && Below(value, schema)
    ensures StaysBelow(schema, value)
    decreases Size(schema) + Size(value), 2
  {
    if schema.Any? || schema == value || value.Never? {
    } else if schema.Sum? {
      SumStays(schema, value);
    } else if Literal(value).Some? {
      LiteralStays(schema, value);
    } else if value.Refined? && Clauses.Kernel(value).Tuple? {
      WrappedTupleStays(schema, value);
    } else if value.Tuple? {
      TupleStays(schema, value);
    } else if schema.List? && value.List? {
      ListStays(schema, value);
    } else if schema.Object? && value.Object? {
      ObjectStays(schema, value);
    }
  }

  lemma {:induction false} ListStays(schema: Type, value: Type)
    requires WellFormed(schema) && WellFormed(value) && Readable(schema) && Settled(value) && Below(value, schema)
    requires schema.List? && value.List? && schema != value
    ensures StaysBelow(schema, value)
    decreases Size(schema) + Size(value), 0
  {
    UnfoldShape(value, schema);
    TypeCheckBelow(schema.elem, value.elem);
    UnfoldShape(List(TypeCheck(schema.elem, value.elem)), schema);
  }

  lemma {:induction false} SumStays(schema: Type, value: Type)
    requires WellFormed(schema) && WellFormed(value) && Readable(schema) && Settled(value) && Below(value, schema)
    requires schema.Sum? && schema != value && !value.Never?
    ensures StaysBelow(schema, value)
    decreases Size(schema) + Size(value), 0
  {
    var m := OnlyMember(schema.members, value);
    if m.Some? {
      var member := schema.members[m.value];
      IdentityInvisible(value, member);
      TypeCheckBelow(member, value);
      BelowMember(TypeCheck(member, value), schema, m.value);
    }
  }

  /** A literal is a value, so what holds of reading values applies. */
  lemma LiteralStays(schema: Type, value: Type)
    requires WellFormed(schema) && WellFormed(value) && Readable(schema) && Below(value, schema)
    requires !schema.Any? && schema != value && !value.Never? && !schema.Sum? && Literal(value).Some?
    ensures StaysBelow(schema, value)
  {
    ValueBelowIffAccepted(value, schema);
    TypeCheckSound(schema, value);
    ValueBelowIffAccepted(TypeCheck(schema, value), schema);
  }

  lemma {:induction false} WrappedTupleStays(schema: Type, value: Type)
    requires WellFormed(schema) && WellFormed(value) && Readable(schema) && Settled(value) && Below(value, schema)
    requires !schema.Any? && schema != value && !schema.Sum?
    requires value.Refined? && Literal(value).None? && Clauses.Kernel(value).Tuple?
    ensures StaysBelow(schema, value)
    decreases Size(schema) + Size(value), 0
  {
    WrapsTuple(value);
    NotNeverKernel(value);
    Ends(value, schema);
    UnfoldWrapperLeft(value, schema);
    TypeCheckBelow(schema, value.base);
    RewrapStays(schema, value, TypeCheck(schema, value.base));
  }

  lemma {:induction false} WrapsTuple(t: Type)
    requires WellFormed(t) && t.Refined? && Settled(t) && Clauses.Kernel(t).Tuple?
    ensures t.Wrapper()
  {
    if t.Constrained() { ConstrainedBase(t); }
  }

  lemma RewrapStays(schema: Type, value: Type, inner: Type)
    requires value.Wrapper() && WellFormed(inner) && Below(inner, schema) && !schema.Any? && !schema.Never?
    requires TypeCheck(schema, value) == Refined(inner, value.con, value.meta, value.name)
    requires !Clauses.Kernel(inner).Never?
    ensures StaysBelow(schema, value)
  {
    Ends(inner, schema);
    UnfoldWrapperLeft(Refined(inner, value.con, value.meta, value.name), schema);
  }

  lemma {:induction false} TupleStays(schema: Type, value: Type)
    requires WellFormed(schema) && WellFormed(value) && Readable(schema) && Settled(value) && Below(value, schema)
    requires !schema.Any? && schema != value && !schema.Sum? && value.Tuple?
    ensures StaysBelow(schema, value)
    decreases Size(schema) + Size(value), 1
  {
    if schema.Refined? {
      RefinedSchemaStays(schema, value);
    } else if schema.List? || schema.Tuple? {
      SequenceStays(schema, value);
    } else {
      UnfoldShape(value, schema);
    }
  }

  lemma {:induction false} SequenceStays(schema: Type, value: Type)
    requires WellFormed(schema) && WellFormed(value) && Readable(schema) && Settled(value) && Below(value, schema)
    requires (schema.List? || schema.Tuple?) && schema != value && value.Tuple?
    ensures StaysBelow(schema, value)
    decreases Size(schema) + Size(value), 0
  {
    UnfoldShape(value, schema);
    var rs := seq(|value.elems|, i requires 0 <= i < |value.elems| =>
      TypeCheck(ElementType(schema, i), value.elems[i]));
    forall i | 0 <= i < |rs|
      ensures WellFormed(rs[i]) && Below(rs[i], ElementType(schema, i)) && !Clauses.Kernel(rs[i]).Never?
    {
      TypeCheckBelow(ElementType(schema, i), value.elems[i]);
      NotNeverKernel(value.elems[i]);
    }
    SequenceRetyped(schema, value, rs);
    ElementsStay(schema, value, rs);
  }

  lemma {:induction false} RefinedSchemaStays(schema: Type, value: Type)
    requires WellFormed(schema) && WellFormed(value) && Readable(schema) && Settled(value) && Below(value, schema)
    requires schema.Refined? && value.Tuple?
    ensures StaysBelow(schema, value)
    decreases Size(schema) + Size(value), 0
  {
    if schema.Wrapper() {
      BelowWrapper(value, schema);
      TypeCheckBelow(schema.base, value);
      BelowWrapper(TypeCheck(schema.base, value), schema);
    } else {
      ConstrainedBase(schema);
      BoundedAbove(value, schema);
      TypeCheckBelow(schema.base, value);
      TupleStaysTuple(schema.base, value);
      UnfoldLength(TypeCheck(schema.base, value), schema);
    }
  }

  lemma BoundedAbove(value: Type, schema: Type)
    requires WellFormed(schema) && schema.Constrained() && value.Tuple? && Below(value, schema)
    ensures LengthOnly(schema.con) && Below(value, schema.base) && IntsSubset(ContainerLength(value).value, schema.con.length)
  {
    ConstrainedBase(schema);
    if LengthOnly(schema.con) { UnfoldLength(value, schema); } else { UnfoldRefinedRight(value, schema); }
  }

  lemma ElementsStay(schema: Type, value: Type, rs: seq<Type>)
    requires schema.List? || (schema.Tuple? && |schema.elems| == |rs|)
    requires value.Tuple? && TypeCheck(schema, value) == TupleOf(rs)
    requires forall i :: 0 <= i < |rs| ==>
      WellFormed(rs[i]) && Below(rs[i], ElementType(schema, i)) && !Clauses.Kernel(rs[i]).Never?
    ensures StaysBelow(schema, value)
  {
    assert TupleOf(rs) == Tuple(rs);
    forall i | 0 <= i < |rs| ensures !rs[i].Never? { assert !Clauses.Kernel(rs[i]).Never?; }
    UnfoldShape(Tuple(rs), schema);
  }

  lemma NotNeverKernel(t: Type)
    requires WellFormed(t) && !t.Never?
    ensures !Clauses.Kernel(t).Never?
    decreases t
  {
    if t.Refined? { NotNeverKernel(t.base); }
  }

  lemma {:induction false} ObjectStays(schema: Type, value: Type)
    requires WellFormed(schema) && WellFormed(value) && Readable(schema) && Settled(value) && Below(value, schema)
    requires schema.Object? && value.Object? && schema != value
    ensures StaysBelow(schema, value)
    decreases Size(schema) + Size(value), 0
  {
    var (fs, vs) := (schema.fields, value.fields);
    UnfoldShape(value, schema);
    ObjectShape(value, schema);
    forall i | 0 <= i < |vs| ensures IndexOf(fs, vs[i].name) >= 0 { assert FieldBelow(vs[i], fs); }
    var rs := TypeCheck(schema, value).fields;
    forall i | 0 <= i < |vs| ensures FieldStays(fs, vs[i], rs[i]) {
      assert FieldBelow(vs[i], fs);
      TypeCheckBelow(fs[IndexOf(fs, vs[i].name)].typ, vs[i].typ);
    }
    FieldsStay(fs, vs, rs);
    UnfoldShape(Object(rs), schema);
    ObjectShape(Object(rs), schema);
  }

  /** A field keeps its name and flags, and stays below its declaration. */
  predicate FieldStays(fs: seq<Field>, v: Field, r: Field) {
    && r.name == v.name && r.optional == v.optional && WellFormed(r.typ) && FieldBelow(r, fs)
  }

  lemma FieldsStay(fs: seq<Field>, vs: seq<Field>, rs: seq<Field>)
    requires SortedFields(vs) && |rs| == |vs| && RequiredIn(vs, fs)
    requires forall i :: 0 <= i < |vs| ==> FieldStays(fs, vs[i], rs[i])
    ensures WellFormed(Object(rs)) && FieldsBelow(rs, fs)
  {
    forall i, j | 0 <= i < j < |rs| ensures CompareStrings(rs[i].name, rs[j].name) < 0 {
      assert FieldStays(fs, vs[i], rs[i]) && FieldStays(fs, vs[j], rs[j]);
    }
    forall i | 0 <= i < |rs| ensures WellFormed(rs[i].typ) && FieldBelow(rs[i], fs) { assert FieldStays(fs, vs[i], rs[i]); }
    forall k | 0 <= k < |fs| && !fs[k].optional
      ensures IndexOf(rs, fs[k].name) >= 0 && !rs[IndexOf(rs, fs[k].name)].optional
    {
      forall i | 0 <= i < |vs| ensures rs[i].name == vs[i].name { assert FieldStays(fs, vs[i], rs[i]); }
      SameNamesIndex(vs, rs, fs[k].name);
      assert FieldStays(fs, vs[IndexOf(rs, fs[k].name)], rs[IndexOf(rs, fs[k].name)]);
    }
  }

  /** A type of any kind is read exactly when it is below the schema, and as a well-formed type below it. */
  lemma InterpretBelow(schema: Type, value: Type)
    requires WellFormed(schema) && WellFormed(value)
    ensures Interpret(schema, value).Some? <==> Below(value, schema)
    ensures Interpret(schema, value).Some? && Readable(schema) && Settled(value) ==>
      WellFormed(Interpret(schema, value).value) && Below(Interpret(schema, value).value, schema)
    ensures Interpret(schema, value).Some? && Settled(value) ==> InContext(schema, value, Interpret(schema, value).value)
  {
    IdentityInvisible(value, schema);
    if Below(value, schema) && Settled(value) {
      TypeCheckInContext(schema, value);
      if Readable(schema) { TypeCheckBelow(schema, value); }
    }
  }
}
