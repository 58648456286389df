/** `SubtypeOf` is a preorder on well-formed types. */
module OrderLaws {
  import opened Wrappers
  import opened Atoms
  import opened Constraints
  import opened Types
  import opened Order

  // ----- unfolding at wrappers and unions

  /** A metadata wrapper on the right is transparent, wherever the left stands. */
  lemma BelowWrapper(x: Type, w: Type)
    requires w.Wrapper() && !w.base.Any? && !w.base.Never?
    ensures Below(x, w) <==> Below(x, w.base)
    decreases Size(x)
  {
    if x.Sum? {
      forall i | 0 <= i < |x.members| ensures Below(x.members[i], w) <==> Below(x.members[i], w.base) {
        BelowWrapper(x.members[i], w);
      }
    } else if x.Wrapper() {
      BelowWrapper(x.base, w);
    }
  }

  /** Below a member is below the union. */
  lemma BelowMember(x: Type, s: Type, i: nat)
    requires s.Sum? && i < |s.members| && !s.members[i].Any?
    requires Below(x, s.members[i])
    ensures Below(x, s)
    decreases Size(x)
  {
    if x.Sum? {
      forall k | 0 <= k < |x.members| ensures Below(x.members[k], s) {
        BelowMember(x.members[k], s, i);
      }
    } else if x.Wrapper() {
      BelowMember(x.base, s, i);
    }
  }

  // ----- reflexivity

  lemma LiteralOfEnum(t: Type)
    requires WellFormed(t) && t.Constrained()
    ensures t.con.enum.Some? && |t.con.enum.value| == 1 ==> Literal(t) == Some(t.con.enum.value[0])
    ensures Literal(t).Some? ==> t.con.enum == Some([Literal(t).value])
  {
    if t.con.enum.Some? && |t.con.enum.value| == 1 {
      var e := t.con.enum.value;
      CompareDecidesValue(e[0], e[0]);
      assert InEnum(e, e[0]);
    }
    if Literal(t).Some? {
      assert t.con.enum.value == [t.con.enum.value[0]];
    }
  }

  lemma SubsetReflexive(c: Constraint)
    requires c.enum.Some? ==> EnumOnly(c)
    ensures Subset(c, c)
  {
    if c.enum.Some? {
      var e := c.enum.value;
      forall i | 0 <= i < |e| ensures Satisfies(c, Scalar(e[i])) {
        CompareDecidesValue(e[i], e[i]);
        assert InEnum(e, e[i]);
      }
    }
  }

  lemma IndexOfOwnField(fs: seq<Field>, i: nat)
    requires SortedFields(fs) && i < |fs|
    ensures IndexOf(fs, fs[i].name) == i
  {
    SortedNamesDistinct(fs, i, IndexOf(fs, fs[i].name));
  }

  lemma ConstrainedReflexive(t: Type)
    requires WellFormed(t) && t.Constrained()
    requires Below(t.base, t.base)
    ensures Below(t, t)
  {
    if ContainerLength(t).Some? { BoundedReflexive(t); } else { ScalarReflexive(t); }
  }

  lemma BoundedReflexive(t: Type)
    requires WellFormed(t) && t.Constrained() && ContainerLength(t).Some?
    requires Below(t.base, t.base)
    ensures Below(t, t)
  {
    SubsetReflexive(t.con);
    assert RefinedSubtype(false, t, t.base);
  }

  lemma ScalarReflexive(t: Type)
    requires WellFormed(t) && t.Constrained() && ContainerLength(t).None?
    requires Below(t.base, t.base)
    ensures Below(t, t)
  {
    SubsetReflexive(t.con);
    assert RefinedSubtype(false, t, t);
  }

  lemma ShapeReflexive(t: Type)
    requires WellFormed(t) && !t.Sum? && !t.Refined?
    requires t.List? ==> Below(t.elem, t.elem)
    requires t.Tuple? ==> forall i :: 0 <= i < |t.elems| ==> Below(t.elems[i], t.elems[i])
    requires t.Object? ==> forall i :: 0 <= i < |t.fields| ==> Below(t.fields[i].typ, t.fields[i].typ)
    ensures Below(t, t)
  {
    if t.Object? {
      forall i | 0 <= i < |t.fields| ensures IndexOf(t.fields, t.fields[i].name) == i {
        IndexOfOwnField(t.fields, i);
      }
    } else if t.Lit? {
      CompareDecidesValue(t.atom, t.atom);
    }
    if !t.Any? && !t.Never? { assert ShapeSubtype(false, t, t); }
  }

  lemma {:induction false} BelowReflexive(t: Type)
    requires WellFormed(t)
    ensures Below(t, t)
    decreases Size(t)
  {
    if t.Sum? {
      forall i | 0 <= i < |t.members| ensures Below(t.members[i], t) {
        BelowReflexive(t.members[i]);
        BelowMember(t.members[i], t, i);
      }
    } else if t.Refined? {
      BelowReflexive(t.base);
      if t.Wrapper() { BelowWrapper(t.base, t); } else { ConstrainedReflexive(t); }
    } else {
      if t.List? { BelowReflexive(t.elem); }
      if t.Tuple? {
        forall i | 0 <= i < |t.elems| ensures Below(t.elems[i], t.elems[i]) { BelowReflexive(t.elems[i]); }
      }
      if t.Object? {
        forall i | 0 <= i < |t.fields| ensures Below(t.fields[i].typ, t.fields[i].typ) {
          BelowReflexive(t.fields[i].typ);
        }
      }
      ShapeReflexive(t);
    }
  }

  // ----- containers: shapes bound lengths, and the order respects the bounds

  /** Neither a union, nor a wrapper, nor empty: what remains once both sides are taken apart. */
  predicate Core(t: Type) {
    !t.Sum? && !t.Never? && !t.Wrapper()
  }

  function NamesOf(fs: seq<Field>): set<string> {
    set i | 0 <= i < |fs| :: fs[i].name
  }

  function RequiredNames(fs: seq<Field>): set<string> {
    set i | 0 <= i < |fs| && !fs[i].optional :: fs[i].name
  }

  lemma {:induction false} NameCounts(fs: seq<Field>)
    requires SortedFields(fs)
    ensures |NamesOf(fs)| == |fs|
    ensures |RequiredNames(fs)| == RequiredCount(fs)
  {
    if fs != [] {
      var (init, last) := (fs[..|fs| - 1], fs[|fs| - 1]);
      NameCounts(init);
      forall i | 0 <= i < |init| ensures init[i].name != last.name {
        if init[i].name == last.name { SortedNamesDistinct(fs, i, |fs| - 1); }
      }
      assert last.name !in NamesOf(init) && last.name !in RequiredNames(init);
      SplitNames(fs);
    }
  }

  lemma SplitNames(fs: seq<Field>)
    requires fs != []
    ensures var (init, last) := (fs[..|fs| - 1], fs[|fs| - 1]);
      && NamesOf(fs) == NamesOf(init) + {last.name}
      && RequiredNames(fs) == RequiredNames(init) + (if last.optional then {} else {last.name})
  {
    var (init, last) := (fs[..|fs| - 1], fs[|fs| - 1]);
    forall n | n in NamesOf(fs) ensures n in NamesOf(init) + {last.name} {
      var i :| 0 <= i < |fs| && fs[i].name == n;
      if i < |init| { assert init[i].name == n; }
    }
    forall n | n in RequiredNames(fs) ensures n in RequiredNames(init) + (if last.optional then {} else {last.name}) {
      var i :| 0 <= i < |fs| && !fs[i].optional && fs[i].name == n;
      if i < |init| { assert init[i].name == n; }
    }
    forall n | n in NamesOf(init) ensures n in NamesOf(fs) {
      var i :| 0 <= i < |init| && init[i].name == n;
      assert fs[i].name == n;
    }
    forall n | n in RequiredNames(init) ensures n in RequiredNames(fs) {
      var i :| 0 <= i < |init| && !init[i].optional && init[i].name == n;
      assert fs[i].name == n && !fs[i].optional;
    }
  }

  lemma ObjectLengths(af: seq<Field>, bf: seq<Field>)
    requires SortedFields(af) && SortedFields(bf)
    requires forall i :: 0 <= i < |af| ==> IndexOf(bf, af[i].name) >= 0
    requires forall j :: 0 <= j < |bf| && !bf[j].optional ==>
      IndexOf(af, bf[j].name) >= 0 && !af[IndexOf(af, bf[j].name)].optional
    ensures |af| <= |bf| && RequiredCount(bf) <= RequiredCount(af)
  {
    NameCounts(af);
    NameCounts(bf);
    forall n | n in NamesOf(af) ensures n in NamesOf(bf) {
      var i :| 0 <= i < |af| && af[i].name == n;
      assert bf[IndexOf(bf, n)].name == n;
    }
    forall n | n in RequiredNames(bf) ensures n in RequiredNames(af) {
      var j :| 0 <= j < |bf| && !bf[j].optional && bf[j].name == n;
      assert af[IndexOf(af, n)].name == n;
    }
    SubsetCardinality(NamesOf(af), NamesOf(bf));
    SubsetCardinality(RequiredNames(bf), RequiredNames(af));
  }

  /** A type below a container is a container, and its shape allows no length the other forbids. */
  lemma {:induction false} ContainerLengthMonotone(x: Type, y: Type)
    requires WellFormed(x) && WellFormed(y) && Core(x) && Core(y)
    requires Below(x, y) && ContainerLength(y).Some?
    ensures ContainerLength(x).Some? && IntsSubset(ContainerLength(x).value, ContainerLength(y).value)
    decreases Size(x) + Size(y)
  {
    if y.Refined? {
      if ContainerLength(x).Some? {
        ContainerLengthMonotone(x, y.base);
      } else if x.Refined? {
        assert RefinedSubtype(false, x, y);
        if Below(x.base, y.base) && Below(y.base, x.base) {
          ContainerLengthMonotone(x.base, y.base);
        } else if Literal(x).Some? {
          ContainerLengthMonotone(Lit(Literal(x).value), y);
        } else {
          ContainerLengthMonotone(x.base, y);
        }
      } else {
        ContainerLengthMonotone(x, y.base);
      }
    } else if x.Refined? {
      assert RefinedSubtype(false, x, y);
      if Literal(x).Some? {
        ContainerLengthMonotone(Lit(Literal(x).value), y);
      } else {
        ContainerLengthMonotone(x.base, y);
      }
    } else {
      assert ShapeSubtype(false, x, y);
      if x.Object? {
        ObjectLengths(x.fields, y.fields);
      }
    }
  }

  /** A container is only below containers and `any`. */
  lemma {:induction false} ContainerOnlyBelowContainer(x: Type, y: Type)
    requires WellFormed(x) && WellFormed(y) && Core(x) && Core(y)
    requires Below(x, y) && ContainerLength(x).Some?
    ensures ContainerLength(y).Some? || y.Any?
    decreases Size(x) + Size(y)
  {
    if !y.Any? {
      if y.Refined? && LengthOnly(y.con) {
        ContainerOnlyBelowContainer(x, y.base);
      } else if x.Refined? {
        assert RefinedSubtype(false, x, y);
        assert Literal(x).None?;
        if !y.Refined? || !Below(x.base, y.base) || !Below(y.base, x.base) {
          ContainerOnlyBelowContainer(x.base, y);
        }
      } else {
        assert !y.Refined?;
        assert ShapeSubtype(false, x, y);
      }
    }
  }

  // ----- objects, field by field

  predicate FieldBelow(f: Field, bf: seq<Field>) {
    var j := IndexOf(bf, f.name);
    j >= 0 && (f.optional ==> bf[j].optional) && Below(f.typ, bf[j].typ)
  }

  predicate RequiredIn(af: seq<Field>, bf: seq<Field>) {
    forall j :: 0 <= j < |bf| && !bf[j].optional ==>
      IndexOf(af, bf[j].name) >= 0 && !af[IndexOf(af, bf[j].name)].optional
  }

  predicate FieldsBelow(af: seq<Field>, bf: seq<Field>) {
    (forall i :: 0 <= i < |af| ==> FieldBelow(af[i], bf)) && RequiredIn(af, bf)
  }

  lemma ObjectSubtypeIsFieldsBelow(af: seq<Field>, bf: seq<Field>, bound: nat)
    requires forall i, j :: 0 <= i < |af| && 0 <= j < |bf| ==> Size(af[i].typ) + Size(bf[j].typ) < bound
    ensures ObjectSubtype(false, af, bf, bound) <==> FieldsBelow(af, bf)
  {
    if FieldsBelow(af, bf) {
      forall i | 0 <= i < |af|
        ensures var j := IndexOf(bf, af[i].name);
          j >= 0 && (af[i].optional ==> bf[j].optional) && SubtypeOf(false, af[i].typ, bf[j].typ)
      {
        assert FieldBelow(af[i], bf);
      }
    }
  }

  lemma ObjectShape(x: Type, y: Type)
    requires x.Object? && y.Object?
    ensures ShapeSubtype(false, x, y) <==> FieldsBelow(x.fields, y.fields)
  {
    ObjectSubtypeIsFieldsBelow(x.fields, y.fields, Size(x) + Size(y));
  }
}
