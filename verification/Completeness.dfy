/** Completeness of the order: where every concrete value of the left type is one of the right, `SubtypeOf` says so
  * (internal/compiled/order.go:20-158).  The other direction is soundness. */
module Completeness {
  import opened Wrappers
  import opened Atoms
  import opened Constraints
  import opened Types
  import opened Order
  import opened OrderLaws
  import opened Transitivity
  import opened Soundness
  import opened NormalForms
  import opened NormalFormLaws
  import opened Emptiness
  import opened ScalarCompleteness

  // ----- sorts of values

  datatype Sort = Nulls | Bools | Numbers | Strings | Sequences | Objects

  function SortOfAtom(a: Atom): Sort {
    match a
    case NullAtom => Nulls
    case BoolAtom(_) => Bools
    case IntAtom(_) => Numbers
    case RealAtom(_) => Numbers
    case StringAtom(_) => Strings
  }

  /** The values of the type can be of this sort. */
  predicate HasSort(t: Type, s: Sort) {
    match t
    case Any => true
    case Never => false
    case Bool => s == Bools
    case Int => s == Numbers
    case Real => s == Numbers
    case String => s == Strings
    case Lit(a) => s == SortOfAtom(a)
    case List(_) => s == Sequences
    case Tuple(_) => s == Sequences
    case Object(_) => s == Objects
    case Sum(ms) => exists i :: 0 <= i < |ms| && HasSort(ms[i], s)
    case Refined(b, c, _, _) =>
      if b.Any? && c.enum.Some? then exists i :: 0 <= i < |c.enum.value| && SortOfAtom(c.enum.value[i]) == s
      else HasSort(b, s)
  }

  predicate Meets(a: Type, b: Type) {
    exists s :: HasSort(a, s) && HasSort(b, s)
  }

  /** At most one member of the union has values of a sort of the left type. */
  predicate OneMeets(a: Type, ms: seq<Type>) {
    forall i, j :: 0 <= i < j < |ms| ==> !(Meets(a, ms[i]) && Meets(a, ms[j]))
  }

  function SortOf(v: Type): Sort {
    match v
    case Lit(a) => SortOfAtom(a)
    case Object(_) => Objects
    case _ => Sequences
  }

  lemma {:induction false} AcceptedSort(t: Type, v: Type)
    requires WellFormed(t) && IsValue(v) && Accepts(t, v)
    ensures HasSort(t, SortOf(LiteralBase(v)))
    decreases t
  {
    AcceptsLooksThroughRefinements(t, v);
    var w := LiteralBase(v);
    match t
    case Sum(ms) =>
      var i :| 0 <= i < |ms| && Accepts(ms[i], w);
      AcceptsLooksThroughRefinements(ms[i], v);
      AcceptedSort(ms[i], v);
    case Refined(b, c, _, _) =>
      if b.Any? && c.enum.Some? {
        ListedSort(c.enum.value, w.atom);
      } else {
        AcceptsLooksThroughRefinements(b, v);
        AcceptedSort(b, v);
      }
    case Lit(a) => CompareDecidesValue(w.atom, a);
    case _ =>
  }

  lemma ListedSort(e: seq<Atom>, x: Atom)
    requires InEnum(e, x)
    ensures exists i :: 0 <= i < |e| && SortOfAtom(e[i]) == SortOfAtom(x)
  {
    var i :| 0 <= i < |e| && CompareAtoms(x, e[i]) == 0;
    CompareDecidesValue(x, e[i]);
  }

  /** Types that share no sort share no value. */
  lemma Apart(a: Type, b: Type)
    requires WellFormed(a) && WellFormed(b) && Inhabited(a) && !Meets(a, b)
    ensures !Included(a, b)
  {
    var v :| IsMember(a, v);
    NoCommonValue(a, b, v);
  }

  lemma NoCommonValue(a: Type, b: Type, v: Type)
    requires WellFormed(a) && WellFormed(b) && IsMember(a, v) && !Meets(a, b)
    ensures !Accepts(b, v)
  {
    AcceptedSort(a, v);
    if Accepts(b, v) { AcceptedSort(b, v); }
  }

  // ----- which types the theorem speaks of

  /** Every part of the type has a value, and length bounds leave each part in use: a list can have an element, and an
    * optional field can be given and can be omitted. */
  predicate Solid(t: Type) {
    match t
    case Never => false
    case List(e) => Solid(e)
    case Tuple(es) => forall i :: 0 <= i < |es| ==> Solid(es[i])
    case Object(fs) => forall i :: 0 <= i < |fs| ==> Solid(fs[i].typ)
    case Sum(ms) => forall i :: 0 <= i < |ms| ==> Solid(ms[i])
    case Refined(b, c, _, _) =>
      if c == UNCONSTRAINED then Solid(b)
      else if ContainerLength(b).Some? then Solid(b) && Roomy(b, ContainerLength(t).value)
      else HasAtoms(t)
    case _ => true
  }

  predicate Roomy(base: Type, lengths: IntBounds)
    requires lengths.min.Some?
  {
    && !ImpossibleInts(lengths)
    && (base.List? && lengths.max.Some? ==> lengths.max.value >= 1)
    && (base.Object? && RequiredCount(base.fields) < |base.fields| ==>
          && lengths.min.value < |base.fields|
          && (lengths.max.Some? ==> lengths.max.value > RequiredCount(base.fields)))
  }

  /** No union on the right has two members with values of a sort of the left type. */
  ghost predicate Separate(a: Type, b: Type)
    decreases Size(a) + Size(b), 1
  {
    if a.Any? || b.Any? || b.Never? || IsValue(a) then true
    else if a.Sum? then forall i :: 0 <= i < |a.members| ==> Separate(a.members[i], b)
    else if a.Wrapper() then Separate(a.base, b)
    else if b.Wrapper() then Separate(a, b.base)
    else if b.Sum? then
      && OneMeets(a, b.members)
      && forall i :: 0 <= i < |b.members| && Meets(a, b.members[i]) ==> Separate(a, b.members[i])
    else if !Meets(a, b) || ContainerLength(a).None? then true
    else if b.Refined? then Separate(a, b.base)
    else SeparateParts(a, b)
  }

  ghost predicate SeparateParts(a: Type, b: Type)
    requires ContainerLength(a).Some?
    decreases Size(a) + Size(b), 0
  {
    match (Own(a), b)
    case (List(e), List(f)) => Separate(e, f)
    case (List(e), Tuple(fs)) => forall i :: 0 <= i < |fs| ==> Separate(e, fs[i])
    case (Tuple(es), List(f)) => forall i :: 0 <= i < |es| ==> Separate(es[i], f)
    case (Tuple(es), Tuple(fs)) => |es| == |fs| ==> forall i :: 0 <= i < |es| ==> Separate(es[i], fs[i])
    case (Object(es), Object(fs)) =>
      forall i, j :: 0 <= i < |es| && 0 <= j < |fs| && es[i].name == fs[j].name ==> Separate(es[i].typ, fs[j].typ)
    case _ => true
  }

  /** The inclusion taken part by part down to the scalar types.  It differs from the order at two places only: a scalar
    * part may also be one of the inclusions that the order misses, and a list of one length may be inside a tuple. */
  ghost predicate Within(a: Type, b: Type)
    decreases Size(a) + Size(b), 1
  {
    if b.Any? then true
    else if IsValue(a) then Accepts(b, a)
    else if a.Any? || b.Never? then false
    else if a.Sum? then forall i :: 0 <= i < |a.members| ==> Within(a.members[i], b)
    else if a.Wrapper() then Within(a.base, b)
    else if b.Wrapper() then Within(a, b.base)
    else if b.Sum? then exists i :: 0 <= i < |b.members| && Within(a, b.members[i])
    else if ContainerLength(a).None? then ScalarType(b) && (Below(a, b) || Missed(a, b))
    else if b.Refined? then
      LengthOnly(b.con) && Within(a, b.base) && IntsSubset(ContainerLength(a).value, b.con.length)
    else WithinParts(a, b)
  }

  ghost predicate WithinParts(a: Type, b: Type)
    requires ContainerLength(a).Some?
    decreases Size(a) + Size(b), 0
  {
    match (Own(a), b)
    case (List(e), List(f)) => Within(e, f)
    case (List(e), Tuple(fs)) => OneLength(a, |fs|) && forall i :: 0 <= i < |fs| ==> Within(e, fs[i])
    case (Tuple(es), List(f)) => forall i :: 0 <= i < |es| ==> Within(es[i], f)
    case (Tuple(es), Tuple(fs)) => |es| == |fs| && forall i :: 0 <= i < |es| ==> Within(es[i], fs[i])
    case (Object(es), Object(fs)) =>
      && Declared(es, fs) && RequiredIn(es, fs)
      && forall i, j :: 0 <= i < |es| && 0 <= j < |fs| && es[i].name == fs[j].name ==> Within(es[i].typ, fs[j].typ)
    case _ => false
  }

  predicate OneLength(a: Type, n: nat)
    requires ContainerLength(a).Some?
  {
    ContainerLength(a).value == IntBounds(Some(n), Some(n))
  }

  /** Every field of the left is declared on the right, and optional there if it is on the left. */
  predicate Declared(es: seq<Field>, fs: seq<Field>) {
    forall i :: 0 <= i < |es| ==>
      var j := IndexOf(fs, es[i].name);
      j >= 0 && (es[i].optional ==> fs[j].optional)
  }

  /** Neither of the two places is met on the way. */
  ghost predicate Seen(a: Type, b: Type)
    decreases Size(a) + Size(b), 1
  {
    if a.Any? || b.Any? || b.Never? || IsValue(a) then true
    else if a.Sum? then forall i :: 0 <= i < |a.members| ==> Seen(a.members[i], b)
    else if a.Wrapper() then Seen(a.base, b)
    else if b.Wrapper() then Seen(a, b.base)
    else if b.Sum? then forall i :: 0 <= i < |b.members| && Meets(a, b.members[i]) ==> Seen(a, b.members[i])
    else if ContainerLength(a).None? then !Missed(a, b)
    else if b.Refined? then Seen(a, b.base)
    else SeenParts(a, b)
  }

  ghost predicate SeenParts(a: Type, b: Type)
    requires ContainerLength(a).Some?
    decreases Size(a) + Size(b), 0
  {
    match (Own(a), b)
    case (List(e), List(f)) => Seen(e, f)
    case (List(_), Tuple(fs)) => !OneLength(a, |fs|)
    case (Tuple(es), List(f)) => forall i :: 0 <= i < |es| ==> Seen(es[i], f)
    case (Tuple(es), Tuple(fs)) => |es| == |fs| ==> forall i :: 0 <= i < |es| ==> Seen(es[i], fs[i])
    case (Object(es), Object(fs)) =>
      forall i, j :: 0 <= i < |es| && 0 <= j < |fs| && es[i].name == fs[j].name ==> Seen(es[i].typ, fs[j].typ)
    case _ => true
  }

  // ----- such types have values

  lemma {:induction false} SolidInhabited(t: Type)
    requires WellFormed(t) && Solid(t)
    ensures Inhabited(t)
    decreases t, 1
  {
    if t.Sum? {
      SolidInhabited(t.members[0]);
      var v :| IsMember(t.members[0], v);
      AcceptsLooksThroughRefinements(t.members[0], v);
      assert IsMember(t, v);
    } else if t.Wrapper() {
      SolidInhabited(t.base);
      var v :| IsMember(t.base, v);
      AcceptsLooksThroughRefinements(t.base, v);
      assert IsMember(t, v);
    } else if ContainerLength(t).Some? {
      if t.Refined? { ConstrainedBase(t); }
      SolidParts(t);
      SolidLengths(t);
      var v := AnyLength(t, ContainerLength(t).value.min.value);
    } else if t.Refined? {
      ConstrainedBase(t);
      AtomWitness(t);
    } else {
      UnrefinedWitness(t);
    }
  }

  lemma UnrefinedWitness(t: Type)
    requires t.Any? || t.Bool? || t.Int? || t.Real? || t.String? || t.Lit?
    ensures Inhabited(t)
  {
    var x := if t.Lit? then t.atom else if t.Bool? then BoolAtom(true) else if t.String? then StringAtom("") else IntAtom(0);
    CompareDecidesValue(x, x);
    assert IsMember(t, Lit(x));
  }

  ghost predicate FieldsInhabited(fs: seq<Field>) {
    forall i :: 0 <= i < |fs| ==> Inhabited(fs[i].typ)
  }

  /** The parts of a container have values. */
  ghost predicate PartsInhabited(t: Type) {
    match t
    case List(e) => Inhabited(e)
    case Tuple(es) => AllInhabited(es)
    case Object(fs) => FieldsInhabited(fs)
    case _ => true
  }

  lemma {:induction false} SolidParts(t: Type)
    requires WellFormed(t) && Solid(t) && Core(t) && ContainerLength(t).Some?
    ensures PartsInhabited(Own(t))
    decreases t, 0
  {
    if t.Refined? {
      ConstrainedBase(t);
      SolidParts(t.base);
    } else if t.List? {
      SolidInhabited(t.elem);
    } else if t.Tuple? {
      forall i | 0 <= i < |t.elems| ensures Inhabited(t.elems[i]) { SolidInhabited(t.elems[i]); }
    } else {
      forall i | 0 <= i < |t.fields| ensures Inhabited(t.fields[i].typ) { SolidInhabited(t.fields[i].typ); }
    }
  }

  /** The bounds on the length read off the shape do not cross. */
  lemma SolidLengths(t: Type)
    requires WellFormed(t) && Solid(t) && Core(t) && ContainerLength(t).Some?
    ensures !ImpossibleInts(ContainerLength(t).value) && ContainerLength(t).value.min.value >= 0
    ensures Roomy(Own(t), ContainerLength(t).value)
  {
    if t.Refined? { ConstrainedBase(t); }
    if Own(t).Object? { CountWithin(Own(t).fields); }
  }

  lemma AtomWitness(t: Type)
    requires WellFormed(t) && t.Constrained() && ScalarBase(t.base) && HasAtoms(t)
    ensures Inhabited(t)
  {
    var c := t.con;
    var x: Atom;
    if c.enum.Some? {
      x := c.enum.value[0];
      OwnAtomsBelow(t.base, c, 0);
      AtomBelowIffAccepted(x, t.base);
      CompareDecidesValue(x, x);
      assert InEnum(c.enum.value, x);
    } else if t.base.Int? {
      var i := IntsWitness(c.ints);
      x := IntAtom(i);
    } else if t.base.Real? {
      var r := RealsWitness(Interval(c));
      IntervalMeaning(c, r);
      x := RealAtom(r);
    } else {
      x := StringAtom(seq(StringLengths(c.length).min.value, _ => 'a'));
    }
    assert IsMember(t, Lit(x));
  }

  // ----- containers: values with a chosen part

  lemma LiveAll(fs: seq<Field>)
    requires SortedFields(fs) && FieldsInhabited(fs)
    ensures |Live(fs)| == |fs|
  {
    LiveSorted(fs);
    NameCounts(fs);
    NameCounts(Live(fs));
    forall n ensures n in NamesOf(fs) <==> n in NamesOf(Live(fs)) { LiveName(fs, n); }
    assert NamesOf(fs) == NamesOf(Live(fs));
  }

  lemma LiveName(fs: seq<Field>, n: string)
    requires FieldsInhabited(fs)
    ensures n in NamesOf(fs) <==> n in NamesOf(Live(fs))
  {
    if n in NamesOf(fs) {
      var i :| 0 <= i < |fs| && fs[i].name == n;
      LiveMembers(fs, fs[i]);
      var k :| 0 <= k < |Live(fs)| && Live(fs)[k] == fs[i];
    }
    if n in NamesOf(Live(fs)) {
      var k :| 0 <= k < |Live(fs)| && Live(fs)[k].name == n;
      LiveMembers(fs, Live(fs)[k]);
    }
  }

  lemma {:induction false} CountWithin(fs: seq<Field>)
    ensures RequiredCount(fs) <= |fs|
  {
    if fs != [] { CountWithin(fs[..|fs| - 1]); }
  }

  /** A value of the shape whose length is within the bounds is a value of the container. */
  lemma BoundedMember(a: Type, v: Type, k: nat)
    requires WellFormed(a) && Core(a) && ContainerLength(a).Some? && InInts(ContainerLength(a).value, k)
    requires HasLength(Own(a), v, k)
    ensures IsMember(a, v)
  {
    if a.Refined? { ConstrainedBase(a); }
  }

  /** The lengths of the values are exactly those within the bounds read off the shape. */
  lemma AnyLength(a: Type, k: nat) returns (v: Type)
    requires WellFormed(a) && Core(a) && ContainerLength(a).Some? && PartsInhabited(Own(a))
    requires InInts(ContainerLength(a).value, k)
    ensures IsMember(a, v) && HasLength(Own(a), v, k)
  {
    if a.Refined? { ConstrainedBase(a); }
    var base := Own(a);
    if base.Object? { LiveAll(base.fields); }
    v := LengthWitness(base, k);
    BoundedMember(a, v, k);
  }

  lemma ListOfOne(a: Type, w: Type, k: nat)
    requires WellFormed(a) && Core(a) && Own(a).List? && IsMember(Own(a).elem, w)
    requires ContainerLength(a).Some? && InInts(ContainerLength(a).value, k)
    ensures IsMember(a, Tuple(seq(k, _ => w)))
  {
    Repeated(Own(a).elem, seq(k, _ => w));
    BoundedMember(a, Tuple(seq(k, _ => w)), k);
  }

  lemma TupleWith(es: seq<Type>, i: nat, w: Type) returns (ws: seq<Type>)
    requires AllInhabited(es) && i < |es| && IsMember(es[i], w)
    ensures |ws| == |es| && ws[i] == w && HasLength(Tuple(es), Tuple(ws), |es|)
  {
    var v := TupleWitness(es);
    ws := v.elems[i := w];
    forall k | 0 <= k < |es| ensures WellFormed(ws[k]) && IsValue(ws[k]) && !ws[k].Never? && Accepts(es[k], ws[k]) {}
  }

  lemma {:induction false} CountJoin(p: seq<Field>, q: seq<Field>)
    ensures RequiredCount(p + q) == RequiredCount(p) + RequiredCount(q)
    decreases |q|
  {
    if q == [] {
      assert p + q == p;
    } else {
      assert (p + q)[..|p + q| - 1] == p + q[..|q| - 1];
      CountJoin(p, q[..|q| - 1]);
    }
  }

  lemma CountAround(fs: seq<Field>, i: nat, f: Field)
    requires i < |fs|
    ensures RequiredCount(fs[i := f]) - (if f.optional then 0 else 1) == RequiredCount(fs) - (if fs[i].optional then 0 else 1)
    ensures RequiredCount(fs[..i] + fs[i + 1..]) == RequiredCount(fs) - (if fs[i].optional then 0 else 1)
  {
    assert fs == fs[..i] + [fs[i]] + fs[i + 1..];
    assert fs[i := f] == fs[..i] + [f] + fs[i + 1..];
    CountJoin(fs[..i] + [fs[i]], fs[i + 1..]);
    CountJoin(fs[..i] + [f], fs[i + 1..]);
    CountJoin(fs[..i], fs[i + 1..]);
    CountAppend(fs[..i], fs[i]);
    CountAppend(fs[..i], f);
  }

  /** An object value of this length that gives the chosen field the chosen value. */
  lemma FieldGiven(fs: seq<Field>, i: nat, w: Type, k: nat) returns (vs: seq<Field>, j: nat)
    requires SortedFields(fs) && FieldsInhabited(fs) && i < |fs| && IsMember(fs[i].typ, w)
    requires RequiredCount(fs) + (if fs[i].optional then 1 else 0) <= k <= |fs|
    ensures |vs| == k && SortedFields(vs) && HasLength(Object(fs), Object(vs), k)
    ensures j < |vs| && vs[j].name == fs[i].name && vs[j].typ == w
  {
    var own := fs[i].(optional := false);
    var gs := fs[i := own];
    CountAround(fs, i, own);
    assert SortedFields(gs);
    LiveAll(gs);
    var us := FillToLength(gs, k);
    assert gs[i] == own;
    assert Given(us, gs[i].name);
    j :| 0 <= j < |us| && us[j].name == own.name;
    vs := us[j := Field(own.name, w, false, 0)];
    GivenFills(fs, i, w, us, j);
    FilledAccepted(fs, vs);
  }

  lemma StillFilled(fs: seq<Field>, i: nat, v: Field)
    requires i < |fs| && Filled(fs[i := fs[i].(optional := false)], v)
    ensures Filled(fs, v)
  {
    var gs := fs[i := fs[i].(optional := false)];
    var q :| 0 <= q < |gs| && gs[q].name == v.name && IsMember(gs[q].typ, v.typ);
    assert fs[q].name == v.name && fs[q].typ == gs[q].typ;
  }

  lemma GivenFills(fs: seq<Field>, i: nat, w: Type, us: seq<Field>, j: nat)
    requires i < |fs| && Fills(fs[i := fs[i].(optional := false)], us) && SortedFields(us)
    requires IsMember(fs[i].typ, w) && j < |us| && us[j].name == fs[i].name
    ensures var vs := us[j := Field(fs[i].name, w, false, 0)]; SortedFields(vs) && Fills(fs, vs)
  {
    var gs := fs[i := fs[i].(optional := false)];
    var vs := us[j := Field(fs[i].name, w, false, 0)];
    forall p | 0 <= p < |vs| ensures Filled(fs, vs[p]) {
      if p != j { StillFilled(fs, i, us[p]); }
    }
    forall q | 0 <= q < |fs| && !fs[q].optional ensures Given(vs, fs[q].name) {
      assert gs[q].name == fs[q].name && Given(us, gs[q].name);
      var p :| 0 <= p < |us| && us[p].name == gs[q].name;
      assert vs[p].name == fs[q].name;
    }
  }

  /** An object value of this length that omits the chosen field. */
  lemma FieldOmitted(fs: seq<Field>, i: nat, k: nat) returns (vs: seq<Field>)
    requires SortedFields(fs) && FieldsInhabited(fs) && i < |fs| && fs[i].optional
    requires RequiredCount(fs) <= k <= |fs| - 1
    ensures SortedFields(vs) && HasLength(Object(fs), Object(vs), k) && !Given(vs, fs[i].name)
  {
    var gs := fs[..i] + fs[i + 1..];
    CountAround(fs, i, fs[i]);
    assert SortedFields(gs);
    LiveAll(gs);
    vs := FillToLength(gs, k);
    OmittedFills(fs, i, vs);
    FilledAccepted(fs, vs);
  }

  lemma FilledElsewhere(fs: seq<Field>, i: nat, v: Field)
    requires SortedFields(fs) && i < |fs| && Filled(fs[..i] + fs[i + 1..], v)
    ensures Filled(fs, v) && v.name != fs[i].name
  {
    var gs := fs[..i] + fs[i + 1..];
    var q :| 0 <= q < |gs| && gs[q].name == v.name && IsMember(gs[q].typ, v.typ);
    var r := if q < i then q else q + 1;
    assert fs[r] == gs[q];
    if v.name == fs[i].name { SortedNamesDistinct(fs, i, r); }
  }

  lemma OmittedFills(fs: seq<Field>, i: nat, vs: seq<Field>)
    requires SortedFields(fs) && i < |fs| && fs[i].optional && Fills(fs[..i] + fs[i + 1..], vs)
    ensures Fills(fs, vs) && !Given(vs, fs[i].name)
  {
    var gs := fs[..i] + fs[i + 1..];
    forall p | 0 <= p < |vs| ensures Filled(fs, vs[p]) && vs[p].name != fs[i].name { FilledElsewhere(fs, i, vs[p]); }
    forall q | 0 <= q < |fs| && !fs[q].optional ensures Given(vs, fs[q].name) {
      var r := if q < i then q else q - 1;
      assert gs[r] == fs[q];
    }
  }

  // ----- any

  function OneField(name: string): Type {
    Object([Field(name, Lit(NullAtom), false, 0)])
  }

  lemma {:induction false} NamesShorter(fs: seq<Field>) returns (n: nat)
    ensures forall i :: 0 <= i < |fs| ==> |fs[i].name| < n
  {
    n := 0;
    if fs != [] {
      var m := NamesShorter(fs[..|fs| - 1]);
      n := m + |fs[|fs| - 1].name| + 1;
      assert forall i :: 0 <= i < |fs| - 1 ==> fs[i] == fs[..|fs| - 1][i];
    }
  }

  ghost predicate Declines(t: Type, n: nat) {
    forall name: string :: |name| >= n ==> !Accepts(t, OneField(name))
  }

  /** Only `any` admits an object with a field of every name. */
  lemma {:induction false} FreshName(t: Type) returns (n: nat)
    requires WellFormed(t) && !t.Any?
    ensures Declines(t, n)
    decreases t, 1
  {
    n := 0;
    if t.Sum? {
      n := FreshNames(t, |t.members|);
    } else if t.Refined? {
      if !t.base.Any? { n := FreshName(t.base); }
    } else if t.Object? {
      n := NamesShorter(t.fields);
      forall name: string | |name| >= n ensures !Accepts(t, OneField(name)) {
        assert IndexOf(t.fields, name) < 0;
        assert OneField(name).fields[0].name == name;
      }
    }
  }

  lemma {:induction false} FreshNames(t: Type, k: nat) returns (n: nat)
    requires WellFormed(t) && t.Sum? && k <= |t.members|
    ensures forall i :: 0 <= i < k ==> Declines(t.members[i], n)
    decreases t, 0, k
  {
    n := 0;
    if k > 0 {
      var m := FreshNames(t, k - 1);
      var own := FreshName(t.members[k - 1]);
      n := m + own;
      assert forall i :: 0 <= i < k - 1 && Declines(t.members[i], m) ==> Declines(t.members[i], n);
    }
  }

  lemma AnyIncluded(b: Type)
    requires WellFormed(b)
    ensures Included(Any, b) <==> b.Any?
  {
    if !b.Any? {
      var n := FreshName(b);
      var name: string := seq(n, _ => 'a');
      OneFieldIsValue(name);
    }
  }

  lemma OneFieldIsValue(name: string)
    ensures IsMember(Any, OneField(name))
  {
    var fs := OneField(name).fields;
    assert |fs| == 1 && IsValue(fs[0].typ) && WellFormed(fs[0].typ);
  }

  // ----- one step

  lemma MemberIncluded(a: Type, b: Type, i: nat)
    requires WellFormed(a) && a.Sum? && i < |a.members| && Included(a, b)
    ensures Included(a.members[i], b)
  {
    forall v | IsMember(a.members[i], v) ensures Accepts(b, v) {
      AcceptsLooksThroughRefinements(a.members[i], v);
      assert IsMember(a, v);
    }
  }

  lemma WrapperLeftIncluded(a: Type, b: Type)
    requires a.Wrapper() && Included(a, b)
    ensures Included(a.base, b)
  {
    forall v | IsMember(a.base, v) ensures Accepts(b, v) {
      AcceptsLooksThroughRefinements(a.base, v);
      assert IsMember(a, v);
    }
  }

  lemma BaseIncluded(a: Type, b: Type)
    requires b.Refined? && Included(a, b)
    ensures Included(a, b.base)
  {
    forall v | IsMember(a, v) ensures Accepts(b.base, v) { AcceptsLooksThroughRefinements(b.base, v); }
  }

  /** Only one member of the union can take the values of the left. */
  lemma OneMemberIncluded(a: Type, b: Type) returns (i: nat)
    requires WellFormed(a) && WellFormed(b) && b.Sum? && Inhabited(a) && Included(a, b)
    requires OneMeets(a, b.members)
    ensures i < |b.members| && Meets(a, b.members[i]) && Included(a, b.members[i])
  {
    var v :| IsMember(a, v);
    i := TakingMember(a, b, v);
    forall u | IsMember(a, u) ensures Accepts(b.members[i], u) {
      var j := TakingMember(a, b, u);
      SameMember(a, b.members, i, j);
    }
  }

  lemma SameMember(a: Type, ms: seq<Type>, i: nat, j: nat)
    requires OneMeets(a, ms) && i < |ms| && j < |ms| && Meets(a, ms[i]) && Meets(a, ms[j])
    ensures i == j
  {
  }

  lemma TakingMember(a: Type, b: Type, v: Type) returns (i: nat)
    requires WellFormed(a) && WellFormed(b) && b.Sum? && Included(a, b) && IsMember(a, v)
    ensures i < |b.members| && Accepts(b.members[i], v) && Meets(a, b.members[i])
  {
    i :| 0 <= i < |b.members| && Accepts(b.members[i], LiteralBase(v));
    AcceptsLooksThroughRefinements(b.members[i], v);
    AcceptedSort(a, v);
    AcceptedSort(b.members[i], v);
  }

  /** What is left when unions, wrappers, `any` and `never` are taken off. */
  lemma ScalarsAndContainers(t: Type)
    requires WellFormed(t) && Core(t) && !t.Any?
    ensures ScalarType(t) <==> ContainerLength(t).None?
    ensures ContainerLength(t).Some? ==> Container(Own(t))
    ensures forall s :: HasSort(t, s) ==> (s == Sequences || s == Objects <==> ContainerLength(t).Some?)
  {
    if t.Refined? { ConstrainedBase(t); }
  }

  lemma SameShape(a: Type, b: Type)
    requires Container(Own(a)) && Container(b) && Meets(a, b)
    ensures Own(a).Object? <==> b.Object?
  {
    var s :| HasSort(a, s) && HasSort(b, s);
    assert HasSort(Own(a), s);
  }

  // ----- containers

  lemma LengthsIncluded(a: Type, b: Type)
    requires WellFormed(a) && WellFormed(b) && Core(a) && Core(b) && Solid(a) && ContainerLength(a).Some?
    requires b.Refined? && LengthOnly(b.con) && Included(a, b)
    ensures IntsSubset(ContainerLength(a).value, b.con.length)
  {
    SolidParts(a);
    SolidLengths(a);
    var lengths := ContainerLength(a).value;
    forall k | InInts(lengths, k) ensures InInts(b.con.length, k) {
      var v := AnyLength(a, k);
      assert Accepts(b, v);
    }
    IntsSubsetExact(lengths, b.con.length);
  }

  lemma ListElementsIncluded(a: Type, b: Type)
    requires WellFormed(a) && Core(a) && Solid(a) && Own(a).List? && b.List? && Included(a, b)
    ensures Included(Own(a).elem, b.elem)
  {
    if a.Refined? { ConstrainedBase(a); }
    SolidLengths(a);
    var min := ContainerLength(a).value.min.value;
    var k := if min < 1 then 1 else min;
    forall w | IsMember(Own(a).elem, w) ensures Accepts(b.elem, w) {
      ListOfOne(a, w, k);
      var v := Tuple(seq(k, _ => w));
      assert Accepts(b, v) && v.elems[0] == w;
    }
  }

  lemma ListNotTuple(a: Type, b: Type)
    requires WellFormed(a) && Core(a) && Solid(a) && Own(a).List? && b.Tuple?
    requires ContainerLength(a).value != IntBounds(Some(|b.elems|), Some(|b.elems|))
    ensures !Included(a, b)
  {
    if a.Refined? { ConstrainedBase(a); }
    var k := OtherLength(a, |b.elems|);
    SolidParts(a);
    var v := AnyLength(a, k);
    assert !Accepts(b, v);
  }

  lemma OtherLength(a: Type, n: nat) returns (k: nat)
    requires WellFormed(a) && Core(a) && Solid(a) && Own(a).List? && ContainerLength(a).Some?
    requires ContainerLength(a).value != IntBounds(Some(n), Some(n))
    ensures InInts(ContainerLength(a).value, k) && k != n
  {
    SolidLengths(a);
    var min := ContainerLength(a).value.min.value;
    k := if min == n then min + 1 else min;
  }

  lemma TupleElementsIncluded(a: Type, b: Type)
    requires WellFormed(a) && Core(a) && Solid(a) && Own(a).Tuple? && Included(a, b) && (b.List? || b.Tuple?)
    ensures b.Tuple? ==> |Own(a).elems| == |b.elems|
    ensures forall i :: 0 <= i < |Own(a).elems| ==> Included(Own(a).elems[i], if b.List? then b.elem else b.elems[i])
  {
    if a.Refined? { ConstrainedBase(a); }
    SolidParts(a);
    SolidLengths(a);
    var es := Own(a).elems;
    var v := AnyLength(a, |es|);
    assert Accepts(b, v);
    forall i, w | 0 <= i < |es| && IsMember(es[i], w) ensures Accepts(if b.List? then b.elem else b.elems[i], w) {
      var ws := TupleWith(es, i, w);
      BoundedMember(a, Tuple(ws), |es|);
      assert Accepts(b, Tuple(ws));
    }
  }

  /** A field of the left is declared on the right, takes no other value there, and is optional only if it is there. */
  lemma FieldIncluded(a: Type, b: Type, i: nat)
    requires WellFormed(a) && Core(a) && Solid(a) && Own(a).Object? && b.Object? && WellFormed(b) && Included(a, b)
    requires i < |Own(a).fields|
    ensures var (f, j) := (Own(a).fields[i], IndexOf(b.fields, Own(a).fields[i].name));
      j >= 0 && Included(f.typ, b.fields[j].typ) && (f.optional ==> b.fields[j].optional)
  {
    if a.Refined? { ConstrainedBase(a); }
    SolidParts(a);
    SolidLengths(a);
    var (fs, f) := (Own(a).fields, Own(a).fields[i]);
    var w :| IsMember(f.typ, w);
    FieldMember(a, b, i, w);
    var j := IndexOf(b.fields, f.name);
    forall w | IsMember(f.typ, w) ensures Accepts(b.fields[j].typ, w) { FieldMember(a, b, i, w); }
    if f.optional { FieldCanBeOmitted(a, b, i); }
  }

  lemma OptionalCounts(fs: seq<Field>, i: nat)
    requires i < |fs| && fs[i].optional
    ensures RequiredCount(fs) < |fs|
  {
    CountAround(fs, i, fs[i]);
    CountWithin(fs[..i] + fs[i + 1..]);
  }

  lemma LengthWithField(a: Type, i: nat) returns (k: nat)
    requires WellFormed(a) && Core(a) && Solid(a) && Own(a).Object? && i < |Own(a).fields| && ContainerLength(a).Some?
    ensures InInts(ContainerLength(a).value, k)
    ensures RequiredCount(Own(a).fields) + (if Own(a).fields[i].optional then 1 else 0) <= k <= |Own(a).fields|
  {
    if a.Refined? { ConstrainedBase(a); }
    SolidLengths(a);
    var (fs, lengths) := (Own(a).fields, ContainerLength(a).value);
    CountWithin(fs);
    if fs[i].optional { OptionalCounts(fs, i); }
    var least := RequiredCount(fs) + if fs[i].optional then 1 else 0;
    k := if lengths.min.value < least then least else lengths.min.value;
  }

  lemma FieldMember(a: Type, b: Type, i: nat, w: Type)
    requires WellFormed(a) && Core(a) && Solid(a) && Own(a).Object? && b.Object? && WellFormed(b) && Included(a, b)
    requires FieldsInhabited(Own(a).fields) && i < |Own(a).fields| && IsMember(Own(a).fields[i].typ, w)
    ensures var j := IndexOf(b.fields, Own(a).fields[i].name); j >= 0 && Accepts(b.fields[j].typ, w)
  {
    var fs := Own(a).fields;
    var k := LengthWithField(a, i);
    if a.Refined? { ConstrainedBase(a); }
    var vs, j := FieldGiven(fs, i, w, k);
    BoundedMember(a, Object(vs), k);
    assert Accepts(b, Object(vs));
    DeclaredAccepts(b, vs, j);
  }

  lemma DeclaredAccepts(b: Type, vs: seq<Field>, j: nat)
    requires b.Object? && SortedFields(vs) && j < |vs| && Accepts(b, Object(vs))
    ensures var i := IndexOf(b.fields, vs[j].name); i >= 0 && Accepts(b.fields[i].typ, vs[j].typ)
  {
    IndexOfOwnField(vs, j);
  }

  lemma FieldCanBeOmitted(a: Type, b: Type, i: nat)
    requires WellFormed(a) && Core(a) && Solid(a) && Own(a).Object? && b.Object? && Included(a, b)
    requires FieldsInhabited(Own(a).fields) && i < |Own(a).fields| && Own(a).fields[i].optional
    ensures var j := IndexOf(b.fields, Own(a).fields[i].name); j >= 0 ==> b.fields[j].optional
  {
    if a.Refined? { ConstrainedBase(a); }
    SolidLengths(a);
    var (fs, lengths) := (Own(a).fields, ContainerLength(a).value);
    OptionalCounts(fs, i);
    var k := lengths.min.value;
    var vs := FieldOmitted(fs, i, k);
    BoundedMember(a, Object(vs), k);
    assert IndexOf(vs, fs[i].name) < 0;
    assert Accepts(b, Object(vs)) && KeysFit(b.fields, vs);
  }

  /** What the right side requires, the left one requires. */
  lemma RequiredIncluded(a: Type, b: Type)
    requires WellFormed(a) && Core(a) && Solid(a) && Own(a).Object? && b.Object? && WellFormed(b) && Included(a, b)
    ensures RequiredIn(Own(a).fields, b.fields)
  {
    if a.Refined? { ConstrainedBase(a); }
    SolidParts(a);
    SolidLengths(a);
    var fs := Own(a).fields;
    var v := AnyLength(a, ContainerLength(a).value.min.value);
    assert Accepts(b, v) && Accepts(Own(a), v);
    forall j | 0 <= j < |b.fields| && !b.fields[j].optional
      ensures IndexOf(fs, b.fields[j].name) >= 0 && !fs[IndexOf(fs, b.fields[j].name)].optional
    {
      var i := IndexOf(fs, b.fields[j].name);
      var k := IndexOf(v.fields, b.fields[j].name);
      assert k >= 0 && v.fields[k].name == b.fields[j].name;
      FieldIncluded(a, b, i);
      SortedNamesDistinct(b.fields, j, IndexOf(b.fields, fs[i].name));
    }
  }

  /** A list of the one length of a tuple. */
  lemma FixedListIncluded(a: Type, b: Type)
    requires WellFormed(a) && Core(a) && Solid(a) && Own(a).List? && b.Tuple? && OneLength(a, |b.elems|) && Included(a, b)
    ensures forall i :: 0 <= i < |b.elems| ==> Included(Own(a).elem, b.elems[i])
  {
    if a.Refined? { ConstrainedBase(a); }
    forall i, w | 0 <= i < |b.elems| && IsMember(Own(a).elem, w) ensures Accepts(b.elems[i], w) {
      ListOfOne(a, w, |b.elems|);
      assert Accepts(b, Tuple(seq(|b.elems|, _ => w)));
    }
  }

  // ----- inclusion is taken part by part

  /** If every concrete value that the left type admits is one that the right type admits, so it is part by part. */
  lemma {:induction false} InclusionWithin(a: Type, b: Type)
    requires WellFormed(a) && WellFormed(b) && Solid(a) && Separate(a, b) && Included(a, b)
    ensures Within(a, b)
    decreases Size(a) + Size(b), 2, 0
  {
    SolidInhabited(a);
    if b.Any? || b.Never? || a.Any? || IsValue(a) {
      EdgesWithin(a, b);
    } else {
      LeftWithin(a, b);
    }
  }

  lemma EdgesWithin(a: Type, b: Type)
    requires WellFormed(a) && WellFormed(b) && Inhabited(a) && Included(a, b)
    requires b.Any? || b.Never? || a.Any? || IsValue(a)
    ensures Within(a, b)
  {
    if IsValue(a) {
      ValueIsOwnMember(a);
    } else if b.Never? {
      NothingInNever(a);
    } else {
      AnyIncluded(b);
    }
  }

  lemma LeftWithin(a: Type, b: Type)
    requires WellFormed(a) && WellFormed(b) && Solid(a) && Separate(a, b) && Included(a, b)
    requires !a.Any? && !a.Never? && !b.Any? && !b.Never? && Inhabited(a) && !IsValue(a)
    ensures Within(a, b)
    decreases Size(a) + Size(b), 1, 1
  {
    if a.Sum? {
      forall i | 0 <= i < |a.members| ensures Within(a.members[i], b) {
        MemberIncluded(a, b, i);
        InclusionWithin(a.members[i], b);
      }
    } else if a.Wrapper() {
      WrapperLeftIncluded(a, b);
      InclusionWithin(a.base, b);
    } else {
      RightWithin(a, b);
    }
  }

  lemma NothingInNever(a: Type)
    requires Inhabited(a)
    ensures !Included(a, Never)
  {
    var v :| IsMember(a, v);
    assert !Accepts(Never, v);
  }

  lemma RightWithin(a: Type, b: Type)
    requires WellFormed(a) && WellFormed(b) && Solid(a) && Separate(a, b) && Included(a, b)
    requires Core(a) && !a.Any? && !b.Any? && !b.Never? && Inhabited(a) && !IsValue(a)
    ensures Within(a, b)
    decreases Size(a) + Size(b), 1, 0
  {
    if b.Wrapper() {
      BaseIncluded(a, b);
      InclusionWithin(a, b.base);
    } else if b.Sum? {
      var i := OneMemberIncluded(a, b);
      InclusionWithin(a, b.members[i]);
    } else {
      if !Meets(a, b) { Apart(a, b); }
      ScalarsAndContainers(a);
      ScalarsAndContainers(b);
      if ContainerLength(a).None? {
        ScalarsExact(a, b);
      } else if b.Refined? {
        ConstrainedBase(b);
        BaseIncluded(a, b);
        InclusionWithin(a, b.base);
        LengthsIncluded(a, b);
      } else {
        PartsWithin(a, b);
      }
    }
  }

  lemma PartsWithin(a: Type, b: Type)
    requires WellFormed(a) && WellFormed(b) && Solid(a) && Included(a, b) && Core(a) && Core(b)
    requires ContainerLength(a).Some? && Container(b) && SeparateParts(a, b) && Meets(a, b)
    ensures WithinParts(a, b)
    decreases Size(a) + Size(b), 0, 1
  {
    if a.Refined? { ConstrainedBase(a); }
    SameShape(a, b);
    if Own(a).Object? {
      ObjectWithin(a, b);
    } else if Own(a).Tuple? {
      TupleWithin(a, b);
    } else if b.List? {
      ListElementsIncluded(a, b);
      InclusionWithin(Own(a).elem, b.elem);
    } else {
      if !OneLength(a, |b.elems|) { ListNotTuple(a, b); }
      FixedListIncluded(a, b);
      forall i | 0 <= i < |b.elems| ensures Within(Own(a).elem, b.elems[i]) { InclusionWithin(Own(a).elem, b.elems[i]); }
    }
  }

  lemma TupleWithin(a: Type, b: Type)
    requires WellFormed(a) && WellFormed(b) && Solid(a) && Included(a, b) && Core(a) && Core(b)
    requires ContainerLength(a).Some? && Own(a).Tuple? && (b.List? || b.Tuple?) && SeparateParts(a, b)
    ensures WithinParts(a, b)
    decreases Size(a) + Size(b), 0, 0
  {
    if a.Refined? { ConstrainedBase(a); }
    TupleElementsIncluded(a, b);
    var es := Own(a).elems;
    forall i | 0 <= i < |es| ensures Within(es[i], if b.List? then b.elem else b.elems[i]) {
      InclusionWithin(es[i], if b.List? then b.elem else b.elems[i]);
    }
  }

  lemma ObjectWithin(a: Type, b: Type)
    requires WellFormed(a) && WellFormed(b) && Solid(a) && Included(a, b) && Core(a) && Core(b)
    requires ContainerLength(a).Some? && Own(a).Object? && b.Object? && SeparateParts(a, b)
    ensures WithinParts(a, b)
    decreases Size(a) + Size(b), 0, 0
  {
    if a.Refined? { ConstrainedBase(a); }
    var (es, fs) := (Own(a).fields, b.fields);
    forall i | 0 <= i < |es|
      ensures var j := IndexOf(fs, es[i].name); j >= 0 && (es[i].optional ==> fs[j].optional)
    {
      FieldIncluded(a, b, i);
    }
    forall i, j | 0 <= i < |es| && 0 <= j < |fs| && es[i].name == fs[j].name ensures Within(es[i].typ, fs[j].typ) {
      FieldIncluded(a, b, i);
      SortedNamesDistinct(fs, j, IndexOf(fs, es[i].name));
      InclusionWithin(es[i].typ, fs[j].typ);
    }
    RequiredIncluded(a, b);
  }

  // ----- and back

  /** What is included part by part is included. */
  lemma {:induction false} WithinIncluded(a: Type, b: Type)
    requires WellFormed(a) && WellFormed(b) && Solid(a) && Within(a, b)
    ensures Included(a, b)
    decreases Size(a) + Size(b), 1, 1
  {
    if b.Any? {
    } else if IsValue(a) {
      ValueBelowIffAccepted(a, b);
      BelowIncluded(a, b);
    } else if a.Sum? {
      forall i | 0 <= i < |a.members| ensures Included(a.members[i], b) { WithinIncluded(a.members[i], b); }
      SumIncluded(a, b);
    } else if a.Wrapper() {
      WithinIncluded(a.base, b);
      WrapperIncluded(a, b);
    } else {
      RightIncluded(a, b);
    }
  }

  lemma RightIncluded(a: Type, b: Type)
    requires WellFormed(a) && WellFormed(b) && Solid(a) && Within(a, b)
    requires Core(a) && !a.Any? && !b.Any? && !b.Never? && !IsValue(a)
    ensures Included(a, b)
    decreases Size(a) + Size(b), 1, 0
  {
    if b.Wrapper() {
      WithinIncluded(a, b.base);
      IntoWrapper(a, b);
    } else if b.Sum? {
      var i :| 0 <= i < |b.members| && Within(a, b.members[i]);
      WithinIncluded(a, b.members[i]);
      IntoMember(a, b, i);
    } else {
      ScalarsAndContainers(a);
      if ContainerLength(a).None? {
        ScalarsExact(a, b);
        if Below(a, b) { BelowIncluded(a, b); }
      } else if b.Refined? {
        WithinIncluded(a, b.base);
        IntoLengths(a, b);
      } else {
        PartsIncluded(a, b);
      }
    }
  }

  lemma SumIncluded(a: Type, b: Type)
    requires a.Sum? && forall i :: 0 <= i < |a.members| ==> Included(a.members[i], b)
    ensures Included(a, b)
  {
    forall v | IsMember(a, v) ensures Accepts(b, v) {
      var i :| 0 <= i < |a.members| && Accepts(a.members[i], LiteralBase(v));
      AcceptsLooksThroughRefinements(a.members[i], v);
      assert IsMember(a.members[i], v);
    }
  }

  lemma WrapperIncluded(a: Type, b: Type)
    requires a.Wrapper() && Included(a.base, b)
    ensures Included(a, b)
  {
    forall v | IsMember(a, v) ensures Accepts(b, v) {
      AcceptsLooksThroughRefinements(a.base, v);
      assert IsMember(a.base, v);
    }
  }

  lemma IntoWrapper(a: Type, b: Type)
    requires b.Wrapper() && Included(a, b.base)
    ensures Included(a, b)
  {
    forall v | IsMember(a, v) ensures Accepts(b, v) { AcceptsLooksThroughRefinements(b.base, v); }
  }

  lemma IntoMember(a: Type, b: Type, i: nat)
    requires b.Sum? && i < |b.members| && Included(a, b.members[i])
    ensures Included(a, b)
  {
    forall v | IsMember(a, v) ensures Accepts(b, v) { AcceptsLooksThroughRefinements(b.members[i], v); }
  }

  lemma IntoLengths(a: Type, b: Type)
    requires WellFormed(a) && Core(a) && ContainerLength(a).Some? && b.Refined? && LengthOnly(b.con) && Included(a, b.base)
    requires IntsSubset(ContainerLength(a).value, b.con.length)
    ensures Included(a, b)
  {
    forall v | IsMember(a, v) ensures Accepts(b, v) {
      MemberLength(a, v);
      AcceptsLooksThroughRefinements(b.base, v);
    }
  }

  /** A value of a container has a length within the bounds read off its shape. */
  lemma MemberLength(a: Type, v: Type)
    requires WellFormed(a) && Core(a) && ContainerLength(a).Some? && IsMember(a, v)
    ensures var s := SubjectOf(LiteralBase(v)); LengthOf(s).Some? && InInts(ContainerLength(a).value, LengthOf(s).value)
  {
    if a.Refined? { ConstrainedBase(a); }
    var (base, w) := (Own(a), LiteralBase(v));
    AcceptsLooksThroughRefinements(base, v);
    assert Accepts(base, w);
    if base.Object? {
      BaseWellFormed(v);
      GivenCount(base.fields, w.fields);
    }
  }

  lemma {:induction false} BaseWellFormed(v: Type)
    requires WellFormed(v)
    ensures WellFormed(LiteralBase(v))
  {
    if v.Refined? && Literal(v).None? { BaseWellFormed(v.base); }
  }

  lemma {:induction false} BaseIsValue(v: Type)
    requires IsValue(v)
    ensures IsValue(LiteralBase(v))
  {
    if v.Refined? && Literal(v).None? { BaseIsValue(v.base); }
  }

  /** At least the required fields and at most the declared ones. */
  lemma GivenCount(fs: seq<Field>, vs: seq<Field>)
    requires SortedFields(fs) && SortedFields(vs) && KeysFit(fs, vs)
    ensures RequiredCount(fs) <= |vs| <= |fs|
  {
    NameCounts(fs);
    NameCounts(vs);
    forall n | n in NamesOf(vs) ensures n in NamesOf(fs) {
      var j :| 0 <= j < |vs| && vs[j].name == n;
      NameGiven(fs, n);
    }
    forall n | n in RequiredNames(fs) ensures n in NamesOf(vs) {
      var i :| 0 <= i < |fs| && !fs[i].optional && fs[i].name == n;
      NameGiven(vs, n);
    }
    SubsetCardinality(NamesOf(vs), NamesOf(fs));
    SubsetCardinality(RequiredNames(fs), NamesOf(vs));
  }

  lemma NameGiven(vs: seq<Field>, name: string)
    ensures name in NamesOf(vs) <==> IndexOf(vs, name) >= 0
  {
    if IndexOf(vs, name) >= 0 { assert vs[IndexOf(vs, name)].name in NamesOf(vs); }
  }

  /** The bare form of a value of a container: a value of its shape. */
  lemma BareMember(a: Type, v: Type)
    requires WellFormed(a) && Core(a) && ContainerLength(a).Some? && IsMember(a, v)
    ensures var w := LiteralBase(v); IsMember(Own(a), w) && IsMember(a, w) && (w.Tuple? || w.Object?)
  {
    if a.Refined? { ConstrainedBase(a); }
    BaseWellFormed(v);
    BaseIsValue(v);
    AcceptsLooksThroughRefinements(Own(a), v);
    AcceptsLooksThroughRefinements(a, v);
  }

  lemma {:induction false} PartsIncluded(a: Type, b: Type)
    requires WellFormed(a) && WellFormed(b) && Solid(a) && Core(a) && ContainerLength(a).Some? && WithinParts(a, b)
    ensures Included(a, b)
    decreases Size(a) + Size(b), 0
  {
    if a.Refined? { ConstrainedBase(a); }
    var base := Own(a);
    if base.Object? {
      forall i, j | 0 <= i < |base.fields| && 0 <= j < |b.fields| && base.fields[i].name == b.fields[j].name
        ensures Included(base.fields[i].typ, b.fields[j].typ)
      {
        WithinIncluded(base.fields[i].typ, b.fields[j].typ);
      }
      ObjectsIncluded(a, b);
    } else if base.Tuple? {
      forall i | 0 <= i < |base.elems| ensures Included(base.elems[i], if b.List? then b.elem else b.elems[i]) {
        WithinIncluded(base.elems[i], if b.List? then b.elem else b.elems[i]);
      }
      TuplesIncluded(a, b);
    } else if b.List? {
      WithinIncluded(base.elem, b.elem);
      ListsIncluded(a, b);
    } else {
      forall i | 0 <= i < |b.elems| ensures Included(base.elem, b.elems[i]) { WithinIncluded(base.elem, b.elems[i]); }
      ListsIncluded(a, b);
    }
  }

  lemma ListsIncluded(a: Type, b: Type)
    requires WellFormed(a) && Core(a) && Own(a).List? && ContainerLength(a).Some? && (b.List? || b.Tuple?)
    requires b.List? ==> Included(Own(a).elem, b.elem)
    requires b.Tuple? ==> OneLength(a, |b.elems|) && forall i :: 0 <= i < |b.elems| ==> Included(Own(a).elem, b.elems[i])
    ensures Included(a, b)
  {
    forall v | IsMember(a, v) ensures Accepts(b, v) {
      BareMember(a, v);
      MemberLength(a, v);
      var ws := LiteralBase(v).elems;
      forall i | 0 <= i < |ws| ensures Accepts(if b.List? then b.elem else b.elems[i], ws[i]) {
        assert IsMember(Own(a).elem, ws[i]);
      }
    }
  }

  lemma TuplesIncluded(a: Type, b: Type)
    requires WellFormed(a) && Core(a) && Own(a).Tuple? && ContainerLength(a).Some? && (b.List? || b.Tuple?)
    requires b.Tuple? ==> |b.elems| == |Own(a).elems|
    requires forall i :: 0 <= i < |Own(a).elems| ==> Included(Own(a).elems[i], if b.List? then b.elem else b.elems[i])
    ensures Included(a, b)
  {
    forall v | IsMember(a, v) ensures Accepts(b, v) {
      BareMember(a, v);
      var ws := LiteralBase(v).elems;
      forall i | 0 <= i < |ws| ensures Accepts(if b.List? then b.elem else b.elems[i], ws[i]) {
        assert IsMember(Own(a).elems[i], ws[i]);
      }
    }
  }

  lemma ObjectsIncluded(a: Type, b: Type)
    requires WellFormed(a) && WellFormed(b) && Core(a) && Own(a).Object? && b.Object? && ContainerLength(a).Some?
    requires Declared(Own(a).fields, b.fields) && RequiredIn(Own(a).fields, b.fields)
    requires forall i, j :: 0 <= i < |Own(a).fields| && 0 <= j < |b.fields| && Own(a).fields[i].name == b.fields[j].name ==>
      Included(Own(a).fields[i].typ, b.fields[j].typ)
    ensures Included(a, b)
  {
    forall v | IsMember(a, v) ensures Accepts(b, v) { ObjectValueIncluded(a, b, v); }
  }

  lemma ObjectValueIncluded(a: Type, b: Type, v: Type)
    requires WellFormed(a) && WellFormed(b) && Core(a) && Own(a).Object? && b.Object? && ContainerLength(a).Some?
    requires Declared(Own(a).fields, b.fields) && RequiredIn(Own(a).fields, b.fields) && IsMember(a, v)
    requires forall i, j :: 0 <= i < |Own(a).fields| && 0 <= j < |b.fields| && Own(a).fields[i].name == b.fields[j].name ==>
      Included(Own(a).fields[i].typ, b.fields[j].typ)
    ensures Accepts(b, v)
  {
    if a.Refined? { ConstrainedBase(a); }
    BareMember(a, v);
    ObjectMemberIncluded(Own(a).fields, b.fields, LiteralBase(v).fields);
    AcceptsLooksThroughRefinements(b, v);
  }

  lemma ObjectMemberIncluded(es: seq<Field>, fs: seq<Field>, vs: seq<Field>)
    requires SortedFields(es) && SortedFields(fs) && Declared(es, fs) && RequiredIn(es, fs)
    requires forall i, j :: 0 <= i < |es| && 0 <= j < |fs| && es[i].name == fs[j].name ==> Included(es[i].typ, fs[j].typ)
    requires IsMember(Object(es), Object(vs))
    ensures Accepts(Object(fs), Object(vs))
  {
    assert FieldsAccept(es, vs);
    forall k | 0 <= k < |vs| ensures IndexOf(fs, vs[k].name) >= 0 {
      assert es[IndexOf(es, vs[k].name)].name == vs[k].name;
    }
    forall j | 0 <= j < |fs| && !fs[j].optional ensures IndexOf(vs, fs[j].name) >= 0 {
      var i := IndexOf(es, fs[j].name);
      assert !es[i].optional && es[i].name == fs[j].name;
    }
    forall j | 0 <= j < |fs| && IndexOf(vs, fs[j].name) >= 0 ensures Accepts(fs[j].typ, vs[IndexOf(vs, fs[j].name)].typ) {
      GivenAccepted(es, fs, vs, j);
    }
    assert FieldsAccept(fs, vs);
  }

  lemma GivenAccepted(es: seq<Field>, fs: seq<Field>, vs: seq<Field>, j: nat)
    requires SortedFields(es) && FieldsAccept(es, vs) && j < |fs| && IndexOf(vs, fs[j].name) >= 0
    requires forall i :: 0 <= i < |es| && es[i].name == fs[j].name ==> Included(es[i].typ, fs[j].typ)
    requires IsMember(Object(es), Object(vs))
    ensures Accepts(fs[j].typ, vs[IndexOf(vs, fs[j].name)].typ)
  {
    var k := IndexOf(vs, fs[j].name);
    var i := IndexOf(es, vs[k].name);
    assert i >= 0 && es[i].name == fs[j].name;
    assert IsMember(es[i].typ, vs[k].typ);
  }

  // ----- where the order agrees

  lemma ShapeBelow(a: Type, b: Type)
    requires WellFormed(a) && Core(a) && Core(b) && ContainerLength(a).Some? && Container(b)
    ensures Below(a, b) <==> ShapeSubtype(false, Own(a), b)
  {
    if a.Refined? {
      ConstrainedBase(a);
      UnfoldRefinedLeft(a, b);
      UnfoldShape(a.base, b);
    } else {
      UnfoldShape(a, b);
    }
  }

  /** Where the inclusion holds part by part, the order says so exactly if neither of the two places is met. */
  lemma {:induction false} WithinSeen(a: Type, b: Type)
    requires WellFormed(a) && WellFormed(b) && Solid(a) && Separate(a, b) && Within(a, b)
    ensures Below(a, b) <==> Seen(a, b)
    decreases Size(a) + Size(b), 2, 2
  {
    if b.Any? {
    } else if IsValue(a) {
      ValueBelowIffAccepted(a, b);
    } else {
      LeftSeen(a, b);
    }
  }

  lemma LeftSeen(a: Type, b: Type)
    requires WellFormed(a) && WellFormed(b) && Solid(a) && Separate(a, b) && Within(a, b)
    requires !a.Any? && !a.Never? && !b.Any? && !b.Never? && !IsValue(a)
    ensures Below(a, b) <==> Seen(a, b)
    decreases Size(a) + Size(b), 2, 1
  {
    if a.Sum? {
      forall i | 0 <= i < |a.members| ensures Below(a.members[i], b) <==> Seen(a.members[i], b) {
        WithinSeen(a.members[i], b);
      }
    } else if a.Wrapper() {
      WithinSeen(a.base, b);
      UnfoldWrapperLeft(a, b);
    } else {
      RightSeen(a, b);
    }
  }

  lemma RightSeen(a: Type, b: Type)
    requires WellFormed(a) && WellFormed(b) && Solid(a) && Separate(a, b) && Within(a, b)
    requires Core(a) && !a.Any? && !b.Any? && !b.Never? && !IsValue(a)
    ensures Below(a, b) <==> Seen(a, b)
    decreases Size(a) + Size(b), 2, 0
  {
    if b.Wrapper() {
      WithinSeen(a, b.base);
      BelowWrapper(a, b);
    } else if b.Sum? {
      UnionSeen(a, b);
    } else if ContainerLength(a).Some? {
      ContainersSeen(a, b);
    } else {
      WithinIncluded(a, b);
      ScalarsAndContainers(a);
      ScalarsExact(a, b);
    }
  }

  lemma UnionSeen(a: Type, b: Type)
    requires WellFormed(a) && WellFormed(b) && Solid(a) && Separate(a, b) && Within(a, b)
    requires Core(a) && !a.Any? && b.Sum? && !IsValue(a)
    ensures Below(a, b) <==> Seen(a, b)
    decreases Size(a) + Size(b), 1
  {
    SolidInhabited(a);
    WithinIncluded(a, b);
    var i := OneMemberIncluded(a, b);
    InclusionWithin(a, b.members[i]);
    WithinSeen(a, b.members[i]);
    forall j | 0 <= j < |b.members| && Meets(a, b.members[j]) ensures j == i { SameMember(a, b.members, i, j); }
    forall j | 0 <= j < |b.members| && Below(a, b.members[j]) ensures j == i { BelowMeets(a, b, i, j); }
    UnionDecided(a, b, i);
  }

  lemma UnionDecided(a: Type, b: Type, i: nat)
    requires Core(a) && !a.Any? && b.Sum? && !IsValue(a) && i < |b.members| && Meets(a, b.members[i])
    requires WellFormed(b) && (Below(a, b.members[i]) <==> Seen(a, b.members[i]))
    requires forall j :: 0 <= j < |b.members| && Meets(a, b.members[j]) ==> j == i
    requires forall j :: 0 <= j < |b.members| && Below(a, b.members[j]) ==> j == i
    ensures Below(a, b) <==> Seen(a, b)
  {
    if Below(a, b.members[i]) { BelowMember(a, b, i); }
  }

  lemma BelowMeets(a: Type, b: Type, i: nat, j: nat)
    requires WellFormed(a) && WellFormed(b) && b.Sum? && Inhabited(a) && OneMeets(a, b.members)
    requires i < |b.members| && j < |b.members| && Meets(a, b.members[i]) && Below(a, b.members[j])
    ensures i == j
  {
    BelowIncluded(a, b.members[j]);
    if !Meets(a, b.members[j]) { Apart(a, b.members[j]); }
    SameMember(a, b.members, i, j);
  }

  lemma ContainersSeen(a: Type, b: Type)
    requires WellFormed(a) && WellFormed(b) && Solid(a) && Separate(a, b) && Within(a, b) && Core(a) && Core(b)
    requires ContainerLength(a).Some? && !b.Any? && !b.Sum? && !IsValue(a)
    ensures Below(a, b) <==> Seen(a, b)
    decreases Size(a) + Size(b), 1
  {
    ContainersMeet(a, b);
    if b.Refined? {
      ConstrainedBase(b);
      WithinSeen(a, b.base);
      UnfoldLength(a, b);
    } else {
      PartsSeen(a, b);
    }
  }

  lemma ContainersMeet(a: Type, b: Type)
    requires WellFormed(a) && WellFormed(b) && Solid(a) && Within(a, b)
    ensures Meets(a, b)
  {
    SolidInhabited(a);
    WithinIncluded(a, b);
    if !Meets(a, b) { Apart(a, b); }
  }

  lemma PartsSeen(a: Type, b: Type)
    requires WellFormed(a) && WellFormed(b) && Solid(a) && Core(a) && Core(b) && ContainerLength(a).Some?
    requires SeparateParts(a, b) && WithinParts(a, b)
    ensures Below(a, b) <==> SeenParts(a, b)
    decreases Size(a) + Size(b), 0, 1
  {
    if a.Refined? { ConstrainedBase(a); }
    ShapeBelow(a, b);
    var base := Own(a);
    if base.Object? {
      FieldsSeen(a, b);
    } else if base.Tuple? {
      forall i | 0 <= i < |base.elems|
        ensures var f := if b.List? then b.elem else b.elems[i]; Below(base.elems[i], f) <==> Seen(base.elems[i], f)
      {
        WithinSeen(base.elems[i], if b.List? then b.elem else b.elems[i]);
      }
    } else if b.List? {
      WithinSeen(base.elem, b.elem);
    }
  }

  lemma FieldsSeen(a: Type, b: Type)
    requires WellFormed(a) && WellFormed(b) && Solid(a) && Core(a) && Core(b) && ContainerLength(a).Some?
    requires Own(a).Object? && b.Object? && SeparateParts(a, b) && WithinParts(a, b)
    ensures Below(a, b) <==> SeenParts(a, b)
    decreases Size(a) + Size(b), 0, 0
  {
    if a.Refined? { ConstrainedBase(a); }
    var (es, fs) := (Own(a).fields, b.fields);
    forall i, j | 0 <= i < |es| && 0 <= j < |fs| && es[i].name == fs[j].name
      ensures Below(es[i].typ, fs[j].typ) <==> Seen(es[i].typ, fs[j].typ)
    {
      WithinSeen(es[i].typ, fs[j].typ);
    }
    ShapeBelow(a, b);
    ObjectShape(Own(a), b);
    FieldsBelowSeen(es, fs);
  }

  lemma FieldsBelowSeen(es: seq<Field>, fs: seq<Field>)
    requires SortedFields(fs) && Declared(es, fs) && RequiredIn(es, fs)
    requires forall i, j :: 0 <= i < |es| && 0 <= j < |fs| && es[i].name == fs[j].name ==>
      (Below(es[i].typ, fs[j].typ) <==> Seen(es[i].typ, fs[j].typ))
    ensures FieldsBelow(es, fs) <==>
      forall i, j :: 0 <= i < |es| && 0 <= j < |fs| && es[i].name == fs[j].name ==> Seen(es[i].typ, fs[j].typ)
  {
    forall i, j | 0 <= i < |es| && 0 <= j < |fs| && es[i].name == fs[j].name ensures j == IndexOf(fs, es[i].name) {
      SortedNamesDistinct(fs, j, IndexOf(fs, es[i].name));
    }
    DeclaredBelow(es, fs);
  }

  lemma DeclaredBelow(es: seq<Field>, fs: seq<Field>)
    requires Declared(es, fs) && RequiredIn(es, fs)
    requires forall i, j :: 0 <= i < |es| && 0 <= j < |fs| && es[i].name == fs[j].name ==> j == IndexOf(fs, es[i].name)
    ensures FieldsBelow(es, fs) <==>
      forall i, j :: 0 <= i < |es| && 0 <= j < |fs| && es[i].name == fs[j].name ==> Below(es[i].typ, fs[j].typ)
  {
    if FieldsBelow(es, fs) {
      forall i, j | 0 <= i < |es| && 0 <= j < |fs| && es[i].name == fs[j].name ensures Below(es[i].typ, fs[j].typ) {
        assert FieldBelow(es[i], fs);
      }
    }
    if forall i, j :: 0 <= i < |es| && 0 <= j < |fs| && es[i].name == fs[j].name ==> Below(es[i].typ, fs[j].typ) {
      forall i | 0 <= i < |es| ensures FieldBelow(es[i], fs) {
        assert fs[IndexOf(fs, es[i].name)].name == es[i].name;
      }
    }
  }

  // ----- the theorems

  /** Inclusion of the concrete values is inclusion part by part. */
  lemma WithinExact(a: Type, b: Type)
    requires WellFormed(a) && WellFormed(b) && Solid(a) && Separate(a, b)
    ensures Within(a, b) <==> Included(a, b)
  {
    if Within(a, b) { WithinIncluded(a, b); }
    if Included(a, b) { InclusionWithin(a, b); }
  }

  /** The order is inclusion of the concrete values exactly unless an inclusion leads through one of the two places. */
  lemma BelowExact(a: Type, b: Type)
    requires WellFormed(a) && WellFormed(b) && Solid(a) && Separate(a, b)
    ensures (Below(a, b) <==> Included(a, b)) <==> !(Within(a, b) && !Seen(a, b))
  {
    WithinExact(a, b);
    if Below(a, b) { BelowIncluded(a, b); }
    if Within(a, b) { WithinSeen(a, b); }
  }

  /** In particular wherever neither is met. */
  lemma BelowIsInclusion(a: Type, b: Type)
    requires WellFormed(a) && WellFormed(b) && Solid(a) && Separate(a, b) && Seen(a, b)
    ensures Below(a, b) <==> Included(a, b)
  {
    BelowExact(a, b);
  }
}
