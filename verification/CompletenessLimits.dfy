/** Where the order is inclusion without further ado, and the inclusions of containers and unions that it misses
  * (internal/compiled/order.go:48-158). */
module CompletenessLimits {
  import opened Wrappers
  import opened Atoms
  import opened Constraints
  import opened Types
  import opened Order
  import opened OrderLaws
  import opened Transitivity
  import opened Soundness
  import opened NormalForms
  import opened NormalFormLaws
  import opened Emptiness
  import opened ScalarCompleteness
  import opened Completeness

  // ----- no unions, no constraints

  /** Scalars, literals, `any`, lists, tuples and objects, with names and metadata anywhere. */
  predicate Basic(t: Type) {
    match t
    case Never => false
    case List(e) => Basic(e)
    case Tuple(es) => forall i :: 0 <= i < |es| ==> Basic(es[i])
    case Object(fs) => forall i :: 0 <= i < |fs| ==> Basic(fs[i].typ)
    case Sum(_) => false
    case Refined(b, c, _, _) => c == UNCONSTRAINED && Basic(b)
    case _ => true
  }

  lemma {:induction false} BasicSolid(t: Type)
    requires Basic(t)
    ensures Solid(t)
    decreases t
  {
    match t
    case List(e) => BasicSolid(e);
    case Tuple(es) => forall i | 0 <= i < |es| ensures Solid(es[i]) { BasicSolid(es[i]); }
    case Object(fs) => forall i | 0 <= i < |fs| ensures Solid(fs[i].typ) { BasicSolid(fs[i].typ); }
    case Refined(b, _, _, _) => BasicSolid(b);
    case _ =>
  }

  ghost predicate Both(a: Type, b: Type) {
    Separate(a, b) && Seen(a, b)
  }

  lemma {:induction false} BasicSeparateSeen(a: Type, b: Type)
    requires Basic(a) && Basic(b)
    ensures Separate(a, b) && Seen(a, b)
    decreases Size(a) + Size(b), 1
  {
    if a.Any? || b.Any? || IsValue(a) {
    } else if a.Wrapper() {
      BasicSeparateSeen(a.base, b);
    } else if b.Wrapper() {
      BasicSeparateSeen(a, b.base);
    } else if ContainerLength(a).Some? {
      BasicParts(a, b);
    }
  }

  lemma BasicParts(a: Type, b: Type)
    requires Basic(a) && Basic(b) && ContainerLength(a).Some? && !a.Refined? && !b.Refined?
    ensures SeparateParts(a, b) && SeenParts(a, b)
    decreases Size(a) + Size(b), 0
  {
    if a.List? && b.List? {
      BasicSeparateSeen(a.elem, b.elem);
    } else if a.List? && b.Tuple? {
      forall i | 0 <= i < |b.elems| ensures Both(a.elem, b.elems[i]) { BasicSeparateSeen(a.elem, b.elems[i]); }
    } else if a.Tuple? && b.List? {
      forall i | 0 <= i < |a.elems| ensures Both(a.elems[i], b.elem) { BasicSeparateSeen(a.elems[i], b.elem); }
    } else if a.Tuple? && b.Tuple? && |a.elems| == |b.elems| {
      forall i | 0 <= i < |a.elems| ensures Both(a.elems[i], b.elems[i]) { BasicSeparateSeen(a.elems[i], b.elems[i]); }
    } else if a.Object? && b.Object? {
      forall i, j | 0 <= i < |a.fields| && 0 <= j < |b.fields| ensures Both(a.fields[i].typ, b.fields[j].typ) {
        BasicSeparateSeen(a.fields[i].typ, b.fields[j].typ);
      }
    }
  }

  /** Between such types the order is inclusion of the concrete values, with no exception. */
  lemma BasicExact(a: Type, b: Type)
    requires WellFormed(a) && WellFormed(b) && Basic(a) && Basic(b)
    ensures Below(a, b) <==> Included(a, b)
  {
    BasicSolid(a);
    BasicSeparateSeen(a, b);
    BelowIsInclusion(a, b);
  }

  // ----- scalar refinements

  /** A constrained scalar type has a value exactly when its bounds do not cross. */
  lemma HasAtomsExact(t: Type)
    requires WellFormed(t) && t.Constrained() && ScalarBase(t.base)
    ensures Inhabited(t) <==> HasAtoms(t)
  {
    if HasAtoms(t) {
      AtomWitness(t);
    } else {
      forall v ensures !IsMember(t, v) { NoAtom(t, v); }
    }
  }

  lemma NoAtom(t: Type, v: Type)
    requires WellFormed(t) && t.Constrained() && ScalarBase(t.base) && !HasAtoms(t)
    ensures !IsMember(t, v)
  {
    if IsMember(t, v) {
      ScalarMember(t, v);
      var x := LiteralBase(v).atom;
      if x.Numeric() { RealsMembersHold(t, x); }
    }
  }

  lemma RealsMembersHold(t: Type, x: Atom)
    requires WellFormed(t) && t.Constrained() && x.Numeric()
    ensures t.base.Real? && t.con.enum.None? && Accepts(t, Lit(x)) ==> InReals(Interval(t.con), NumVal(x))
  {
    if t.base.Real? && t.con.enum.None? { IntervalMeaning(t.con, NumVal(x)); }
  }

  // ----- containers with tight bounds

  function OnlyRequired(fs: seq<Field>): seq<Field> {
    if fs == [] then []
    else OnlyRequired(fs[..|fs| - 1]) + if fs[|fs| - 1].optional then [] else [fs[|fs| - 1]]
  }

  function AllGiven(fs: seq<Field>): (gs: seq<Field>)
    ensures |gs| == |fs| && forall i :: 0 <= i < |fs| ==> gs[i] == fs[i].(optional := false)
  {
    seq(|fs|, i requires 0 <= i < |fs| => fs[i].(optional := false))
  }

  /** The bounds leave a list one length, or fix for every optional field whether it is given. */
  predicate Tight(a: Type) {
    a.Constrained() && ContainerLength(a).Some? &&
    var l := ContainerLength(a).value;
    l.max.Some? && l.min.value <= l.max.value &&
    match a.base
    case List(_) => 0 <= l.min.value == l.max.value
    case Object(fs) => l.max.value == RequiredCount(fs) || l.min.value == |fs|
    case _ => false
  }

  /** The container without bounds that has the same values. */
  function Refit(a: Type): Type
    requires Tight(a)
  {
    var l := ContainerLength(a).value;
    match a.base
    case List(e) => Tuple(seq(l.max.value, _ => e))
    case Object(fs) => if l.max.value == RequiredCount(fs) then Object(OnlyRequired(fs)) else Object(AllGiven(fs))
  }

  lemma {:induction false} OnlyRequiredMembers(fs: seq<Field>, f: Field)
    ensures f in OnlyRequired(fs) <==> f in fs && !f.optional
  {
    if fs != [] {
      OnlyRequiredMembers(fs[..|fs| - 1], f);
      assert fs == fs[..|fs| - 1] + [fs[|fs| - 1]];
    }
  }

  lemma {:induction false} OnlyRequiredSorted(fs: seq<Field>)
    requires SortedFields(fs)
    ensures SortedFields(OnlyRequired(fs)) && |OnlyRequired(fs)| == RequiredCount(fs)
  {
    if fs != [] {
      var (init, last) := (fs[..|fs| - 1], fs[|fs| - 1]);
      OnlyRequiredSorted(init);
      var kept := OnlyRequired(init);
      forall i | 0 <= i < |kept| ensures CompareStrings(kept[i].name, last.name) < 0 {
        OnlyRequiredMembers(init, kept[i]);
        var k :| 0 <= k < |init| && init[k] == kept[i];
        assert CompareStrings(fs[k].name, fs[|init|].name) < 0;
      }
    }
  }

  /** No more fields than are required: exactly the required ones are given. */
  lemma FewestFields(fs: seq<Field>, vs: seq<Field>)
    requires SortedFields(fs) && SortedFields(vs) && KeysFit(fs, vs) && |vs| <= RequiredCount(fs)
    ensures NamesOf(vs) == RequiredNames(fs)
  {
    NameCounts(fs);
    NameCounts(vs);
    forall n | n in RequiredNames(fs) ensures n in NamesOf(vs) {
      var i :| 0 <= i < |fs| && !fs[i].optional && fs[i].name == n;
      assert vs[IndexOf(vs, fs[i].name)].name == n;
    }
    SubsetCardinality(RequiredNames(fs), NamesOf(vs));
  }

  /** As many fields as are declared: all are given. */
  lemma AllFields(fs: seq<Field>, vs: seq<Field>)
    requires SortedFields(fs) && SortedFields(vs) && KeysFit(fs, vs) && |vs| >= |fs|
    ensures NamesOf(vs) == NamesOf(fs)
  {
    NameCounts(fs);
    NameCounts(vs);
    forall n | n in NamesOf(vs) ensures n in NamesOf(fs) {
      var j :| 0 <= j < |vs| && vs[j].name == n;
      assert fs[IndexOf(fs, vs[j].name)].name == n;
    }
    SubsetCardinality(NamesOf(vs), NamesOf(fs));
  }

  lemma RequiredField(fs: seq<Field>, i: nat) returns (k: nat)
    requires i < |fs| && !fs[i].optional
    ensures k < |OnlyRequired(fs)| && OnlyRequired(fs)[k] == fs[i]
  {
    OnlyRequiredMembers(fs, fs[i]);
    k :| 0 <= k < |OnlyRequired(fs)| && OnlyRequired(fs)[k] == fs[i];
  }

  lemma FromRequired(fs: seq<Field>, k: nat) returns (i: nat)
    requires k < |OnlyRequired(fs)|
    ensures i < |fs| && !fs[i].optional && OnlyRequired(fs)[k] == fs[i]
  {
    OnlyRequiredMembers(fs, OnlyRequired(fs)[k]);
    i :| 0 <= i < |fs| && fs[i] == OnlyRequired(fs)[k];
  }

  lemma FewestAccepted(fs: seq<Field>, vs: seq<Field>)
    requires SortedFields(fs) && SortedFields(vs)
    ensures FieldsAccept(fs, vs) && |vs| <= RequiredCount(fs) <==> FieldsAccept(OnlyRequired(fs), vs)
  {
    var gs := OnlyRequired(fs);
    OnlyRequiredSorted(fs);
    if FieldsAccept(fs, vs) && |vs| <= RequiredCount(fs) { FewestToRequired(fs, vs); }
    if FieldsAccept(gs, vs) { RequiredToFewest(fs, vs); }
  }

  lemma FewestToRequired(fs: seq<Field>, vs: seq<Field>)
    requires SortedFields(fs) && SortedFields(vs) && FieldsAccept(fs, vs) && |vs| <= RequiredCount(fs)
    ensures FieldsAccept(OnlyRequired(fs), vs)
  {
    var gs := OnlyRequired(fs);
    FewestFields(fs, vs);
    forall j | 0 <= j < |vs| ensures IndexOf(gs, vs[j].name) >= 0 {
      assert vs[j].name in NamesOf(vs);
      var i :| 0 <= i < |fs| && !fs[i].optional && fs[i].name == vs[j].name;
      var k := RequiredField(fs, i);
    }
    forall k | 0 <= k < |gs|
      ensures IndexOf(vs, gs[k].name) >= 0 && Accepts(gs[k].typ, vs[IndexOf(vs, gs[k].name)].typ)
    {
      var i := FromRequired(fs, k);
    }
  }

  lemma RequiredToFewest(fs: seq<Field>, vs: seq<Field>)
    requires SortedFields(fs) && SortedFields(vs) && FieldsAccept(OnlyRequired(fs), vs)
    ensures FieldsAccept(fs, vs) && |vs| <= RequiredCount(fs)
  {
    var gs := OnlyRequired(fs);
    OnlyRequiredSorted(fs);
    NameCounts(gs);
    NameCounts(vs);
    forall j | 0 <= j < |vs| ensures IndexOf(fs, vs[j].name) >= 0 && vs[j].name in NamesOf(gs) {
      var i := FromRequired(fs, IndexOf(gs, vs[j].name));
      assert fs[i].name == vs[j].name;
      NameGiven(gs, vs[j].name);
    }
    SubsetCardinality(NamesOf(vs), NamesOf(gs));
    forall i | 0 <= i < |fs| && IndexOf(vs, fs[i].name) >= 0
      ensures Accepts(fs[i].typ, vs[IndexOf(vs, fs[i].name)].typ)
    {
      var j := IndexOf(vs, fs[i].name);
      var k := IndexOf(gs, vs[j].name);
      var own := FromRequired(fs, k);
      SortedNamesDistinct(fs, i, own);
    }
    forall i | 0 <= i < |fs| && !fs[i].optional ensures IndexOf(vs, fs[i].name) >= 0 {
      var k := RequiredField(fs, i);
      assert !gs[k].optional;
    }
  }

  lemma AllAccepted(fs: seq<Field>, vs: seq<Field>)
    requires SortedFields(fs) && SortedFields(vs)
    ensures FieldsAccept(fs, vs) && |vs| >= |fs| <==> FieldsAccept(AllGiven(fs), vs)
  {
    if FieldsAccept(fs, vs) && |vs| >= |fs| { AllToGiven(fs, vs); }
    if FieldsAccept(AllGiven(fs), vs) { GivenToAll(fs, vs); }
  }

  lemma AllToGiven(fs: seq<Field>, vs: seq<Field>)
    requires SortedFields(fs) && SortedFields(vs) && FieldsAccept(fs, vs) && |vs| >= |fs|
    ensures FieldsAccept(AllGiven(fs), vs)
  {
    var gs := AllGiven(fs);
    AllFields(fs, vs);
    forall j | 0 <= j < |vs| ensures IndexOf(gs, vs[j].name) >= 0 { SameIndex(fs, vs[j].name); }
    forall i | 0 <= i < |gs|
      ensures IndexOf(vs, gs[i].name) >= 0 && Accepts(gs[i].typ, vs[IndexOf(vs, gs[i].name)].typ)
    {
      assert fs[i].name in NamesOf(fs);
      NameGiven(vs, fs[i].name);
    }
  }

  lemma GivenToAll(fs: seq<Field>, vs: seq<Field>)
    requires SortedFields(fs) && SortedFields(vs) && FieldsAccept(AllGiven(fs), vs)
    ensures FieldsAccept(fs, vs) && |vs| >= |fs|
  {
    var gs := AllGiven(fs);
    forall j | 0 <= j < |vs| ensures IndexOf(fs, vs[j].name) >= 0 { SameIndex(fs, vs[j].name); }
    forall i | 0 <= i < |fs|
      ensures IndexOf(vs, fs[i].name) >= 0 && Accepts(fs[i].typ, vs[IndexOf(vs, fs[i].name)].typ)
    {
      assert gs[i].typ == fs[i].typ && gs[i].name == fs[i].name && !gs[i].optional;
    }
    AllNamed(fs, vs);
  }

  lemma AllNamed(fs: seq<Field>, vs: seq<Field>)
    requires SortedFields(fs) && SortedFields(vs) && forall i :: 0 <= i < |fs| ==> IndexOf(vs, fs[i].name) >= 0
    ensures |vs| >= |fs|
  {
    NameCounts(fs);
    NameCounts(vs);
    forall n | n in NamesOf(fs) ensures n in NamesOf(vs) {
      var i :| 0 <= i < |fs| && fs[i].name == n;
      NameGiven(vs, n);
    }
    SubsetCardinality(NamesOf(fs), NamesOf(vs));
  }

  lemma SameIndex(fs: seq<Field>, n: string)
    ensures IndexOf(AllGiven(fs), n) >= 0 <==> IndexOf(fs, n) >= 0
  {
    var gs := AllGiven(fs);
    if IndexOf(fs, n) >= 0 { assert gs[IndexOf(fs, n)].name == n; }
    if IndexOf(gs, n) >= 0 { assert fs[IndexOf(gs, n)].name == n; }
  }

  lemma RefitObject(a: Type, vs: seq<Field>)
    requires WellFormed(a) && Tight(a) && a.base.Object? && SortedFields(vs)
    ensures Accepts(a, Object(vs)) <==> Accepts(Refit(a), Object(vs))
  {
    var fs := a.base.fields;
    BoundedAccepts(a, vs);
    ObjectAccepts(Refit(a).fields, vs);
    FewestAccepted(fs, vs);
    AllAccepted(fs, vs);
    if FieldsAccept(fs, vs) {
      GivenCount(fs, vs);
      TightCount(a, |vs|);
    }
  }

  lemma ObjectAccepts(fs: seq<Field>, vs: seq<Field>)
    ensures Accepts(Object(fs), Object(vs)) <==> FieldsAccept(fs, vs)
  {
  }

  lemma BoundedAccepts(a: Type, vs: seq<Field>)
    requires WellFormed(a) && a.Constrained() && a.base.Object?
    ensures Accepts(a, Object(vs)) <==> FieldsAccept(a.base.fields, vs) && InInts(a.con.length, |vs|)
  {
    ObjectAccepts(a.base.fields, vs);
  }

  lemma TightCount(a: Type, n: nat)
    requires WellFormed(a) && Tight(a) && a.base.Object? && RequiredCount(a.base.fields) <= n <= |a.base.fields|
    ensures InInts(a.con.length, n) <==>
      if ContainerLength(a).value.max.value == RequiredCount(a.base.fields) then n <= RequiredCount(a.base.fields)
      else n >= |a.base.fields|
  {
  }

  lemma RefitList(a: Type, v: Type)
    requires WellFormed(a) && Tight(a) && a.base.List? && !v.Refined?
    ensures Accepts(a, v) <==> Accepts(Refit(a), v)
  {
    ConstrainedBase(a);
  }

  /** Without its bounds the refitted container has the same values. */
  lemma RefitSameValues(a: Type, v: Type)
    requires WellFormed(a) && Tight(a) && WellFormed(v)
    ensures Accepts(a, v) <==> Accepts(Refit(a), v)
  {
    var w := LiteralBase(v);
    AcceptsLooksThroughRefinements(a, v);
    AcceptsLooksThroughRefinements(Refit(a), v);
    BaseWellFormed(v);
    if a.base.List? {
      RefitList(a, w);
    } else if w.Object? {
      RefitObject(a, w.fields);
    }
  }

  /** A tight container is included exactly where what it is refitted to is included part by part; the order looks at
    * the container without its bounds instead. */
  lemma TightExact(a: Type, b: Type)
    requires WellFormed(a) && WellFormed(b) && Tight(a)
    requires WellFormed(Refit(a)) && Solid(Refit(a)) && Separate(Refit(a), b)
    ensures Included(a, b) <==> Within(Refit(a), b)
    ensures Seen(Refit(a), b) ==> (Included(a, b) <==> Below(Refit(a), b))
    ensures Container(b) ==> (Below(a, b) <==> Below(a.base, b))
  {
    RefitInclusion(a, b);
    WithinExact(Refit(a), b);
    BelowExact(Refit(a), b);
    if Container(b) { TightBelow(a, b); }
  }

  lemma RefitInclusion(a: Type, b: Type)
    requires WellFormed(a) && Tight(a)
    ensures Included(a, b) <==> Included(Refit(a), b)
  {
    forall v | WellFormed(v) ensures SameOn(a, Refit(a), v) && SameOn(Refit(a), a, v) { RefitSameValues(a, v); }
    if Included(a, b) { InclusionCarries(a, Refit(a), b); }
    if Included(Refit(a), b) { InclusionCarries(Refit(a), a, b); }
  }

  predicate SameOn(a: Type, c: Type, v: Type) {
    Accepts(a, v) <==> Accepts(c, v)
  }

  lemma InclusionCarries(a: Type, c: Type, b: Type)
    requires Included(a, b) && forall v :: WellFormed(v) ==> SameOn(a, c, v)
    ensures Included(c, b)
  {
    forall v | IsMember(c, v) ensures Accepts(b, v) {
      assert SameOn(a, c, v);
      assert IsMember(a, v);
    }
  }

  lemma TightBelow(a: Type, b: Type)
    requires WellFormed(a) && Tight(a) && Container(b)
    ensures Below(a, b) <==> Below(a.base, b)
  {
    ConstrainedBase(a);
    UnfoldRefinedLeft(a, b);
  }

  // ----- unions on the right

  /** A value of the left side may need one member and another value another one: the order tries the members one by
    * one, so it does not put a tuple of a union below the union of the tuples. */
  lemma SplitUnionMissed()
    ensures var (a, b) := (Tuple([Sum([Int, String])]), Sum([Tuple([Int]), Tuple([String])]));
      WellFormed(a) && WellFormed(b) && Included(a, b) && !Below(a, b)
  {
    var (a, b) := (Tuple([Sum([Int, String])]), Sum([Tuple([Int]), Tuple([String])]));
    assert WellFormed(Sum([Int, String])) && WellFormed(Tuple([Int])) && WellFormed(Tuple([String]));
    forall v | IsMember(a, v) ensures Accepts(b, v) { SplitUnionAccepts(v); }
    SplitUnionNotBelow(a, b);
  }

  lemma SplitUnionAccepts(v: Type)
    requires Accepts(Tuple([Sum([Int, String])]), v)
    ensures Accepts(Sum([Tuple([Int]), Tuple([String])]), v)
  {
    var w := LiteralBase(v);
    SingleMember(Sum([Int, String]), v);
    EitherAccepts(w.elems[0]);
    if Accepts(Int, w.elems[0]) { SingleAccepts(w, Int); } else { SingleAccepts(w, String); }
    var ms := [Tuple([Int]), Tuple([String])];
    assert Accepts(ms[0], w) || Accepts(ms[1], w);
  }

  lemma SingleMember(t: Type, v: Type)
    requires Accepts(Tuple([t]), v)
    ensures var w := LiteralBase(v); w.Tuple? && |w.elems| == 1 && Accepts(t, w.elems[0])
  {
    assert [t][0] == t;
  }

  lemma EitherAccepts(x: Type)
    requires Accepts(Sum([Int, String]), x)
    ensures Accepts(Int, x) || Accepts(String, x)
  {
    AcceptsLooksThroughRefinements(Int, x);
    AcceptsLooksThroughRefinements(String, x);
  }

  lemma SingleAccepts(w: Type, t: Type)
    requires w.Tuple? && |w.elems| == 1 && Accepts(t, w.elems[0])
    ensures Accepts(Tuple([t]), w)
  {
  }

  lemma SplitUnionNotBelow(a: Type, b: Type)
    requires a == Tuple([Sum([Int, String])]) && b == Sum([Tuple([Int]), Tuple([String])])
    ensures !Below(a, b)
  {
    var u := a.elems[0];
    forall i | 0 <= i < |b.members| ensures !Below(a, b.members[i]) {
      var m := b.members[i];
      UnfoldShape(a, m);
      assert !Below(u, m.elems[0]) by {
        assert !Below(u.members[1], Int) && !Below(u.members[0], String);
      }
    }
  }
}
