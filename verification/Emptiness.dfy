/** When the normaliser notices that a refinement has no value (internal/compiled/constraint.go:535-680). */
module Emptiness {
  import opened Wrappers
  import opened MachineInts
  import opened Atoms
  import opened Constraints
  import opened Types
  import opened Order
  import opened OrderLaws
  import opened Soundness
  import opened Clauses
  import opened NormalForms
  import opened NormalFormLaws

  // ----- reals

  ghost predicate NoReal(c: Constraint) {
    forall r :: !Satisfies(c, Scalar(RealAtom(r)))
  }

  /** Reals: finishing detects emptiness unless the interval is only empty among the numbers of the float format. */
  lemma RealEmptinessExact(a: RealBounds, f: FloatFormat)
    ensures var n := RealRecord(a, f);
      (Finished(Real, n, false).None? <==> NoReal(n)) <==>
      !(ImpossibleReals(Interval(n)) && !ImpossibleReals(a) && !SingleReal(a))
  {
    var n := RealRecord(a, f);
    forall r ensures Satisfies(n, Scalar(RealAtom(r))) == InReals(Interval(n), r) { IntervalMeaning(n, r); }
    forall r ensures InReals(Interval(n), r) <==> InReals(a, r) && InReals(Range(f), r) { MeetMeaning(a, Range(f), r); }
    ImpossibleRealsExact(Interval(n));
    ImpossibleRealsExact(a);
    if !ImpossibleReals(a) {
      FinishedReals(a, f);
      if SingleReal(a) { assert InReals(a, a.min.value.v); }
    }
  }

  // ----- the lengths a base has values of

  predicate IsMember(t: Type, v: Type) {
    WellFormed(v) && IsValue(v) && Accepts(t, v)
  }

  ghost predicate Inhabited(t: Type) {
    exists v :: IsMember(t, v)
  }

  /** The fields some value can be given for. */
  ghost function Live(fs: seq<Field>): seq<Field> {
    if fs == [] then []
    else Live(fs[..|fs| - 1]) + if Inhabited(fs[|fs| - 1].typ) then [fs[|fs| - 1]] else []
  }

  ghost predicate AllInhabited(ts: seq<Type>) {
    forall i :: 0 <= i < |ts| ==> Inhabited(ts[i])
  }

  ghost predicate RequiredInhabited(fs: seq<Field>) {
    forall i :: 0 <= i < |fs| && !fs[i].optional ==> Inhabited(fs[i].typ)
  }

  const NO_LENGTHS := IntBounds(Some(1), Some(0))

  /** The lengths of the values of a base: any for strings and for lists that can have elements, one for tuples, and for
    * objects from the number of required fields to that of the fields that can be given. */
  ghost function LengthsOf(base: Type): IntBounds {
    match base
    case List(e) => if Inhabited(e) then IntBounds(Some(0), None) else IntBounds(Some(0), Some(0))
    case Tuple(es) => if AllInhabited(es) then IntBounds(Some(|es|), Some(|es|)) else NO_LENGTHS
    case Object(fs) => if RequiredInhabited(fs) then IntBounds(Some(RequiredCount(fs)), Some(|Live(fs)|)) else NO_LENGTHS
    case _ => IntBounds(Some(0), None)
  }

  /** A value of the base with this length. */
  predicate HasLength(base: Type, v: Type, k: nat) {
    IsMember(base, v) && !v.Refined? && LengthOf(SubjectOf(v)) == Some(k)
  }

  // ----- objects

  lemma {:induction false} LiveMembers(fs: seq<Field>, f: Field)
    ensures f in Live(fs) <==> f in fs && Inhabited(f.typ)
  {
    if fs != [] {
      LiveMembers(fs[..|fs| - 1], f);
      assert fs == fs[..|fs| - 1] + [fs[|fs| - 1]];
    }
  }

  lemma {:induction false} LiveSorted(fs: seq<Field>)
    requires SortedFields(fs)
    ensures SortedFields(Live(fs))
  {
    if fs != [] {
      var (init, last) := (fs[..|fs| - 1], fs[|fs| - 1]);
      LiveSorted(init);
      forall f | f in Live(init) ensures f in init { LiveMembers(init, f); }
      assert fs == init + [last];
      AppendLive(init, last);
    }
  }

  lemma RequiredInit(fs: seq<Field>)
    requires fs != [] && RequiredInhabited(fs)
    ensures RequiredInhabited(fs[..|fs| - 1])
  {
    var init := fs[..|fs| - 1];
    forall i | 0 <= i < |init| && !init[i].optional ensures Inhabited(init[i].typ) { assert init[i] == fs[i]; }
  }

  lemma {:induction false} LiveCounts(fs: seq<Field>)
    requires RequiredInhabited(fs)
    ensures RequiredCount(Live(fs)) == RequiredCount(fs) <= |Live(fs)|
  {
    if fs != [] {
      var (init, last) := (fs[..|fs| - 1], fs[|fs| - 1]);
      RequiredInit(fs);
      LiveCounts(init);
      CountAppend(init, last);
      assert fs == init + [last];
      if Inhabited(last.typ) { CountAppend(Live(init), last); } else { assert Live(fs) == Live(init); }
    }
  }

  lemma CountAppend(fs: seq<Field>, f: Field)
    ensures RequiredCount(fs + [f]) == RequiredCount(fs) + if f.optional then 0 else 1
  {
    assert (fs + [f])[..|fs|] == fs;
  }

  lemma AppendLive(init: seq<Field>, last: Field)
    requires SortedFields(init + [last]) && SortedFields(Live(init)) && forall f :: f in Live(init) ==> f in init
    ensures SortedFields(Live(init) + [last])
  {
    var (live, fs) := (Live(init), init + [last]);
    forall i | 0 <= i < |live| ensures CompareStrings(live[i].name, last.name) < 0 {
      assert live[i] in init;
      var k :| 0 <= k < |init| && init[k] == live[i];
      assert CompareStrings(fs[k].name, fs[|init|].name) < 0;
    }
  }

  /** Every given field is declared and has a value of its type, and every required field is given. */
  predicate Fills(fs: seq<Field>, vs: seq<Field>) {
    && (forall j :: 0 <= j < |vs| ==> Filled(fs, vs[j]))
    && (forall i :: 0 <= i < |fs| && !fs[i].optional ==> Given(vs, fs[i].name))
  }

  predicate Filled(fs: seq<Field>, v: Field) {
    !v.optional && exists i :: 0 <= i < |fs| && fs[i].name == v.name && IsMember(fs[i].typ, v.typ)
  }

  predicate Given(vs: seq<Field>, name: string) {
    exists j :: 0 <= j < |vs| && vs[j].name == name
  }

  /** Leave out optional fields until the length is right. */
  lemma {:induction false} FillToLength(fs: seq<Field>, k: nat) returns (vs: seq<Field>)
    requires SortedFields(fs) && RequiredInhabited(fs) && RequiredCount(fs) <= k <= |Live(fs)|
    ensures |vs| == k && SortedFields(vs) && Fills(fs, vs)
  {
    if fs == [] {
      vs := [];
    } else {
      var (init, last) := (fs[..|fs| - 1], fs[|fs| - 1]);
      assert fs == init + [last];
      RequiredInit(fs);
      LiveCounts(init);
      if last.optional && k <= |Live(init)| {
        vs := FillToLength(init, k);
        FillsMore(init, last, vs);
      } else {
        assert Inhabited(last.typ);
        vs := FillToLength(init, k - 1);
        vs := FillLast(init, last, vs);
      }
    }
  }

  lemma FillLast(init: seq<Field>, last: Field, vs: seq<Field>) returns (more: seq<Field>)
    requires SortedFields(init + [last]) && SortedFields(vs) && Fills(init, vs) && Inhabited(last.typ)
    ensures |more| == |vs| + 1 && SortedFields(more) && Fills(init + [last], more)
  {
    var w :| IsMember(last.typ, w);
    FillsOne(init, last, vs, w);
    more := vs + [Field(last.name, w, false, 0)];
  }

  lemma FilledMore(init: seq<Field>, last: Field, v: Field)
    requires Filled(init, v)
    ensures Filled(init + [last], v)
  {
    var i :| 0 <= i < |init| && init[i].name == v.name && IsMember(init[i].typ, v.typ);
    assert (init + [last])[i] == init[i];
  }

  lemma FillsMore(init: seq<Field>, last: Field, vs: seq<Field>)
    requires Fills(init, vs) && last.optional
    ensures Fills(init + [last], vs)
  {
    forall j | 0 <= j < |vs| ensures Filled(init + [last], vs[j]) { FilledMore(init, last, vs[j]); }
  }

  lemma FillsOne(init: seq<Field>, last: Field, vs: seq<Field>, w: Type)
    requires SortedFields(init + [last]) && SortedFields(vs) && Fills(init, vs) && IsMember(last.typ, w)
    ensures var more := vs + [Field(last.name, w, false, 0)];
      SortedFields(more) && Fills(init + [last], more)
  {
    var (fs, own) := (init + [last], Field(last.name, w, false, 0));
    var more := vs + [own];
    forall j | 0 <= j < |vs| ensures CompareStrings(vs[j].name, last.name) < 0 {
      assert Filled(init, vs[j]);
      var i :| 0 <= i < |init| && init[i].name == vs[j].name;
      assert CompareStrings(fs[i].name, fs[|init|].name) < 0;
    }
    assert Filled(fs, own) by { assert fs[|init|] == last; }
    forall j | 0 <= j < |more| ensures Filled(fs, more[j]) {
      if j < |vs| { FilledMore(init, last, vs[j]); }
    }
    forall i | 0 <= i < |fs| && !fs[i].optional ensures Given(more, fs[i].name) {
      if i < |init| {
        assert Given(vs, init[i].name);
        var j :| 0 <= j < |vs| && vs[j].name == init[i].name;
        assert more[j].name == fs[i].name;
      } else {
        assert more[|vs|].name == fs[i].name;
      }
    }
  }

  lemma FilledAccepted(fs: seq<Field>, vs: seq<Field>)
    requires SortedFields(fs) && SortedFields(vs) && Fills(fs, vs)
    ensures HasLength(Object(fs), Object(vs), |vs|)
  {
    forall j | 0 <= j < |vs| ensures WellFormed(vs[j].typ) && IsValue(vs[j].typ) && IndexOf(fs, vs[j].name) >= 0 {
      assert Filled(fs, vs[j]);
    }
    forall i | 0 <= i < |fs| && !fs[i].optional ensures IndexOf(vs, fs[i].name) >= 0 {
      assert Given(vs, fs[i].name);
    }
    forall i | 0 <= i < |fs| && IndexOf(vs, fs[i].name) >= 0
      ensures Accepts(fs[i].typ, vs[IndexOf(vs, fs[i].name)].typ)
    {
      FilledField(fs, vs, i);
    }
    assert KeysFit(fs, vs) && FieldsAccept(fs, vs);
  }

  lemma FilledField(fs: seq<Field>, vs: seq<Field>, i: nat)
    requires SortedFields(fs) && Fills(fs, vs) && i < |fs| && IndexOf(vs, fs[i].name) >= 0
    ensures Accepts(fs[i].typ, vs[IndexOf(vs, fs[i].name)].typ)
  {
    var j := IndexOf(vs, fs[i].name);
    assert Filled(fs, vs[j]);
    var k :| 0 <= k < |fs| && fs[k].name == vs[j].name && IsMember(fs[k].typ, vs[j].typ);
    SortedNamesDistinct(fs, i, k);
  }

  /** An object value gives only fields that can be given. */
  lemma ObjectLengthBounds(fs: seq<Field>, v: Type)
    requires SortedFields(fs) && v.Object? && IsMember(Object(fs), v)
    ensures RequiredInhabited(fs) && RequiredCount(fs) <= |v.fields| <= |Live(fs)|
  {
    var vs := v.fields;
    forall i | 0 <= i < |fs| && !fs[i].optional ensures Inhabited(fs[i].typ) {
      assert IsMember(fs[i].typ, vs[IndexOf(vs, fs[i].name)].typ);
    }
    forall j | 0 <= j < |vs| ensures IndexOf(Live(fs), vs[j].name) >= 0 { GivenIsLive(fs, vs, j); }
    forall i | 0 <= i < |Live(fs)| && !Live(fs)[i].optional ensures IndexOf(vs, Live(fs)[i].name) >= 0 {
      LiveMembers(fs, Live(fs)[i]);
    }
    LiveSorted(fs);
    LiveCounts(fs);
    ObjectLengths(vs, Live(fs));
    AllRequired(vs);
  }

  lemma GivenIsLive(fs: seq<Field>, vs: seq<Field>, j: nat)
    requires SortedFields(fs) && IsMember(Object(fs), Object(vs)) && j < |vs|
    ensures IndexOf(Live(fs), vs[j].name) >= 0
  {
    var f := fs[IndexOf(fs, vs[j].name)];
    IndexOfOwnField(vs, j);
    assert IsMember(f.typ, vs[j].typ);
    LiveMembers(fs, f);
  }

  // ----- all bases

  /** The base has a value of each of these lengths. */
  lemma LengthWitness(base: Type, k: nat) returns (v: Type)
    requires WellFormed(base) && (base.String? || Container(base)) && InInts(LengthsOf(base), k)
    ensures HasLength(base, v, k)
  {
    if base.String? {
      v := Lit(StringAtom(seq(k, _ => 'a')));
    } else if base.Tuple? {
      v := TupleWitness(base.elems);
    } else if base.Object? {
      var vs := FillToLength(base.fields, k);
      FilledAccepted(base.fields, vs);
      v := Object(vs);
    } else {
      v := ListWitness(base.elem, k);
    }
  }

  lemma ListWitness(elem: Type, k: nat) returns (v: Type)
    requires k > 0 ==> Inhabited(elem)
    ensures HasLength(List(elem), v, k)
  {
    if k == 0 {
      v := Tuple([]);
      Repeated(elem, []);
    } else {
      var w :| IsMember(elem, w);
      v := Tuple(seq(k, _ => w));
      Repeated(elem, v.elems);
    }
  }

  lemma Repeated(elem: Type, ws: seq<Type>)
    requires forall i :: 0 <= i < |ws| ==> IsMember(elem, ws[i])
    ensures HasLength(List(elem), Tuple(ws), |ws|)
  {
  }

  lemma {:induction false} TupleWitness(es: seq<Type>) returns (v: Type)
    requires AllInhabited(es)
    ensures v.Tuple? && HasLength(Tuple(es), v, |es|)
    decreases |es|
  {
    if es == [] {
      v := Tuple([]);
    } else {
      assert forall i :: 0 <= i < |es[1..]| ==> es[1..][i] == es[i + 1];
      var w :| IsMember(es[0], w);
      var rest := TupleWitness(es[1..]);
      v := Tuple([w] + rest.elems);
      ConsMember(es, w, rest.elems);
    }
  }

  lemma ConsMember(es: seq<Type>, w: Type, ws: seq<Type>)
    requires es != [] && IsMember(es[0], w) && IsMember(Tuple(es[1..]), Tuple(ws))
    ensures IsMember(Tuple(es), Tuple([w] + ws))
  {
    var all := [w] + ws;
    forall i | 0 <= i < |es| ensures WellFormed(all[i]) && IsValue(all[i]) && Accepts(es[i], all[i]) {
      if i > 0 { assert es[i] == es[1..][i - 1] && all[i] == ws[i - 1]; }
    }
  }

  /** And of no other. */
  lemma LengthWithin(base: Type, v: Type)
    requires WellFormed(base) && (base.String? || Container(base)) && IsMember(base, v) && !v.Refined?
    ensures LengthOf(SubjectOf(v)).Some? && InInts(LengthsOf(base), LengthOf(SubjectOf(v)).value)
  {
    if base.Object? {
      ObjectLengthBounds(base.fields, v);
    } else if base.Tuple? {
      forall i | 0 <= i < |base.elems| ensures Inhabited(base.elems[i]) { assert IsMember(base.elems[i], v.elems[i]); }
    } else if base.List? {
      if |v.elems| > 0 { assert IsMember(base.elem, v.elems[0]); }
    }
  }

  // ----- emptiness

  function MeetInts(a: IntBounds, b: IntBounds): IntBounds {
    IntBounds(
      if a.min.None? || (b.min.Some? && b.min.value > a.min.value) then b.min else a.min,
      if a.max.None? || (b.max.Some? && b.max.value < a.max.value) then b.max else a.max)
  }

  /** No value of the base meets the record. */
  ghost predicate NoValue(base: Type, n: Constraint) {
    forall v :: IsMember(base, v) && Admissible(base, v) ==> !Holds(n, false, v)
  }

  /** A record of lengths that Go can count has no value exactly when it crosses the lengths that the base has; and
    * finishing notices exactly what crosses by itself, or, for tuples, everything. */
  lemma LengthEmptinessExact(base: Type, n: Constraint)
    requires WellFormed(base) && (base.String? || Container(base))
    requires n == UNCONSTRAINED.(length := n.length) && (n.length.min.Some? ==> n.length.min.value <= MAX_INT64)
    requires LengthsOf(base).min.value <= MAX_INT64
    ensures NoValue(base, n) <==> ImpossibleInts(MeetInts(LengthsOf(base), n.length))
    ensures Finished(base, n, false).None? <==>
      ImpossibleInts(n.length) || (base.Tuple? && !InInts(n.length, |base.elems|))
  {
    var both := MeetInts(LengthsOf(base), n.length);
    forall i ensures InInts(both, i) <==> InInts(LengthsOf(base), i) && InInts(n.length, i) { }
    if !ImpossibleInts(both) {
      var k := both.min.value;
      assert InInts(both, k);
      var v := LengthWitness(base, k);
      assert Admissible(base, v) && Holds(n, false, v);
    } else {
      forall v | IsMember(base, v) && Admissible(base, v) ensures !Holds(n, false, v) {
        LengthWithin(base, v);
        ImpossibleIntsExact(both);
      }
    }
  }

  /** Where nothing is noticed although there is no value: `len(x) < 0`, more fields than an object has, fewer than it
    * requires, and any element of a type without values. */
  lemma UnnoticedExact(base: Type, n: Constraint)
    requires WellFormed(base) && (base.String? || Container(base))
    requires n == UNCONSTRAINED.(length := n.length) && (n.length.min.Some? ==> n.length.min.value <= MAX_INT64)
    requires LengthsOf(base).min.value <= MAX_INT64
    ensures (Finished(base, n, false).None? <==> NoValue(base, n)) <==>
      (ImpossibleInts(MeetInts(LengthsOf(base), n.length)) ==>
        ImpossibleInts(n.length) || (base.Tuple? && !InInts(n.length, |base.elems|)))
  {
    LengthEmptinessExact(base, n);
    if Finished(base, n, false).None? {
      forall v | IsMember(base, v) && Admissible(base, v) ensures !Holds(n, false, v) { FinishMeaning(base, n, false, v); }
    }
  }

  /** For strings that is a negative largest length. */
  lemma StringEmptinessExact(n: Constraint)
    requires n == UNCONSTRAINED.(length := n.length) && (n.length.min.Some? ==> n.length.min.value <= MAX_INT64)
    ensures NoValue(String, n) <==>
      (n.length.max.Some? && n.length.max.value < 0) || ImpossibleInts(n.length)
    ensures Finished(String, n, false).None? <==> ImpossibleInts(n.length)
  {
    LengthEmptinessExact(String, n);
  }
}
