/** What the semantic fingerprint leaves out: names, metadata and the wrappers that carry them
  * (internal/compiled/fingerprint.go:43-126, metadata.go:148-155). */
module SemanticFingerprints {
  import opened Wrappers
  import opened Atoms
  import opened Constraints
  import opened Types
  import opened Nodes
  import opened Fingerprints
  import Soundness

  /** A type without names and metadata, and without the wrappers that only carry these. */
  function Bare(t: Type): Type
    decreases t
  {
    match t
    case List(e) => List(Bare(e))
    case Tuple(es) => Tuple(BareTypes(es))
    case Object(fs) => Object(BareFields(fs))
    case Sum(ms) => Sum(BareTypes(ms))
    case Refined(b, c, _, _) => if c == UNCONSTRAINED then Bare(b) else Refined(Bare(b), c, 0, "")
    case _ => t
  }

  function BareTypes(ts: seq<Type>): (r: seq<Type>)
    ensures |r| == |ts| && forall i :: 0 <= i < |ts| ==> r[i] == Bare(ts[i])
    decreases ts
  {
    if ts == [] then [] else [Bare(ts[0])] + BareTypes(ts[1..])
  }

  function BareFields(fs: seq<Field>): (r: seq<Field>)
    ensures |r| == |fs|
    ensures forall i :: 0 <= i < |fs| ==> r[i] == Field(fs[i].name, Bare(fs[i].typ), fs[i].optional, 0)
    decreases fs
  {
    if fs == [] then []
    else [Field(fs[0].name, Bare(fs[0].typ), fs[0].optional, 0)] + BareFields(fs[1..])
  }

  /** The semantic fingerprint is that of the bare type. */
  lemma {:induction false} SemanticIsBare(h: Hashing, t: Type)
    requires h.semantic
    ensures TreeFp(h, Bare(t)) == TreeFp(h, t)
    decreases t, 1
  {
    match t
    case List(e) => SemanticIsBare(h, e);
    case Tuple(es) => TypesBare(h, es);
    case Sum(ms) => TypesBare(h, ms);
    case Object(fs) => ObjectBare(h, fs);
    case Refined(b, _, _, _) => RefinedBare(h, t);
    case _ =>
  }

  lemma {:induction false} RefinedBare(h: Hashing, t: Type)
    requires h.semantic && t.Refined?
    ensures TreeFp(h, Bare(t)) == TreeFp(h, t)
    decreases t, 0
  {
    SemanticIsBare(h, t.base);
    if !t.Wrapper() {
      var r := Bare(t);
      assert TreeEncoding(h, r) == RefinedCode(h, TreeFp(h, r.base), ConstraintFp(h, t.con), 0, "");
      assert TreeEncoding(h, t) == RefinedCode(h, TreeFp(h, t.base), ConstraintFp(h, t.con), t.meta, t.name);
    }
  }

  lemma {:induction false} TypesBare(h: Hashing, ts: seq<Type>)
    requires h.semantic
    ensures TreeFps(h, BareTypes(ts)) == TreeFps(h, ts)
    decreases ts
  {
    forall i | 0 <= i < |ts| ensures TreeFp(h, Bare(ts[i])) == TreeFp(h, ts[i]) { SemanticIsBare(h, ts[i]); }
  }

  lemma {:induction false} ObjectBare(h: Hashing, fs: seq<Field>)
    requires h.semantic
    ensures TreeFp(h, Object(BareFields(fs))) == TreeFp(h, Object(fs))
    decreases fs, 1
  {
    forall i | 0 <= i < |fs| ensures TreeFp(h, Bare(fs[i].typ)) == TreeFp(h, fs[i].typ) { SemanticIsBare(h, fs[i].typ); }
    SameFieldCodes(h, BareFields(fs), fs);
  }

  /** Without metadata the code of a field list depends on names, flags and value fingerprints. */
  lemma {:induction false} SameFieldCodes(h: Hashing, xs: seq<Field>, ys: seq<Field>)
    requires |xs| == |ys| && forall i :: 0 <= i < |xs| ==>
      xs[i].name == ys[i].name && xs[i].optional == ys[i].optional && TreeFp(h, xs[i].typ) == TreeFp(h, ys[i].typ)
    ensures FieldsEncoding(h, xs, false) == FieldsEncoding(h, ys, false)
  {
    if xs != [] { SameFieldCodes(h, xs[..|xs| - 1], ys[..|ys| - 1]); }
  }

  /** Types that differ in names and metadata only have one semantic fingerprint. */
  lemma SameSemantics(h: Hashing, t: Type, u: Type)
    requires Bare(t) == Bare(u)
    ensures TreeFp(Semantic(h), t) == TreeFp(Semantic(h), u)
  {
    SemanticIsBare(Semantic(h), t);
    SemanticIsBare(Semantic(h), u);
  }

  /** And what is left out does not matter to the values a type admits. */
  lemma {:induction false} BareAccepts(t: Type, v: Type)
    ensures Accepts(Bare(t), v) <==> Accepts(t, v)
    decreases t, 1
  {
    var w := LiteralBase(v);
    match t
    case List(_) => if w.Tuple? { BareSequenceAccepts(t, w); }
    case Tuple(_) => if w.Tuple? { BareSequenceAccepts(t, w); }
    case Sum(ms) =>
      forall i | 0 <= i < |ms| ensures Accepts(Bare(ms[i]), w) <==> Accepts(ms[i], w) { BareAccepts(ms[i], w); }
    case Object(fs) => BareObjectAccepts(fs, w);
    case Refined(b, _, _, _) => BareAccepts(b, w); RefinedAccepts(t, v);
    case _ =>
  }

  lemma {:induction false} BareSequenceAccepts(t: Type, w: Type)
    requires (t.List? || t.Tuple?) && w.Tuple?
    ensures Accepts(Bare(t), w) <==> Accepts(t, w)
    decreases t, 0
  {
    forall i | 0 <= i < |w.elems| && (t.Tuple? ==> |t.elems| == |w.elems|)
      ensures var e := if t.List? then t.elem else t.elems[i]; Accepts(Bare(e), w.elems[i]) <==> Accepts(e, w.elems[i])
    {
      BareAccepts(if t.List? then t.elem else t.elems[i], w.elems[i]);
    }
  }

  lemma RefinedAccepts(t: Type, v: Type)
    requires t.Refined? && (Accepts(Bare(t.base), LiteralBase(v)) <==> Accepts(t.base, LiteralBase(v)))
    ensures Accepts(Bare(t), v) <==> Accepts(t, v)
  {
    Soundness.AcceptsLooksThroughRefinements(Bare(t.base), v);
  }

  lemma {:induction false} BareObjectAccepts(fs: seq<Field>, w: Type)
    requires !w.Refined?
    ensures Accepts(Object(BareFields(fs)), w) <==> Accepts(Object(fs), w)
    decreases fs
  {
    if w.Object? {
      var bs := BareFields(fs);
      forall name ensures IndexOf(bs, name) == IndexOf(fs, name) { SameIndex(bs, fs, name); }
      forall i | 0 <= i < |fs| && IndexOf(w.fields, fs[i].name) >= 0
        ensures var u := w.fields[IndexOf(w.fields, fs[i].name)].typ; Accepts(bs[i].typ, u) <==> Accepts(fs[i].typ, u)
      {
        BareAccepts(fs[i].typ, w.fields[IndexOf(w.fields, fs[i].name)].typ);
      }
      SameFieldsAccept(bs, fs, w.fields);
    }
  }

  lemma SameFieldsAccept(bs: seq<Field>, fs: seq<Field>, got: seq<Field>)
    requires |bs| == |fs| && forall i :: 0 <= i < |fs| ==> bs[i].name == fs[i].name && bs[i].optional == fs[i].optional
    requires forall name :: IndexOf(bs, name) == IndexOf(fs, name)
    requires forall i :: 0 <= i < |fs| && IndexOf(got, fs[i].name) >= 0 ==>
      (Accepts(bs[i].typ, got[IndexOf(got, fs[i].name)].typ) <==> Accepts(fs[i].typ, got[IndexOf(got, fs[i].name)].typ))
    ensures Accepts(Object(bs), Object(got)) <==> Accepts(Object(fs), Object(got))
  {
    SameKeysFit(bs, fs, got);
    ObjectAccepts(bs, got);
    ObjectAccepts(fs, got);
    assert Soundness.FieldsAccept(bs, got) <==> Soundness.FieldsAccept(fs, got);
  }

  lemma ObjectAccepts(fs: seq<Field>, got: seq<Field>)
    ensures Accepts(Object(fs), Object(got)) <==> Soundness.FieldsAccept(fs, got)
  {
  }

  lemma SameKeysFit(bs: seq<Field>, fs: seq<Field>, got: seq<Field>)
    requires |bs| == |fs| && forall i :: 0 <= i < |fs| ==> bs[i].name == fs[i].name && bs[i].optional == fs[i].optional
    requires forall name :: IndexOf(bs, name) == IndexOf(fs, name)
    ensures KeysFit(bs, got) <==> KeysFit(fs, got)
  {
  }

  lemma {:induction false} SameIndex(xs: seq<Field>, ys: seq<Field>, name: string)
    requires |xs| == |ys| && forall i :: 0 <= i < |xs| ==> xs[i].name == ys[i].name
    ensures IndexOf(xs, name) == IndexOf(ys, name)
  {
    if xs != [] { SameIndex(xs[..|xs| - 1], ys[..|ys| - 1], name); }
  }
}
