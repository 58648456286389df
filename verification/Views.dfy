/** Derived views: the overlay as the code builds it, with a path copy, a merge loop and cached fingerprints
  * (internal/compiled/view.go:17-25, 94-137, 200-309, fingerprint.go:43-126). */
module Views {
  import opened Wrappers
  import opened Atoms
  import opened Constraints
  import opened Types
  import opened Fingerprints
  import opened Overlays
  import ObjectWalks

  datatype FieldView = FieldView(name: string, view: View, optional: bool, meta: nat)

  /** A reference to a type: one interned in some arena, or a derived one over other references.  Each carries
    * its two fingerprints, an interned one those its arena stored. */
  datatype View =
    | Stored(typ: Type, fp: nat, sem: nat)
    | ListView(child: View, fp: nat, sem: nat)
    | RefinedView(child: View, con: Constraint, meta: nat, name: string, fp: nat, sem: nat)
    | ObjectView(fields: seq<FieldView>, fp: nat, sem: nat)

  /** The tree a view stands for. */
  function Denotes(v: View): Type
    decreases v
  {
    match v
    case Stored(t, _, _) => t
    case ListView(c, _, _) => List(Denotes(c))
    case RefinedView(c, con, m, n, _, _) => Refined(Denotes(c), con, m, n)
    case ObjectView(fs, _, _) => Object(DenotesFields(fs))
  }

  function DenotesFields(fs: seq<FieldView>): (r: seq<Field>)
    ensures |r| == |fs|
    ensures forall i :: 0 <= i < |fs| ==>
      r[i] == Field(fs[i].name, Denotes(fs[i].view), fs[i].optional, fs[i].meta)
    decreases fs
  {
    if fs == [] then [] else
      [Field(fs[0].name, Denotes(fs[0].view), fs[0].optional, fs[0].meta)] + DenotesFields(fs[1..])
  }

  /** Every cached fingerprint, complete or semantic, is the fingerprint of the tree. */
  ghost predicate Faithful(h: Hashing, v: View)
    decreases v
  {
    v.fp == TreeFp(Complete(h), Denotes(v)) && v.sem == TreeFp(Semantic(h), Denotes(v)) &&
    match v
    case Stored(_, _, _) => true
    case ListView(c, _, _) => Faithful(h, c)
    case RefinedView(c, _, _, _, _, _) => Faithful(h, c)
    case ObjectView(fs, _, _) => forall i :: 0 <= i < |fs| ==> Faithful(h, fs[i].view)
  }

  ghost predicate FaithfulFields(h: Hashing, fs: seq<FieldView>) {
    forall i :: 0 <= i < |fs| ==> Faithful(h, fs[i].view)
  }

  // ----- accessors, for interned and derived types alike

  /** A child of an interned type with the fingerprint its arena keeps for it. */
  function Interned(h: Hashing, t: Type): View {
    Stored(t, TreeFp(Complete(h), t), TreeFp(Semantic(h), t))
  }

  function StoredFields(h: Hashing, fs: seq<Field>): (r: seq<FieldView>)
    ensures |r| == |fs|
    ensures forall i :: 0 <= i < |fs| ==>
      r[i] == FieldView(fs[i].name, Interned(h, fs[i].typ), fs[i].optional, fs[i].meta)
  {
    seq(|fs|, i requires 0 <= i < |fs| => FieldView(fs[i].name, Interned(h, fs[i].typ), fs[i].optional, fs[i].meta))
  }

  /** The child of a list or a refinement. */
  function Child(h: Hashing, v: View): (c: View)
    requires Denotes(v).List? || Denotes(v).Refined?
    ensures Denotes(c) == if Denotes(v).List? then Denotes(v).elem else Denotes(v).base
  {
    match v
    case Stored(List(e), _, _) => Interned(h, e)
    case Stored(Refined(b, _, _, _), _, _) => Interned(h, b)
    case ListView(c, _, _) => c
    case RefinedView(c, _, _, _, _, _) => c
  }

  /** The fields of an object. */
  function FieldViews(h: Hashing, v: View): (fs: seq<FieldView>)
    requires Denotes(v).Object?
    ensures DenotesFields(fs) == Denotes(v).fields
  {
    match v
    case Stored(Object(fs), _, _) =>
      assert DenotesFields(StoredFields(h, fs)) == fs;
      StoredFields(h, fs)
    case ObjectView(fs, _, _) => fs
  }

  lemma PartsFaithful(h: Hashing, v: View)
    requires Faithful(h, v)
    ensures Denotes(v).List? || Denotes(v).Refined? ==> Faithful(h, Child(h, v))
    ensures Denotes(v).Object? ==> FaithfulFields(h, FieldViews(h, v))
  {
  }

  // ----- fingerprints of new views

  /** The fingerprint a view caches for this encoder. */
  function CachedFp(h: Hashing, v: View): nat {
    if h.semantic then v.sem else v.fp
  }

  function FieldViewsEncoding(h: Hashing, fs: seq<FieldView>, withMeta: bool): seq<int> {
    if fs == [] then []
    else
      var f := fs[|fs| - 1];
      FieldViewsEncoding(h, fs[..|fs| - 1], withMeta) + FieldCode(h, f.name, f.optional, CachedFp(h, f.view), f.meta, withMeta)
  }

  lemma CachedIsTreeFp(h: Hashing, v: View)
    requires Faithful(h, v)
    ensures CachedFp(h, v) == TreeFp(h, Denotes(v))
  {
    assert h == if h.semantic then Semantic(h) else Complete(h);
  }

  /** Which of the two fingerprints is to be computed does not matter to what is cached. */
  lemma FaithfulEither(h: Hashing, g: Hashing, v: View)
    requires Faithful(h, v) && Complete(h) == Complete(g)
    ensures Faithful(g, v)
    decreases v
  {
    assert Semantic(h) == Semantic(g);
    match v
    case Stored(_, _, _) =>
    case ListView(c, _, _) => FaithfulEither(h, g, c);
    case RefinedView(c, _, _, _, _, _) => FaithfulEither(h, g, c);
    case ObjectView(fs, _, _) => forall i | 0 <= i < |fs| ensures Faithful(g, fs[i].view) { FaithfulEither(h, g, fs[i].view); }
  }

  lemma {:induction false} FieldViewsEncodingAgrees(h: Hashing, fs: seq<FieldView>, withMeta: bool)
    requires FaithfulFields(h, fs)
    ensures FieldViewsEncoding(h, fs, withMeta) == FieldsEncoding(h, DenotesFields(fs), withMeta)
  {
    if fs != [] {
      var init := fs[..|fs| - 1];
      assert DenotesFields(fs)[..|fs| - 1] == DenotesFields(init);
      FieldViewsEncodingAgrees(h, init, withMeta);
      CachedIsTreeFp(h, fs[|fs| - 1].view);
    }
  }

  /** `computeFingerprint` of a new object view, from the fingerprints its fields cache. */
  method NewObjectView(h: Hashing, fs: seq<FieldView>) returns (v: View)
    requires FaithfulFields(h, fs)
    ensures Denotes(v) == Object(DenotesFields(fs)) && Faithful(h, v)
  {
    var hasMeta := false;
    for i := 0 to |fs|
      invariant hasMeta <==> exists k :: 0 <= k < i && fs[k].meta != 0
    {
      hasMeta := hasMeta || fs[i].meta != 0;
    }
    var fp := h.hash([VERSION, 12, |fs|] + FieldViewsEncoding(Complete(h), fs, hasMeta));
    var sem := h.hash([VERSION, 12, |fs|] + FieldViewsEncoding(Semantic(h), fs, false));
    v := ObjectView(fs, fp, sem);
    assert hasMeta <==> AnyMeta(DenotesFields(fs));
    ObjectEncodings(h, fs);
  }

  lemma ObjectEncodings(h: Hashing, fs: seq<FieldView>)
    requires FaithfulFields(h, fs)
    ensures var (t, withMeta) := (DenotesFields(fs), AnyMeta(DenotesFields(fs)));
      && TreeFp(Complete(h), Object(t)) == h.hash([VERSION, 12, |fs|] + FieldViewsEncoding(Complete(h), fs, withMeta))
      && TreeFp(Semantic(h), Object(t)) == h.hash([VERSION, 12, |fs|] + FieldViewsEncoding(Semantic(h), fs, false))
  {
    FieldsEither(h, Complete(h), fs);
    FieldsEither(h, Semantic(h), fs);
    ObjectFp(Complete(h), fs);
    ObjectFp(Semantic(h), fs);
  }

  lemma FieldsEither(h: Hashing, g: Hashing, fs: seq<FieldView>)
    requires FaithfulFields(h, fs) && Complete(h) == Complete(g)
    ensures FaithfulFields(g, fs)
  {
    forall i | 0 <= i < |fs| ensures Faithful(g, fs[i].view) { FaithfulEither(h, g, fs[i].view); }
  }

  lemma ObjectFp(h: Hashing, fs: seq<FieldView>)
    requires FaithfulFields(h, fs)
    ensures var (t, withMeta) := (DenotesFields(fs), !h.semantic && AnyMeta(DenotesFields(fs)));
      TreeFp(h, Object(t)) == h.hash([VERSION, 12, |fs|] + FieldViewsEncoding(h, fs, withMeta))
  {
    FieldViewsEncodingAgrees(h, fs, !h.semantic && AnyMeta(DenotesFields(fs)));
  }

  lemma SameConstraintFp(h: Hashing, c: Constraint)
    ensures ConstraintFp(h, c) == ConstraintFp(Complete(h), c) == ConstraintFp(Semantic(h), c)
  {
    SameConstraintEncoding(h, c);
    assert h == Complete(h) || h == Semantic(h);
  }

  /** A new view over a copied child, with the wrapper of `v`. */
  method NewWrapperView(h: Hashing, v: View, child: View) returns (r: View)
    requires Denotes(v).List? || Denotes(v).Refined?
    requires Faithful(h, child)
    ensures Faithful(h, r)
    ensures Denotes(r) == match Denotes(v) case Refined(_, c, m, n) => Refined(Denotes(child), c, m, n)
                                           case _ => List(Denotes(child))
  {
    if Denotes(v).Refined? {
      var t := Denotes(v);
      var con := ConstraintFp(h, t.con);
      var fp := h.hash(RefinedCode(Complete(h), child.fp, con, t.meta, t.name));
      var sem := if t.con == UNCONSTRAINED then child.sem
                 else h.hash(RefinedCode(Semantic(h), child.sem, con, t.meta, t.name));
      SameConstraintFp(h, t.con);
      r := RefinedView(child, t.con, t.meta, t.name, fp, sem);
    } else {
      r := ListView(child, h.hash([VERSION, 10, child.fp]), h.hash([VERSION, 10, child.sem]));
    }
  }

  // ----- the merge loop

  lemma PushView(out: seq<FieldView>, f: FieldView, rest: seq<Field>)
    ensures DenotesFields(out + [f]) + rest == DenotesFields(out) + ([DenotesFields([f])[0]] + rest)
  {
    var all := out + [f];
    forall k | 0 <= k < |all|
      ensures DenotesFields(all)[k] == if k < |out| then DenotesFields(out)[k] else DenotesFields([f])[0]
    {
    }
  }

  lemma TakeBase(base: seq<Field>, top: seq<Field>, i: nat, j: nat)
    requires i < |base| && j <= |top| && (j < |top| ==> CompareStrings(base[i].name, top[j].name) < 0)
    ensures MergeFields(base[i..], top[j..]) == [base[i]] + MergeFields(base[i + 1..], top[j..])
  {
    assert base[i..][1..] == base[i + 1..];
    if j == |top| { assert MergeFields(base[i + 1..], []) == base[i + 1..]; }
  }

  lemma TakeTop(base: seq<Field>, top: seq<Field>, i: nat, j: nat)
    requires j < |top| && i <= |base| && (i < |base| ==> CompareStrings(top[j].name, base[i].name) < 0)
    ensures MergeFields(base[i..], top[j..]) == [top[j]] + MergeFields(base[i..], top[j + 1..])
  {
    assert top[j..][1..] == top[j + 1..];
    if i < |base| { CompareStringsIsOrder(base[i].name, top[j].name); }
  }

  lemma TakeBoth(base: seq<Field>, top: seq<Field>, i: nat, j: nat)
    requires i < |base| && j < |top| && base[i].name == top[j].name
    ensures MergeFields(base[i..], top[j..]) == [top[j]] + MergeFields(base[i + 1..], top[j + 1..])
  {
    assert top[j..][1..] == top[j + 1..] && base[i..][1..] == base[i + 1..];
    CompareStringsIsOrder(base[i].name, top[j].name);
  }

  /** What the loop keeps: the fields taken, followed by the merge of the rest, and no field made up. */
  ghost predicate Merging(base: seq<FieldView>, top: seq<FieldView>, i: nat, j: nat, out: seq<FieldView>) {
    var (bs, ts) := (DenotesFields(base), DenotesFields(top));
    && i <= |base| && j <= |top|
    && DenotesFields(out) + MergeFields(bs[i..], ts[j..]) == MergeFields(bs, ts)
    && forall k :: 0 <= k < |out| ==> out[k] in base || out[k] in top
  }

  lemma MergeBase(base: seq<FieldView>, top: seq<FieldView>, i: nat, j: nat, out: seq<FieldView>)
    requires Merging(base, top, i, j, out) && i < |base|
    requires j < |top| ==> CompareStrings(base[i].name, top[j].name) < 0
    ensures Merging(base, top, i + 1, j, out + [base[i]])
  {
    var (bs, ts) := (DenotesFields(base), DenotesFields(top));
    TakeBase(bs, ts, i, j);
    PushView(out, base[i], MergeFields(bs[i + 1..], ts[j..]));
  }

  lemma MergeTop(base: seq<FieldView>, top: seq<FieldView>, i: nat, j: nat, out: seq<FieldView>)
    requires Merging(base, top, i, j, out) && j < |top|
    requires i < |base| ==> CompareStrings(top[j].name, base[i].name) < 0
    ensures Merging(base, top, i, j + 1, out + [top[j]])
  {
    var (bs, ts) := (DenotesFields(base), DenotesFields(top));
    TakeTop(bs, ts, i, j);
    PushView(out, top[j], MergeFields(bs[i..], ts[j + 1..]));
  }

  lemma MergeBoth(base: seq<FieldView>, top: seq<FieldView>, i: nat, j: nat, out: seq<FieldView>)
    requires Merging(base, top, i, j, out) && i < |base| && j < |top| && base[i].name == top[j].name
    ensures Merging(base, top, i + 1, j + 1, out + [top[j]])
  {
    var (bs, ts) := (DenotesFields(base), DenotesFields(top));
    TakeBoth(bs, ts, i, j);
    PushView(out, top[j], MergeFields(bs[i + 1..], ts[j + 1..]));
  }

  lemma MergeDone(h: Hashing, base: seq<FieldView>, top: seq<FieldView>, out: seq<FieldView>)
    requires FaithfulFields(h, base) && FaithfulFields(h, top) && Merging(base, top, |base|, |top|, out)
    ensures FaithfulFields(h, out) && DenotesFields(out) == MergeFields(DenotesFields(base), DenotesFields(top))
  {
    var (bs, ts) := (DenotesFields(base), DenotesFields(top));
    assert bs[|bs|..] == [] && ts[|ts|..] == [];
    ChosenFaithful(h, base, top, out);
  }

  /** Merge two sorted field lists, the top one winning. */
  method MergeViews(h: Hashing, base: seq<FieldView>, top: seq<FieldView>) returns (out: seq<FieldView>)
    requires FaithfulFields(h, base) && FaithfulFields(h, top)
    ensures FaithfulFields(h, out)
    ensures DenotesFields(out) == MergeFields(DenotesFields(base), DenotesFields(top))
  {
    out := [];
    var i, j := 0, 0;
    while i < |base| || j < |top|
      invariant Merging(base, top, i, j, out)
      decreases |base| - i + |top| - j
    {
      if j == |top| || (i < |base| && CompareStrings(base[i].name, top[j].name) < 0) {
        MergeBase(base, top, i, j, out);
        out := out + [base[i]];
        i := i + 1;
      } else if i == |base| || CompareStrings(top[j].name, base[i].name) < 0 {
        MergeTop(base, top, i, j, out);
        out := out + [top[j]];
        j := j + 1;
      } else {
        CompareStringsIsOrder(base[i].name, top[j].name);
        MergeBoth(base, top, i, j, out);
        out := out + [top[j]];
        i := i + 1;
        j := j + 1;
      }
    }
    MergeDone(h, base, top, out);
  }

  lemma ChosenFaithful(h: Hashing, base: seq<FieldView>, top: seq<FieldView>, out: seq<FieldView>)
    requires FaithfulFields(h, base) && FaithfulFields(h, top)
    requires forall k :: 0 <= k < |out| ==> out[k] in base || out[k] in top
    ensures FaithfulFields(h, out)
  {
  }

  // ----- overlays

  /** `overlayFields`: copy the path, share everything else, and cache the new fingerprints. */
  method OverlayView(h: Hashing, t: View, path: seq<string>, top: seq<FieldView>) returns (r: Option<View>)
    requires WellFormed(Denotes(t)) && Faithful(h, t) && FaithfulFields(h, top)
    ensures r.Some? ==> Faithful(h, r.value)
    ensures (if r.Some? then Some(Denotes(r.value)) else None) == OverlayFields(Denotes(t), path, DenotesFields(top))
    decreases Denotes(t), 1
  {
    PartsFaithful(h, t);
    if Denotes(t).List? || Denotes(t).Refined? {
      r := OverlayView(h, Child(h, t), path, top);
      if r.None? { return; }
      var v := NewWrapperView(h, t, r.value);
      r := Some(v);
    } else if Denotes(t).Object? {
      r := OverlayObject(h, t, path, top);
    } else {
      r := None;
    }
  }

  method OverlayObject(h: Hashing, t: View, path: seq<string>, top: seq<FieldView>) returns (r: Option<View>)
    requires WellFormed(Denotes(t)) && Denotes(t).Object?
    requires FaithfulFields(h, FieldViews(h, t)) && FaithfulFields(h, top)
    ensures r.Some? ==> Faithful(h, r.value)
    ensures (if r.Some? then Some(Denotes(r.value)) else None) == OverlayFields(Denotes(t), path, DenotesFields(top))
    decreases Denotes(t), 0
  {
    var fields := FieldViews(h, t);
    if path == [] {
      fields := MergeViews(h, fields, top);
    } else {
      var i := ObjectWalks.SearchField(DenotesFields(fields), path[0]);
      if i < 0 { return None; }
      var child := OverlayView(h, fields[i].view, path[1..], top);
      if child.None? { return None; }
      ReplaceView(h, fields, i, child.value);
      fields := fields[i := fields[i].(view := child.value)];
    }
    var v := NewObjectView(h, fields);
    r := Some(v);
  }

  lemma ReplaceView(h: Hashing, fs: seq<FieldView>, i: nat, v: View)
    requires i < |fs| && FaithfulFields(h, fs) && Faithful(h, v)
    ensures FaithfulFields(h, fs[i := fs[i].(view := v)])
    ensures DenotesFields(fs[i := fs[i].(view := v)]) == SetType(DenotesFields(fs), i, Denotes(v))
  {
  }

  /** `OverlayAt`: strip the patch to its object, then overlay. */
  method OverlayViewAt(h: Hashing, bottom: View, path: seq<string>, top: View) returns (r: Option<View>)
    requires WellFormed(Denotes(bottom)) && Faithful(h, bottom) && Faithful(h, top)
    ensures r.Some? ==> Faithful(h, r.value)
    ensures (if r.Some? then Some(Denotes(r.value)) else None) == OverlayAt(Denotes(bottom), path, Denotes(top))
  {
    var patch := top;
    while Denotes(patch).Refined? || Denotes(patch).List?
      invariant Faithful(h, patch) && PatchFields(Denotes(patch)) == PatchFields(Denotes(top))
      decreases Denotes(patch)
    {
      PartsFaithful(h, patch);
      if Denotes(patch).Refined? && Denotes(patch).con != UNCONSTRAINED { return None; }
      patch := Child(h, patch);
    }
    if !Denotes(patch).Object? { return None; }
    PartsFaithful(h, patch);
    r := OverlayView(h, bottom, path, FieldViews(h, patch));
  }

  /** Look through lists and refinements. */
  method InnerView(h: Hashing, t: View) returns (v: View)
    requires WellFormed(Denotes(t)) && Faithful(h, t)
    ensures WellFormed(Denotes(v)) && Faithful(h, v) && Denotes(v) == Inner(Denotes(t))
  {
    v := t;
    while Denotes(v).List? || Denotes(v).Refined?
      invariant WellFormed(Denotes(v)) && Faithful(h, v) && Inner(Denotes(v)) == Inner(Denotes(t))
      decreases Denotes(v)
    {
      PartsFaithful(h, v);
      v := Child(h, v);
    }
  }

  lemma FieldsWellFormed(t: Type)
    requires WellFormed(t) && t.Object?
    ensures SortedFields(t.fields) && forall i :: 0 <= i < |t.fields| ==> WellFormed(t.fields[i].typ)
  {
  }

  /** The type of a field below lists and refinements. */
  method FieldBelow(h: Hashing, t: View, name: string) returns (r: Option<View>)
    requires WellFormed(Denotes(t)) && Faithful(h, t)
    ensures r.Some? <==> Get(FieldsOf(Inner(Denotes(t))), name).Some?
    ensures r.Some? ==> Denotes(r.value) == Get(FieldsOf(Inner(Denotes(t))), name).value.typ
    ensures r.Some? ==> WellFormed(Denotes(r.value)) && Faithful(h, r.value)
  {
    var v := InnerView(h, t);
    if !Denotes(v).Object? { return None; }
    r := OwnField(h, v, name);
  }

  method OwnField(h: Hashing, v: View, name: string) returns (r: Option<View>)
    requires WellFormed(Denotes(v)) && Denotes(v).Object? && Faithful(h, v)
    ensures r.Some? <==> Get(Denotes(v).fields, name).Some?
    ensures r.Some? ==> Denotes(r.value) == Get(Denotes(v).fields, name).value.typ
    ensures r.Some? ==> WellFormed(Denotes(r.value)) && Faithful(h, r.value)
  {
    PartsFaithful(h, v);
    FieldsWellFormed(Denotes(v));
    var fs := FieldViews(h, v);
    var i := ObjectWalks.SearchField(DenotesFields(fs), name);
    if i < 0 { return None; }
    return Some(fs[i].view);
  }

  /** `Traverse`, as two loops. */
  method TraverseView(h: Hashing, t: View, path: seq<string>) returns (r: Option<View>)
    requires WellFormed(Denotes(t)) && Faithful(h, t)
    ensures r.Some? ==> Faithful(h, r.value)
    ensures (if r.Some? then Some(Denotes(r.value)) else None) == Traverse(Denotes(t), path)
  {
    var v := t;
    for n := 0 to |path|
      invariant WellFormed(Denotes(v)) && Faithful(h, v)
      invariant Traverse(Denotes(t), path) == Traverse(Denotes(v), path[n..])
    {
      assert path[n..][1..] == path[n + 1..];
      var next := FieldBelow(h, v, path[n]);
      if next.None? { return None; }
      v := next.value;
    }
    return Some(v);
  }
}
