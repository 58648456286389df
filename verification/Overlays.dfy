/** Overlays as updates of type trees (internal/compiled/view.go:113-309): what changes, and what does not. */
module Overlays {
  import opened Wrappers
  import opened Atoms
  import opened Constraints
  import opened Types

  // ----- the merge of two sorted field lists

  /** All fields of both, the top one where both have a name. */
  function MergeFields(base: seq<Field>, top: seq<Field>): seq<Field> {
    if base == [] then top
    else if top == [] then base
    else if CompareStrings(base[0].name, top[0].name) < 0 then [base[0]] + MergeFields(base[1..], top)
    else if CompareStrings(top[0].name, base[0].name) < 0 then [top[0]] + MergeFields(base, top[1..])
    else [top[0]] + MergeFields(base[1..], top[1..])
  }

  function Get(fs: seq<Field>, name: string): Option<Field> {
    if IndexOf(fs, name) >= 0 then Some(fs[IndexOf(fs, name)]) else None
  }

  predicate After(name: string, fs: seq<Field>) {
    forall i :: 0 <= i < |fs| ==> CompareStrings(name, fs[i].name) < 0
  }

  lemma TailAfter(fs: seq<Field>)
    requires SortedFields(fs) && fs != []
    ensures SortedFields(fs[1..]) && After(fs[0].name, fs[1..])
  {
  }

  lemma ConsFields(f: Field, fs: seq<Field>)
    requires SortedFields(fs) && After(f.name, fs)
    ensures SortedFields([f] + fs)
    ensures forall name :: Get([f] + fs, name) == if name == f.name then Some(f) else Get(fs, name)
  {
    var all := [f] + fs;
    assert SortedFields(all);
    forall name ensures Get(all, name) == if name == f.name then Some(f) else Get(fs, name) {
      var (i, k) := (IndexOf(all, name), IndexOf(fs, name));
      if name == f.name {
        assert all[0].name == name;
        SortedNamesDistinct(all, 0, i);
      }
      if k >= 0 {
        assert all[k + 1] == fs[k];
        SortedNamesDistinct(all, k + 1, i);
      }
    }
  }

  lemma GetHead(fs: seq<Field>, name: string)
    requires SortedFields(fs) && fs != []
    ensures Get(fs, name) == if name == fs[0].name then Some(fs[0]) else Get(fs[1..], name)
  {
    TailAfter(fs);
    ConsFields(fs[0], fs[1..]);
    assert [fs[0]] + fs[1..] == fs;
  }

  lemma AfterAbsent(name: string, fs: seq<Field>)
    requires After(name, fs)
    ensures Get(fs, name) == None
  {
    CompareStringsIsOrder(name, name);
  }

  lemma AfterTransitive(a: string, b: string, fs: seq<Field>)
    requires CompareStrings(a, b) < 0 && After(b, fs)
    ensures After(a, fs)
  {
    forall i | 0 <= i < |fs| ensures CompareStrings(a, fs[i].name) < 0 {
      CompareStringsTransitive(a, b, fs[i].name);
    }
  }

  lemma {:induction false} MergeAfter(name: string, base: seq<Field>, top: seq<Field>)
    requires After(name, base) && After(name, top)
    ensures After(name, MergeFields(base, top))
  {
    if base != [] && top != [] {
      assert After(name, base[1..]) && After(name, top[1..]);
      MergeAfter(name, base[1..], top);
      MergeAfter(name, base, top[1..]);
      MergeAfter(name, base[1..], top[1..]);
    }
  }

  predicate MergeOf(base: seq<Field>, top: seq<Field>, out: seq<Field>, name: string) {
    Get(out, name) == if Get(top, name).Some? then Get(top, name) else Get(base, name)
  }

  /** The merge is sorted, duplicate-free, and right-biased, for every name. */
  lemma {:induction false} MergeExact(base: seq<Field>, top: seq<Field>)
    requires SortedFields(base) && SortedFields(top)
    ensures SortedFields(MergeFields(base, top))
    ensures forall name :: MergeOf(base, top, MergeFields(base, top), name)
    decreases |base| + |top|, 1
  {
    if base != [] && top != [] {
      TailAfter(base);
      TailAfter(top);
      CompareStringsIsOrder(base[0].name, top[0].name);
      if CompareStrings(base[0].name, top[0].name) < 0 {
        MergeStep(base, top, base[0], base[1..], top);
      } else if CompareStrings(top[0].name, base[0].name) < 0 {
        MergeStep(base, top, top[0], base, top[1..]);
      } else {
        MergeStep(base, top, top[0], base[1..], top[1..]);
      }
    }
  }

  /** One turn of the merge: the smaller head goes first. */
  lemma {:induction false} MergeStep(base: seq<Field>, top: seq<Field>, f: Field, base': seq<Field>, top': seq<Field>)
    requires SortedFields(base) && SortedFields(top) && base != [] && top != []
    requires SortedFields(base') && SortedFields(top') && |base'| + |top'| < |base| + |top|
    requires
      (CompareStrings(base[0].name, top[0].name) < 0 && f == base[0] && base' == base[1..] && top' == top) ||
      (CompareStrings(top[0].name, base[0].name) < 0 && f == top[0] && base' == base && top' == top[1..]) ||
      (top[0].name == base[0].name && f == top[0] && base' == base[1..] && top' == top[1..])
    ensures var out := [f] + MergeFields(base', top');
      SortedFields(out) && forall name :: MergeOf(base, top, out, name)
    decreases |base| + |top|, 0
  {
    MergeExact(base', top');
    TailAfter(base);
    TailAfter(top);
    if f == base[0] && top' == top { HeadBefore(f.name, top); }
    if f == top[0] && base' == base { HeadBefore(f.name, base); }
    MergeAfter(f.name, base', top');
    ConsFields(f, MergeFields(base', top'));
    var out := [f] + MergeFields(base', top');
    forall name ensures MergeOf(base, top, out, name) {
      assert MergeOf(base', top', MergeFields(base', top'), name);
      GetHead(base, name);
      GetHead(top, name);
      AfterAbsent(f.name, base');
      AfterAbsent(f.name, top');
    }
  }

  lemma HeadBefore(name: string, fs: seq<Field>)
    requires SortedFields(fs) && fs != [] && CompareStrings(name, fs[0].name) < 0
    ensures After(name, fs)
  {
    TailAfter(fs);
    AfterTransitive(name, fs[0].name, fs[1..]);
  }

  /** A sorted field list is determined by what looking names up in it finds. */
  lemma {:induction false} FieldsUnique(a: seq<Field>, b: seq<Field>)
    requires SortedFields(a) && SortedFields(b) && forall name :: Get(a, name) == Get(b, name)
    ensures a == b
  {
    if a == [] {
      if b != [] { GetHead(b, b[0].name); }
    } else {
      GetHead(a, a[0].name);
      assert Get(b, a[0].name) == Some(a[0]);
      assert b != [];
      GetHead(b, b[0].name);
      assert Get(a, b[0].name) == Some(b[0]);
      SameFirst(a, b);
      TailAfter(a);
      TailAfter(b);
      forall name ensures Get(a[1..], name) == Get(b[1..], name) {
        assert Get(a, name) == Get(b, name);
        GetHead(a, name);
        GetHead(b, name);
        if name == a[0].name {
          AfterAbsent(name, a[1..]);
          AfterAbsent(name, b[1..]);
        }
      }
      FieldsUnique(a[1..], b[1..]);
      assert a == [a[0]] + a[1..] && b == [b[0]] + b[1..];
    }
  }

  lemma HeadLeast(fs: seq<Field>, i: nat)
    requires SortedFields(fs) && i < |fs|
    ensures CompareStrings(fs[0].name, fs[i].name) <= 0
  {
    CompareStringsIsOrder(fs[0].name, fs[0].name);
  }

  lemma SameFirst(a: seq<Field>, b: seq<Field>)
    requires SortedFields(a) && SortedFields(b) && a != [] && b != []
    requires Get(b, a[0].name) == Some(a[0]) && Get(a, b[0].name) == Some(b[0])
    ensures a[0] == b[0]
  {
    var (i, j) := (IndexOf(b, a[0].name), IndexOf(a, b[0].name));
    CompareStringsIsOrder(a[0].name, b[0].name);
    HeadLeast(b, i);
    HeadLeast(a, j);
    GetHead(b, b[0].name);
  }

  /** Merging is idempotent and associative, and an empty side is neutral. */
  lemma MergeLaws(a: seq<Field>, b: seq<Field>, c: seq<Field>)
    requires SortedFields(a) && SortedFields(b) && SortedFields(c)
    ensures MergeFields(MergeFields(a, b), b) == MergeFields(a, b)
    ensures MergeFields(MergeFields(a, b), c) == MergeFields(a, MergeFields(b, c))
    ensures MergeFields(a, []) == a && MergeFields([], a) == a
  {
    var (ab, bc) := (MergeFields(a, b), MergeFields(b, c));
    MergeExact(a, b);
    MergeExact(b, c);
    MergeExact(ab, b);
    MergeExact(ab, c);
    MergeExact(a, bc);
    forall name ensures Get(MergeFields(ab, b), name) == Get(ab, name) {
      assert MergeOf(a, b, ab, name) && MergeOf(ab, b, MergeFields(ab, b), name);
    }
    FieldsUnique(MergeFields(ab, b), ab);
    forall name ensures Get(MergeFields(ab, c), name) == Get(MergeFields(a, bc), name) {
      assert MergeOf(a, b, ab, name) && MergeOf(ab, c, MergeFields(ab, c), name);
      assert MergeOf(b, c, bc, name) && MergeOf(a, bc, MergeFields(a, bc), name);
    }
    FieldsUnique(MergeFields(ab, c), MergeFields(a, bc));
  }

  // ----- overlays

  /** The fields a patch brings: below lists and metadata wrappers; a constrained wrapper is an error. */
  function PatchFields(top: Type): Option<seq<Field>> {
    match top
    case Refined(b, c, _, _) => if c != UNCONSTRAINED then None else PatchFields(b)
    case List(e) => PatchFields(e)
    case Object(fs) => Some(fs)
    case _ => None
  }

  /** The fields with another type at one position. */
  function SetType(fs: seq<Field>, i: nat, t: Type): (r: seq<Field>)
    requires i < |fs|
  {
    fs[i := Field(fs[i].name, t, fs[i].optional, fs[i].meta)]
  }

  /** `overlayFields`. */
  function OverlayFields(t: Type, path: seq<string>, top: seq<Field>): Option<Type> {
    match t
    case List(e) =>
      if OverlayFields(e, path, top).None? then None else Some(List(OverlayFields(e, path, top).value))
    case Refined(b, c, m, n) =>
      if OverlayFields(b, path, top).None? then None else Some(Refined(OverlayFields(b, path, top).value, c, m, n))
    case Object(fs) =>
      if path == [] then Some(Object(MergeFields(fs, top)))
      else
        var i := IndexOf(fs, path[0]);
        if i < 0 || OverlayFields(fs[i].typ, path[1..], top).None? then None
        else Some(Object(SetType(fs, i, OverlayFields(fs[i].typ, path[1..], top).value)))
    case _ => None
  }

  /** `OverlayAt`. */
  function OverlayAt(bottom: Type, path: seq<string>, top: Type): Option<Type> {
    if PatchFields(top).None? then None else OverlayFields(bottom, path, PatchFields(top).value)
  }

  /** The type under lists and refinements. */
  function Inner(t: Type): (k: Type)
    ensures !k.List? && !k.Refined?
    ensures Size(k) <= Size(t)
  {
    match t
    case List(e) => Inner(e)
    case Refined(b, _, _, _) => Inner(b)
    case _ => t
  }

  function FieldsOf(t: Type): seq<Field> {
    if t.Object? then t.fields else []
  }

  /** `Traverse`: follow field names, looking through lists and refinements. */
  function Traverse(t: Type, path: seq<string>): Option<Type>
    decreases |path|
  {
    if path == [] then Some(t)
    else
      var f := Get(FieldsOf(Inner(t)), path[0]);
      if f.None? then None else Traverse(f.value.typ, path[1..])
  }

  // ----- laws

  /** An overlay goes through the wrappers unchanged. */
  lemma {:induction false} OverlayInner(t: Type, path: seq<string>, top: seq<Field>)
    ensures OverlayFields(t, path, top).Some? <==> OverlayFields(Inner(t), path, top).Some?
    ensures OverlayFields(t, path, top).Some? ==>
      Inner(t).Object? && Inner(OverlayFields(t, path, top).value) == OverlayFields(Inner(t), path, top).value
    decreases t
  {
    match t
    case List(e) => OverlayInner(e, path, top);
    case Refined(b, _, _, _) => OverlayInner(b, path, top);
    case _ =>
  }

  lemma UpdateField(fs: seq<Field>, i: nat, t: Type)
    requires SortedFields(fs) && i < |fs|
    ensures SortedFields(SetType(fs, i, t))
    ensures forall name ::
      Get(SetType(fs, i, t), name) == (if name == fs[i].name then Some(SetType(fs, i, t)[i]) else Get(fs, name))
  {
    var fs' := SetType(fs, i, t);
    forall name ensures Get(fs', name) == if name == fs[i].name then Some(fs'[i]) else Get(fs, name) {
      var (j, k) := (IndexOf(fs, name), IndexOf(fs', name));
      if j >= 0 {
        assert fs'[j].name == name;
        SortedNamesDistinct(fs', j, k);
      }
      if name == fs[i].name { SortedNamesDistinct(fs, i, j); }
    }
  }

  /** An overlay succeeds exactly where its path leads to an object. */
  lemma {:induction false} OverlaySucceeds(t: Type, path: seq<string>, top: seq<Field>)
    ensures OverlayFields(t, path, top).Some? <==> Traverse(t, path).Some? && Inner(Traverse(t, path).value).Object?
    decreases |path|
  {
    OverlayInner(t, path, top);
    var k := Inner(t);
    if path != [] && k.Object? && IndexOf(k.fields, path[0]) >= 0 {
      OverlaySucceeds(k.fields[IndexOf(k.fields, path[0])].typ, path[1..], top);
    }
  }

  lemma {:induction false} InnerWellFormed(t: Type)
    requires WellFormed(t)
    ensures WellFormed(Inner(t))
    decreases t
  {
    match t
    case List(e) => InnerWellFormed(e);
    case Refined(b, _, _, _) => InnerWellFormed(b);
    case _ =>
  }

  /** At the path stands the merged object, under the same wrappers. */
  lemma {:induction false} OverlayHits(t: Type, path: seq<string>, top: seq<Field>)
    requires WellFormed(t) && OverlayFields(t, path, top).Some?
    ensures Traverse(t, path).Some? && OverlayFields(Traverse(t, path).value, [], top).Some?
    ensures Traverse(OverlayFields(t, path, top).value, path) == OverlayFields(Traverse(t, path).value, [], top)
    decreases |path|
  {
    if path != [] {
      var r := OverlayFields(t, path, top).value;
      OverlayInner(t, path, top);
      InnerWellFormed(t);
      var fs := Inner(t).fields;
      var i := IndexOf(fs, path[0]);
      var child := OverlayFields(fs[i].typ, path[1..], top).value;
      UpdateField(fs, i, child);
      assert Inner(r) == Object(SetType(fs, i, child));
      assert Get(SetType(fs, i, child), path[0]) == Some(SetType(fs, i, child)[i]);
      OverlayHits(fs[i].typ, path[1..], top);
    }
  }

  /** Where two paths part. */
  predicate Diverge(p: seq<string>, q: seq<string>, k: nat) {
    k < |p| && k < |q| && p[..k] == q[..k] && p[k] != q[k]
  }

  /** Off the path nothing changes. */
  lemma {:induction false} OverlayMisses(t: Type, path: seq<string>, top: seq<Field>, other: seq<string>, k: nat)
    requires WellFormed(t) && OverlayFields(t, path, top).Some? && Diverge(path, other, k)
    ensures Traverse(OverlayFields(t, path, top).value, other) == Traverse(t, other)
    decreases |path|
  {
    OverlayInner(t, path, top);
    InnerWellFormed(t);
    var fs := Inner(t).fields;
    var i := IndexOf(fs, path[0]);
    UpdateField(fs, i, OverlayFields(fs[i].typ, path[1..], top).value);
    if k > 0 {
      assert path[..k][0] == other[..k][0];
      assert path[1..][..k - 1] == path[..k][1..] && other[1..][..k - 1] == other[..k][1..];
      OverlayMisses(fs[i].typ, path[1..], top, other[1..], k - 1);
    }
  }

  /** Below the path a field is the patch's if the patch has it, and otherwise the base's. */
  lemma OverlayField(t: Type, path: seq<string>, top: seq<Field>, name: string)
    requires WellFormed(t) && SortedFields(top) && OverlayFields(t, path, top).Some?
    ensures var r := OverlayFields(t, path, top).value;
      && Traverse(t, path).Some? && Traverse(r, path).Some?
      && Get(FieldsOf(Inner(Traverse(r, path).value)), name) ==
         if Get(top, name).Some? then Get(top, name) else Get(FieldsOf(Inner(Traverse(t, path).value)), name)
  {
    OverlayHits(t, path, top);
    var at := Traverse(t, path).value;
    TraverseWellFormed(t, path);
    InnerWellFormed(at);
    OverlayHere(at, top);
    MergeExact(Inner(at).fields, top);
    assert MergeOf(Inner(at).fields, top, MergeFields(Inner(at).fields, top), name);
  }

  lemma OverlayHere(t: Type, top: seq<Field>)
    requires OverlayFields(t, [], top).Some?
    ensures Inner(t).Object? && Inner(OverlayFields(t, [], top).value) == Object(MergeFields(Inner(t).fields, top))
  {
    OverlayInner(t, [], top);
  }

  lemma {:induction false} TraverseWellFormed(t: Type, path: seq<string>)
    requires WellFormed(t)
    ensures Traverse(t, path).Some? ==> WellFormed(Traverse(t, path).value)
    decreases |path|
  {
    if path != [] {
      InnerWellFormed(t);
      var fs := FieldsOf(Inner(t));
      if Get(fs, path[0]).Some? { TraverseWellFormed(Get(fs, path[0]).value.typ, path[1..]); }
    }
  }

  /** Overlaying the same patch twice changes nothing more. */
  lemma {:induction false} OverlayTwice(t: Type, path: seq<string>, top: seq<Field>)
    requires WellFormed(t) && SortedFields(top) && OverlayFields(t, path, top).Some?
    ensures OverlayFields(OverlayFields(t, path, top).value, path, top) == OverlayFields(t, path, top)
    decreases |path|, t
  {
    match t
    case List(e) => OverlayTwice(e, path, top);
    case Refined(b, _, _, _) => OverlayTwice(b, path, top);
    case Object(fs) =>
      if path == [] {
        MergeLaws(fs, top, []);
      } else {
        var i := IndexOf(fs, path[0]);
        var child := OverlayFields(fs[i].typ, path[1..], top).value;
        OverlayTwice(fs[i].typ, path[1..], top);
        UpdateField(fs, i, child);
        var fs' := SetType(fs, i, child);
        assert Get(fs', path[0]) == Some(fs'[i]);
        SortedNamesDistinct(fs', i, IndexOf(fs', path[0]));
        assert SetType(fs', i, child) == fs';
      }
  }

  /** An overlay of well-formed types is well-formed. */
  lemma {:induction false} OverlayWellFormed(t: Type, path: seq<string>, top: seq<Field>)
    requires WellFormed(t) && WellFormed(Object(top)) && OverlayFields(t, path, top).Some?
    ensures WellFormed(OverlayFields(t, path, top).value)
    decreases |path|, t
  {
    match t
    case List(e) => OverlayWellFormed(e, path, top);
    case Refined(b, _, _, _) => OverlayWellFormed(b, path, top);
    case Object(fs) =>
      if path == [] {
        MergeExact(fs, top);
        MergeMembers(fs, top);
        var out := MergeFields(fs, top);
        forall k | 0 <= k < |out| ensures WellFormed(out[k].typ) { assert out[k] in out; }
      } else {
        var i := IndexOf(fs, path[0]);
        OverlayWellFormed(fs[i].typ, path[1..], top);
        UpdateField(fs, i, OverlayFields(fs[i].typ, path[1..], top).value);
      }
  }

  lemma {:induction false} MergeMembers(base: seq<Field>, top: seq<Field>)
    ensures forall f :: f in MergeFields(base, top) ==> f in base || f in top
  {
    if base != [] && top != [] {
      MergeMembers(base[1..], top);
      MergeMembers(base, top[1..]);
      MergeMembers(base[1..], top[1..]);
    }
  }
}
