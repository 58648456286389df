/** The hash-consing arena (internal/compiled/arena.go): append-only tables of nodes and constraints in which
  * every tree has one ID, whatever the hash function. */
module Arenas {
  import opened Wrappers
  import opened Atoms
  import opened Constraints
  import opened Types
  import opened HashTables
  import opened Nodes
  import opened Fingerprints
  import opened Order
  import Clauses
  import opened Soundness
  import opened Sums
  import opened Names

  // ----- encodings only look at rows that are already there

  lemma {:induction false} FieldRowsStable(h: Hashing, fps: seq<nat>, fps': seq<nat>, fs: seq<FieldRow>, withMeta: bool)
    requires fps <= fps' && forall i :: 0 <= i < |fs| ==> 1 <= fs[i].value <= |fps|
    ensures FieldRowsEncoding(h, fps', fs, withMeta) == FieldRowsEncoding(h, fps, fs, withMeta)
  {
    if fs != [] { FieldRowsStable(h, fps, fps', fs[..|fs| - 1], withMeta); }
  }

  lemma FpsOfStable(fps: seq<nat>, fps': seq<nat>, ids: seq<nat>)
    requires fps <= fps' && forall i :: 0 <= i < |ids| ==> 1 <= ids[i] <= |fps|
    ensures FpsOf(fps', ids) == FpsOf(fps, ids)
  {
  }

  lemma NodeEncodingStable(h: Hashing, fps: seq<nat>, fps': seq<nat>, conFps: seq<nat>, conFps': seq<nat>, n: Node)
    requires fps <= fps' && conFps <= conFps' && ChildrenBelow(n, |fps| + 1, |conFps|)
    ensures ChildrenBelow(n, |fps'| + 1, |conFps'|)
    ensures NodeEncoding(h, fps', conFps', n) == NodeEncoding(h, fps, conFps, n)
  {
    match n
    case TupleNode(es) => FpsOfStable(fps, fps', es);
    case SumNode(ms) => FpsOfStable(fps, fps', ms);
    case ObjectNode(fs) => FieldRowsStable(h, fps, fps', fs, !h.semantic && AnyRowMeta(fs));
    case _ =>
  }

  lemma NodeFpStable(h: Hashing, fps: seq<nat>, fps': seq<nat>, conFps: seq<nat>, conFps': seq<nat>, n: Node)
    requires fps <= fps' && conFps <= conFps' && ChildrenBelow(n, |fps| + 1, |conFps|)
    ensures ChildrenBelow(n, |fps'| + 1, |conFps'|) && NodeFp(h, fps', conFps', n) == NodeFp(h, fps, conFps, n)
  {
    NodeEncodingStable(h, fps, fps', conFps, conFps', n);
  }

  lemma RowOkStable(nodes: seq<Node>, nodes': seq<Node>, c: ConstraintRow)
    requires nodes <= nodes' && RowOk(nodes, c)
    ensures RowOk(nodes', c)
  {
    if c.enum.Some? {
      forall i | 0 <= i < |c.enum.value| ensures IsAtom(nodes', c.enum.value[i]) {
        assert IsAtom(nodes, c.enum.value[i]);
      }
    }
  }

  lemma RowEncodingStable(h: Hashing, nodes: seq<Node>, nodes': seq<Node>, fps: seq<nat>, fps': seq<nat>, c: ConstraintRow)
    requires nodes <= nodes' && fps <= fps' && |fps| == |nodes| && |fps'| == |nodes'| && RowOk(nodes, c)
    ensures RowOk(nodes', c) && RowEncoding(h, nodes', fps', c) == RowEncoding(h, nodes, fps, c)
  {
    RowOkStable(nodes, nodes', c);
    if c.enum.Some? {
      forall i | 0 <= i < |c.enum.value| ensures 1 <= c.enum.value[i] <= |fps| {
        assert IsAtom(nodes, c.enum.value[i]);
      }
      FpsOfStable(fps, fps', c.enum.value);
    }
  }

  lemma AppendNodeHashed(h: Hashing, nodes: seq<Node>, rows: seq<ConstraintRow>, fps: seq<nat>, conFps: seq<nat>, n: Node)
    requires Hashed(h, nodes, rows, fps, conFps) && ChildrenBelow(n, |nodes| + 1, |rows|)
    ensures Hashed(h, nodes + [n], rows, fps + [NodeFp(h, fps, conFps, n)], conFps)
  {
    var (nodes', fps') := (nodes + [n], fps + [NodeFp(h, fps, conFps, n)]);
    forall k | 0 <= k < |nodes'| ensures ChildrenBelow(nodes'[k], k + 1, |rows|) && NodeHashed(h, nodes', fps', conFps, k) {
      if k < |nodes| {
        assert NodeHashed(h, nodes, fps, conFps, k);
        assert fps'[..k] == fps[..k];
      } else {
        assert fps'[..k] == fps;
      }
    }
    forall c | 0 <= c < |rows| ensures RowHashed(h, nodes', rows, fps', conFps, c) {
      assert RowHashed(h, nodes, rows, fps, conFps, c);
      RowEncodingStable(h, nodes, nodes', fps, fps', rows[c]);
    }
  }

  lemma AppendRowHashed(h: Hashing, nodes: seq<Node>, rows: seq<ConstraintRow>, fps: seq<nat>, conFps: seq<nat>, c: ConstraintRow)
    requires Hashed(h, nodes, rows, fps, conFps) && RowOk(nodes, c)
    ensures Hashed(h, nodes, rows + [c], fps, conFps + [h.hash(RowEncoding(h, nodes, fps, c))])
  {
    var (rows', conFps') := (rows + [c], conFps + [h.hash(RowEncoding(h, nodes, fps, c))]);
    forall k | 0 <= k < |nodes| ensures ChildrenBelow(nodes[k], k + 1, |rows'|) && NodeHashed(h, nodes, fps, conFps', k) {
      assert NodeHashed(h, nodes, fps, conFps, k);
      NodeFpStable(h, fps[..k], fps[..k], conFps, conFps', nodes[k]);
    }
    forall k | 0 <= k < |rows'| ensures RowHashed(h, nodes, rows', fps, conFps', k) {
      if k < |rows| { assert RowHashed(h, nodes, rows, fps, conFps, k); }
    }
  }

  /** The fingerprint is a function of the row, so equal rows are in one chain. */
  lemma NodeFpIsFunction(h: Hashing, nodes: seq<Node>, rows: seq<ConstraintRow>, fps: seq<nat>, conFps: seq<nat>, k: nat)
    requires Hashed(h, nodes, rows, fps, conFps) && k < |nodes|
    ensures ChildrenBelow(nodes[k], |nodes| + 1, |rows|)
    ensures fps[k] == NodeFp(h, fps, conFps, nodes[k])
  {
    assert NodeHashed(h, nodes, fps, conFps, k);
    NodeFpStable(h, fps[..k], fps, conFps, conFps, nodes[k]);
  }

  lemma TreesStable(nodes: seq<Node>, rows: seq<ConstraintRow>, nodes': seq<Node>, rows': seq<ConstraintRow>)
    requires Ordered(nodes, rows) && Ordered(nodes', rows') && Extends(nodes, rows, nodes', rows')
    ensures forall i :: 1 <= i <= |nodes| ==> Tree(nodes', rows', i) == Tree(nodes, rows, i)
  {
    forall i | 1 <= i <= |nodes| ensures Tree(nodes', rows', i) == Tree(nodes, rows, i) {
      TreeStable(nodes, rows, nodes', rows', i);
    }
  }

  /** Interning a row under its own hash keeps everything hashed and every old tree. */
  lemma InternedHashed(h: Hashing, nodes: seq<Node>, rows: seq<ConstraintRow>, fps: seq<nat>, conFps: seq<nat>, n: Node,
                       nodes': seq<Node>, fps': seq<nat>)
    requires Hashed(h, nodes, rows, fps, conFps) && ChildrenBelow(n, |nodes| + 1, |rows|)
    requires if n in nodes then nodes' == nodes && fps' == fps
             else nodes' == nodes + [n] && fps' == fps + [NodeFp(h, fps, conFps, n)]
    ensures Hashed(h, nodes', rows, fps', conFps) && nodes <= nodes' && fps <= fps'
    ensures forall i :: 1 <= i <= |nodes| ==> Tree(nodes', rows, i) == Tree(nodes, rows, i)
  {
    if n !in nodes { AppendNodeHashed(h, nodes, rows, fps, conFps, n); }
    TreesStable(nodes, rows, nodes', rows);
  }

  /** The same for both tables of fingerprints. */
  lemma InternedInBoth(h: Hashing, nodes: seq<Node>, rows: seq<ConstraintRow>, fps: seq<nat>, sems: seq<nat>,
                       conFps: seq<nat>, n: Node, nodes': seq<Node>, fps': seq<nat>, sems': seq<nat>)
    requires Hashed(Complete(h), nodes, rows, fps, conFps) && Hashed(Semantic(h), nodes, rows, sems, conFps)
    requires ChildrenBelow(n, |nodes| + 1, |rows|)
    requires if n in nodes then nodes' == nodes && fps' == fps && sems' == sems
             else nodes' == nodes + [n] && fps' == fps + [NodeFp(Complete(h), fps, conFps, n)] &&
                  sems' == sems + [NodeFp(Semantic(h), sems, conFps, n)]
    ensures Hashed(Complete(h), nodes', rows, fps', conFps) && Hashed(Semantic(h), nodes', rows, sems', conFps)
    ensures nodes <= nodes' && fps <= fps' && sems <= sems'
    ensures forall i :: 1 <= i <= |nodes| ==> Tree(nodes', rows, i) == Tree(nodes, rows, i)
  {
    InternedHashed(Complete(h), nodes, rows, fps, conFps, n, nodes', fps');
    InternedHashed(Semantic(h), nodes, rows, sems, conFps, n, nodes', sems');
  }

  lemma LeavesHashed(h: Hashing, nodes: seq<Node>, fps: seq<nat>)
    requires |fps| == |nodes| && forall k :: 0 <= k < |nodes| ==>
      (nodes[k].AnyNode? || nodes[k].NeverNode? || nodes[k].BoolNode?) && fps[k] == NodeFp(h, [], [], nodes[k])
    ensures Hashed(h, nodes, [], fps, [])
  {
  }

  lemma FoundHash(h: Hashing, nodes: seq<Node>, rows: seq<ConstraintRow>, fps: seq<nat>, conFps: seq<nat>, n: Node)
    requires Hashed(h, nodes, rows, fps, conFps) && ChildrenBelow(n, |nodes| + 1, |rows|)
    ensures forall k :: 0 <= k < |nodes| && nodes[k] == n ==> fps[k] == NodeFp(h, fps, conFps, n)
  {
    forall k | 0 <= k < |nodes| && nodes[k] == n ensures fps[k] == NodeFp(h, fps, conFps, n) {
      NodeFpIsFunction(h, nodes, rows, fps, conFps, k);
    }
  }

  lemma RangeRow(nodes: seq<Node>, min: nat, max: nat)
    requires IsInt(nodes, min) && IsInt(nodes, max)
    ensures var row := EMPTY_ROW.(intMin := min, intMax := max);
      RowOk(nodes, row) && RowTree(nodes, row) == RangeType((AtomAt(nodes, min).i, AtomAt(nodes, max).i)).con
  {
  }

  function MembersAt(nodes: seq<Node>, rows: seq<ConstraintRow>, fps: seq<nat>, ids: seq<nat>): (ms: seq<Member>)
    requires Ordered(nodes, rows) && |fps| == |nodes| && forall i :: 0 <= i < |ids| ==> 1 <= ids[i] <= |nodes|
  {
    seq(|ids|, i requires 0 <= i < |ids| => Member(ids[i], fps[ids[i] - 1], Tree(nodes, rows, ids[i])))
  }

  /** A refinement, unless it would say nothing. */
  function Rewrap(base: Type, c: Constraint, meta: nat, name: string): Type {
    if c == UNCONSTRAINED && meta == 0 && name == "" then base else Refined(base, c, meta, name)
  }

  const RowName: FieldRow -> string := (f: FieldRow) => f.name

  lemma RowFpIsFunction(h: Hashing, nodes: seq<Node>, rows: seq<ConstraintRow>, fps: seq<nat>, conFps: seq<nat>,
                        c: ConstraintRow)
    requires Hashed(h, nodes, rows, fps, conFps) && RowOk(nodes, c)
    ensures forall k :: 0 <= k < |rows| && rows[k] == c ==> conFps[k] == h.hash(RowEncoding(h, nodes, fps, c))
  {
    forall k | 0 <= k < |rows| && rows[k] == c ensures conFps[k] == h.hash(RowEncoding(h, nodes, fps, c)) {
      assert RowHashed(h, nodes, rows, fps, conFps, k);
    }
  }

  lemma InternedRowHashed(h: Hashing, nodes: seq<Node>, rows: seq<ConstraintRow>, fps: seq<nat>, conFps: seq<nat>,
                          c: ConstraintRow, rows': seq<ConstraintRow>, conFps': seq<nat>)
    requires Hashed(h, nodes, rows, fps, conFps) && RowOk(nodes, c)
    requires if c in rows then rows' == rows && conFps' == conFps
             else rows' == rows + [c] && conFps' == conFps + [h.hash(RowEncoding(h, nodes, fps, c))]
    ensures Hashed(h, nodes, rows', fps, conFps') && rows <= rows'
    ensures forall i :: 1 <= i <= |nodes| ==> Tree(nodes, rows', i) == Tree(nodes, rows, i)
  {
    if c !in rows { AppendRowHashed(h, nodes, rows, fps, conFps, c); }
    TreesStable(nodes, rows, nodes, rows');
  }

  /** A union admits what one of its members admits. */
  lemma UnionAccepts(t: Type, keep: seq<Member>, v: Type)
    requires t.Sum? && |t.members| == |keep| && forall i :: 0 <= i < |keep| ==> t.members[i] == keep[i].typ
    ensures Accepts(t, v) <==> SomeAccepts(Elements(keep), v)
  {
    forall i | 0 <= i < |keep| ensures Accepts(t.members[i], LiteralBase(v)) == Accepts(keep[i].typ, v) {
      AcceptsLooksThroughRefinements(keep[i].typ, v);
    }
    SomeElement(keep, v);
    assert Accepts(t, v) <==> exists i :: 0 <= i < |keep| && Accepts(t.members[i], LiteralBase(v));
  }

  lemma SomeElement(keep: seq<Member>, v: Type)
    ensures SomeAccepts(Elements(keep), v) <==> exists i :: 0 <= i < |keep| && Accepts(keep[i].typ, v)
  {
    if SomeAccepts(Elements(keep), v) {
      var m :| m in Elements(keep) && Accepts(m.typ, v);
      var i :| 0 <= i < |keep| && keep[i] == m;
    }
    if i :| 0 <= i < |keep| && Accepts(keep[i].typ, v) {
      assert keep[i] in Elements(keep);
    }
  }

  /** The IDs of the built-in types other than `any`, `never` and `bool`. */
  datatype Builtins =
    Builtins(nil: nat, int_: nat, real_: nat, str: nat, f32: nat, f64: nat, ints: seq<nat>)

  /** The bounded integers: signed and unsigned, of 8, 16, 32 and 64 bits. */
  const RANGES: seq<(int, int)> :=
    [(-0x80, 0x7f), (-0x8000, 0x7fff), (-0x8000_0000, 0x7fff_ffff), (-0x8000_0000_0000_0000, 0x7fff_ffff_ffff_ffff),
     (0, 0xff), (0, 0xffff), (0, 0xffff_ffff), (0, 0xffff_ffff_ffff_ffff)]

  function RangeType(range: (int, int)): Type {
    Refined(Int, UNCONSTRAINED.(ints := IntBounds(Some(range.0), Some(range.1))), 0, "")
  }

  function FloatType(f: FloatFormat): Type {
    Refined(Real, UNCONSTRAINED.(format := f), 0, "")
  }

  /** The rows of `any`, `never` and `bool`, with their fingerprints. */
  method FirstRows(h: Hashing) returns (t: HashTable<Node>)
    ensures fresh(t) && t.Valid() && t.entries == [AnyNode, NeverNode, BoolNode]
    ensures Hashed(Complete(h), t.entries, [], t.fps, []) && Hashed(Semantic(h), t.entries, [], t.sems, [])
  {
    t := new HashTable<Node>();
    var a := t.Intern(AnyNode, NodeFp(Complete(h), [], [], AnyNode), NodeFp(Semantic(h), [], [], AnyNode));
    var n := t.Intern(NeverNode, NodeFp(Complete(h), [], [], NeverNode), NodeFp(Semantic(h), [], [], NeverNode));
    var b := t.Intern(BoolNode, NodeFp(Complete(h), [], [], BoolNode), NodeFp(Semantic(h), [], [], BoolNode));
    LeavesHashed(Complete(h), t.entries, t.fps);
    LeavesHashed(Semantic(h), t.entries, t.sems);
  }

  class Arena {
    const h: Hashing
    const types: HashTable<Node>
    const constraints: HashTable<ConstraintRow>
    const any: nat
    const never: nat
    const bool_: nat
    var builtins: Builtins

    /** Children precede parents, every fingerprint is the hash of its row, the builtins are in place, and
      * (by the tables' own validity) rows are distinct and chains are complete. */
    ghost predicate Valid()
      reads types, constraints
    {
      && types.Valid() && constraints.Valid()
      && Hashed(Complete(h), types.entries, constraints.entries, types.fps, constraints.fps)
      && Hashed(Semantic(h), types.entries, constraints.entries, types.sems, constraints.fps)
      && IsRow(any, AnyNode) && IsRow(never, NeverNode) && IsRow(bool_, BoolNode)
    }

    predicate IsRow(id: nat, n: Node)
      reads types
    {
      1 <= id <= |types.entries| && types.entries[id - 1] == n
    }

    ghost predicate IsType(id: nat)
      reads types
    {
      1 <= id <= |types.entries|
    }

    /** The tree an ID denotes. */
    ghost function TreeOf(id: nat): Type
      requires Valid() && IsType(id)
      reads types, constraints
    {
      Tree(types.entries, constraints.entries, id)
    }

    /** An empty arena with the built-in types. */
    constructor (h: Hashing)
      ensures Valid() && this.h == h && fresh(types) && fresh(constraints)
      ensures BuiltinsPresent()
    {
      var t := FirstRows(h);
      var c := new HashTable<ConstraintRow>();
      this.h, types, constraints, any, never, bool_ := h, t, c, 1, 2, 3;
      builtins := Builtins(0, 0, 0, 0, 0, 0, []);
      new;
      InternBuiltins();
    }

    method InternBuiltins()
      requires Valid()
      modifies this`builtins, types, constraints
      ensures Valid()
      ensures BuiltinsPresent()
    {
      var b := InternAll();
      builtins := b;
    }

    method InternAll() returns (b: Builtins)
      requires Valid()
      modifies types, constraints
      ensures Valid() && AllPresent(b)
    {
      b := InternScalars();
      b := InternFormats(b);
      b := InternInts(b);
    }

    /** The other built-in types, by the trees of their IDs. */
    ghost predicate BuiltinsPresent()
      requires Valid()
      reads this`builtins, types, constraints
    {
      AllPresent(builtins)
    }

    ghost predicate AllPresent(b: Builtins)
      requires Valid()
      reads types, constraints
    {
      ScalarsPresent(b) && FormatsPresent(b) && RangesPresent(b.ints)
    }

    ghost predicate ScalarsPresent(b: Builtins)
      requires Valid()
      reads types, constraints
    {
      && Denotes(b.nil, Lit(NullAtom)) && Denotes(b.int_, Int) && Denotes(b.real_, Real) && Denotes(b.str, String)
    }

    ghost predicate FormatsPresent(b: Builtins)
      requires Valid()
      reads types, constraints
    {
      Denotes(b.f32, FloatType(F32)) && Denotes(b.f64, FloatType(F64))
    }

    ghost predicate RangesPresent(ids: seq<nat>)
      requires Valid()
      reads types, constraints
    {
      |ids| == |RANGES| && FirstRanges(ids)
    }

    ghost predicate Denotes(id: nat, t: Type)
      requires Valid()
      reads types, constraints
    {
      IsType(id) && TreeOf(id) == t
    }

    method InternScalars() returns (b: Builtins)
      requires Valid()
      modifies types
      ensures Valid() && ScalarsPresent(b)
    {
      var nil := InternLeaf(AtomNode(NullAtom));
      var int_ := InternLeaf(IntNode);
      var real_ := InternLeaf(RealNode);
      var str := InternLeaf(StringNode);
      b := Builtins(nil, int_, real_, str, 0, 0, []);
      RowDenotes(nil);
      RowDenotes(int_);
      RowDenotes(real_);
      RowDenotes(str);
    }

    /** `internSimple`, and an atom. */
    method InternLeaf(n: Node) returns (id: nat)
      requires Valid() && (n.IntNode? || n.RealNode? || n.StringNode? || n.AtomNode?)
      modifies types
      ensures Valid() && IsRow(id, n) && old(types.entries) <= types.entries
      ensures forall i :: old(IsType(i)) ==> IsType(i) && TreeOf(i) == old(TreeOf(i))
    {
      id := Intern(n);
    }

    method InternInts(b: Builtins) returns (r: Builtins)
      requires Valid() && ScalarsPresent(b) && FormatsPresent(b)
      modifies types, constraints
      ensures Valid() && ScalarsPresent(r) && FormatsPresent(r) && RangesPresent(r.ints)
    {
      var ints := InternRanges(b.int_);
      assert Denotes(b.nil, Lit(NullAtom)) && Denotes(b.int_, Int) && Denotes(b.real_, Real) && Denotes(b.str, String);
      assert Denotes(b.f32, FloatType(F32)) && Denotes(b.f64, FloatType(F64));
      r := b.(ints := ints);
    }

    lemma RowDenotes(id: nat)
      requires Valid() && IsType(id)
      ensures var n := types.entries[id - 1];
        && (n.IntNode? ==> Denotes(id, Int)) && (n.RealNode? ==> Denotes(id, Real))
        && (n.StringNode? ==> Denotes(id, String)) && (n.AtomNode? ==> Denotes(id, Lit(n.a)))
    {
    }

    method InternFormats(b: Builtins) returns (r: Builtins)
      requires Valid() && ScalarsPresent(b)
      modifies types, constraints
      ensures Valid() && ScalarsPresent(r) && FormatsPresent(r) && r.int_ == b.int_
    {
      var f32 := InternFloatFormat(b.real_, F32);
      var f64 := InternFloatFormat(b.real_, F64);
      r := b.(f32 := f32, f64 := f64);
    }

    /** `internFloatFormat`. */
    method InternFloatFormat(base: nat, f: FloatFormat) returns (id: nat)
      requires Valid() && Denotes(base, Real) && f != NoFormat
      modifies types, constraints
      ensures Valid() && Denotes(id, FloatType(f))
      ensures forall i :: old(IsType(i)) ==> IsType(i) && TreeOf(i) == old(TreeOf(i))
    {
      var con := InternConstraint(EMPTY_ROW.(format := f));
      id := InternRefined(base, con, 0, "");
    }

    /** The eight bounded integer types, one after another. */
    method InternRanges(base: nat) returns (ids: seq<nat>)
      requires Valid() && Denotes(base, Int)
      modifies types, constraints
      ensures Valid() && RangesPresent(ids)
      ensures forall i :: old(IsType(i)) ==> IsType(i) && TreeOf(i) == old(TreeOf(i))
    {
      ids := [];
      for k := 0 to |RANGES|
        invariant Valid() && Denotes(base, Int) && |ids| == k && FirstRanges(ids)
        invariant forall i :: old(IsType(i)) ==> IsType(i) && TreeOf(i) == old(TreeOf(i))
      {
        ids := InternNextRange(base, ids);
      }
    }

    ghost predicate FirstRanges(ids: seq<nat>)
      requires Valid()
      reads types, constraints
    {
      |ids| <= |RANGES| && forall k :: 0 <= k < |ids| ==> Denotes(ids[k], RangeType(RANGES[k]))
    }

    method InternNextRange(base: nat, ids: seq<nat>) returns (more: seq<nat>)
      requires Valid() && Denotes(base, Int) && FirstRanges(ids) && |ids| < |RANGES|
      modifies types, constraints
      ensures Valid() && FirstRanges(more) && |more| == |ids| + 1
      ensures forall i :: old(IsType(i)) ==> IsType(i) && TreeOf(i) == old(TreeOf(i))
    {
      var id := InternBoundedInt(base, RANGES[|ids|]);
      assert forall k :: 0 <= k < |ids| ==> Denotes(ids[k], RangeType(RANGES[k]));
      more := ids + [id];
    }

    /** `internBoundedInt`. */
    method InternBoundedInt(base: nat, range: (int, int)) returns (id: nat)
      requires Valid() && Denotes(base, Int)
      modifies types, constraints
      ensures Valid() && Denotes(id, RangeType(range))
      ensures forall i :: old(IsType(i)) ==> IsType(i) && TreeOf(i) == old(TreeOf(i))
    {
      var con := InternRange(range);
      id := InternRefined(base, con, 0, "");
    }

    method InternRange(range: (int, int)) returns (con: nat)
      requires Valid()
      modifies types, constraints
      ensures Valid() && 1 <= con <= |constraints.entries| && ConstraintOf(con) == RangeType(range).con
      ensures forall i :: old(IsType(i)) ==> IsType(i) && TreeOf(i) == old(TreeOf(i))
    {
      var min := InternLeaf(AtomNode(IntAtom(range.0)));
      var max := InternLeaf(AtomNode(IntAtom(range.1)));
      RangeRow(types.entries, min, max);
      con := InternConstraint(EMPTY_ROW.(intMin := min, intMax := max));
    }

    // ----- canonicity, at every moment

    /** Two IDs are equal exactly when they denote the same tree. */
    lemma Canonical(i: nat, j: nat)
      requires Valid() && IsType(i) && IsType(j)
      ensures i == j <==> TreeOf(i) == TreeOf(j)
    {
      if TreeOf(i) == TreeOf(j) { TreeUnique(types.entries, constraints.entries, i, j); }
    }

    /** The stored fingerprints depend on the tree alone. */
    lemma FingerprintOfTree(id: nat)
      requires Valid() && IsType(id)
      ensures types.fps[id - 1] == TreeFp(Complete(h), TreeOf(id))
      ensures types.sems[id - 1] == TreeFp(Semantic(h), TreeOf(id))
    {
      StoredFingerprint(Complete(h), types.entries, constraints.entries, types.fps, constraints.fps, id);
      StoredFingerprint(Semantic(h), types.entries, constraints.entries, types.sems, constraints.fps, id);
    }

    // ----- interning

    /** Find the row or append it.  Old IDs keep their rows, fingerprints and trees. */
    method Intern(n: Node) returns (id: nat)
      requires Valid() && ChildrenBelow(n, |types.entries| + 1, |constraints.entries|)
      modifies types
      ensures Valid() && IsRow(id, n)
      ensures if n in old(types.entries) then types.entries == old(types.entries)
              else types.entries == old(types.entries) + [n]
      ensures old(types.fps) <= types.fps
      ensures forall i :: old(IsType(i)) ==> IsType(i) && TreeOf(i) == old(TreeOf(i))
    {
      ghost var (nodes, fps, sems) := (types.entries, types.fps, types.sems);
      ghost var (rows, conFps) := (constraints.entries, constraints.fps);
      var fp := NodeFp(Complete(h), types.fps, constraints.fps, n);
      var sem := NodeFp(Semantic(h), types.sems, constraints.fps, n);
      FoundHash(Complete(h), nodes, rows, fps, conFps, n);
      id := types.Intern(n, fp, sem);
      InternedInBoth(h, nodes, rows, fps, sems, conFps, n, types.entries, types.fps, types.sems);
    }

    /** `internConstraint`. */
    method InternConstraint(c: ConstraintRow) returns (id: nat)
      requires Valid() && RowOk(types.entries, c)
      modifies constraints
      ensures Valid() && 1 <= id <= |constraints.entries| && constraints.entries[id - 1] == c
      ensures if c in old(constraints.entries) then constraints.entries == old(constraints.entries)
              else constraints.entries == old(constraints.entries) + [c]
      ensures forall i :: old(IsType(i)) ==> TreeOf(i) == old(TreeOf(i))
    {
      ghost var (nodes, fps) := (types.entries, types.fps);
      ghost var (rows, conFps) := (constraints.entries, constraints.fps);
      var fp := h.hash(RowEncoding(Complete(h), types.entries, types.fps, c));
      RowFpIsFunction(Complete(h), nodes, rows, fps, conFps, c);
      RowEncodingShared(h, nodes, rows, fps, types.sems, conFps, c);
      id := constraints.Intern(c, fp, 0);
      InternedRowHashed(Complete(h), nodes, rows, fps, conFps, c, constraints.entries, constraints.fps);
      InternedRowHashed(Semantic(h), nodes, rows, types.sems, conFps, c, constraints.entries, constraints.fps);
    }

    /** The kind under all refinements. */
    method BaseKind(id: nat) returns (kernel: nat)
      requires Valid() && IsType(id)
      ensures IsType(kernel) && TreeOf(kernel) == Clauses.Kernel(TreeOf(id)) && !types.entries[kernel - 1].RefinedNode?
    {
      kernel := id;
      while types.entries[kernel - 1].RefinedNode?
        invariant IsType(kernel) && Clauses.Kernel(TreeOf(kernel)) == Clauses.Kernel(TreeOf(id))
        decreases kernel
      {
        assert ChildrenBelow(types.entries[kernel - 1], kernel, |constraints.entries|);
        kernel := types.entries[kernel - 1].base;
      }
    }

    ghost predicate Empty(id: nat)
      requires Valid() && IsType(id)
      reads types, constraints
    {
      Clauses.Kernel(TreeOf(id)).Never?
    }

    /** Whether a component is empty under its refinements. */
    method SomeEmpty(elems: seq<nat>) returns (empty: bool)
      requires Valid() && forall i :: 0 <= i < |elems| ==> IsType(elems[i])
      ensures empty <==> exists i :: 0 <= i < |elems| && Empty(elems[i])
    {
      var i := 0;
      while i < |elems|
        invariant 0 <= i <= |elems|
        invariant forall k :: 0 <= k < i ==> !Empty(elems[k])
      {
        var kernel := BaseKind(elems[i]);
        if types.entries[kernel - 1].NeverNode? {
          return true;
        }
        i := i + 1;
      }
      return false;
    }

    /** `internTuple`: a tuple with an empty component is empty. */
    method InternTuple(elems: seq<nat>) returns (id: nat)
      requires Valid() && forall i :: 0 <= i < |elems| ==> IsType(elems[i])
      modifies types
      ensures Valid() && IsType(id)
      ensures forall i :: old(IsType(i)) ==> IsType(i) && TreeOf(i) == old(TreeOf(i))
      ensures if exists i :: 0 <= i < |elems| && old(Empty(elems[i])) then id == never
              else TreeOf(id).Tuple? && |TreeOf(id).elems| == |elems| &&
                   forall i :: 0 <= i < |elems| ==> TreeOf(id).elems[i] == old(TreeOf(elems[i]))
    {
      var empty := SomeEmpty(elems);
      if empty {
        id := never;
      } else {
        id := Intern(TupleNode(elems));
      }
    }

    /** `internObject`: the fields are kept sorted by name, so their source order is forgotten. */
    method InternObject(fields: seq<FieldRow>) returns (id: nat)
      requires Valid() && DistinctNames(fields, RowName)
      requires forall f :: f in fields ==> IsType(f.value)
      modifies types
      ensures Valid() && IsType(id) && SortedRow(id, fields)
      ensures forall i :: old(IsType(i)) ==> IsType(i) && TreeOf(i) == old(TreeOf(i))
      ensures TreeOf(id).Object? && SortedFields(TreeOf(id).fields)
    {
      var sorted := SortByName(fields, RowName);
      SortSorts(fields, RowName);
      forall f | f in sorted ensures IsType(f.value) { assert f in multiset(fields); }
      id := Intern(ObjectNode(sorted));
      var t := Tree(types.entries, constraints.entries, id);
      forall i, j | 0 <= i < j < |t.fields| ensures CompareStrings(t.fields[i].name, t.fields[j].name) < 0 {
        assert CompareStrings(RowName(sorted[i]), RowName(sorted[j])) < 0;
      }
    }

    /** The row of an object with the given fields, sorted by name. */
    ghost predicate SortedRow(id: nat, fields: seq<FieldRow>)
      requires IsType(id)
      reads types
    {
      && types.entries[id - 1].ObjectNode?
      && multiset(types.entries[id - 1].fields) == multiset(fields)
      && SortedByName(types.entries[id - 1].fields, RowName)
    }

    /** Two orders of the same fields intern to one ID. */
    lemma ObjectOrderIrrelevant(x: nat, y: nat, xs: seq<FieldRow>, ys: seq<FieldRow>)
      requires Valid() && IsType(x) && IsType(y) && SortedRow(x, xs) && SortedRow(y, ys)
      requires multiset(xs) == multiset(ys)
      ensures x == y
    {
      SortedUnique(types.entries[x - 1].fields, types.entries[y - 1].fields, RowName);
      DistinctIndex(types.entries, x - 1, y - 1);
    }

    /** `internRefinedNamed`: nothing is interned around a base that stays as it is. */
    method InternRefined(base: nat, con: nat, meta: nat, name: string) returns (id: nat)
      requires Valid() && IsType(base) && con <= |constraints.entries|
      modifies types
      ensures Valid() && IsType(id)
      ensures forall i :: old(IsType(i)) ==> IsType(i) && TreeOf(i) == old(TreeOf(i))
      ensures TreeOf(id) == Rewrap(old(TreeOf(base)), ConstraintOf(con), meta, name)
      ensures old(types.entries) <= types.entries
    {
      if con == 0 && meta == 0 {
        if name == "" {
          return base;
        }
      }
      id := Intern(RefinedNode(base, con, meta, name));
      if con != 0 { RowNotEmpty(types.entries, constraints.entries[con - 1]); }
    }

    ghost function ConstraintOf(con: nat): Constraint
      requires Valid() && con <= |constraints.entries|
      reads types, constraints
    {
      if con == 0 then UNCONSTRAINED else RowTree(types.entries, constraints.entries[con - 1])
    }

    // ----- unions

    ghost function MemberOf(id: nat): Member
      requires Valid() && IsType(id)
      reads types, constraints
    {
      Member(id, types.fps[id - 1], TreeOf(id))
    }

    ghost function MemberList(ids: seq<nat>): (ms: seq<Member>)
      requires Valid() && forall i :: 0 <= i < |ids| ==> IsType(ids[i])
      reads types, constraints
      ensures |ms| == |ids| && forall i :: 0 <= i < |ids| ==> ms[i] == MemberOf(ids[i])
    {
      assert forall i :: 0 <= i < |ids| ==> IsType(ids[i]);
      MembersAt(types.entries, constraints.entries, types.fps, ids)
    }

    /** The candidate members a type brings to a union; zero is an absent type. */
    ghost function MembersOf(id: nat): set<Member>
      requires Valid() && (id == 0 || IsType(id))
      reads types, constraints
    {
      if id == 0 || id == never then {}
      else
        var n := types.entries[id - 1];
        assert ChildrenBelow(n, id, |constraints.entries|);
        if n.SumNode? then Elements(MemberList(n.members))
        else {MemberOf(id)}
    }

    /** The types a union is formed of. */
    ghost predicate IsUnionArgument(id: nat)
      requires Valid()
      reads types, constraints
    {
      id == 0 || (IsType(id) && WellFormed(TreeOf(id)))
    }

    /** A list of candidate members: no union, no `never`. */
    ghost predicate Flat(flat: seq<Member>)
      requires Valid()
      reads types, constraints
    {
      forall m :: m in flat ==>
        IsType(m.id) && m == MemberOf(m.id) && WellFormed(m.typ) && !m.typ.Sum? && !m.typ.Never?
    }

    lemma FlatGood(flat: seq<Member>)
      requires Valid() && Flat(flat)
      ensures Good(Elements(flat) + {MemberOf(bool_)})
      ensures forall m :: m in flat ==> MembersOf(m.id) == {m}
      ensures forall m :: m in flat && m.typ == Any ==> m == MemberOf(any)
    {
      ElementsMembers(flat);
      forall m | m in flat ensures MembersOf(m.id) == {m} {
        assert !types.entries[m.id - 1].SumNode? && !types.entries[m.id - 1].NeverNode?;
      }
      forall m | m in flat && m.typ == Any ensures m == MemberOf(any) { Canonical(m.id, any); }
    }

    /** What one type adds to the candidates: nothing if empty, everything if it is `any`. */
    method AddMember(flat: seq<Member>, id: nat) returns (out: seq<Member>)
      requires Valid() && Flat(flat) && IsUnionArgument(id)
      ensures Flat(out)
      ensures Elements(out) == if id == any then {MemberOf(any)} else Elements(flat) + MembersOf(id)
      decreases id, 2
    {
      if id == 0 || id == never { return flat; }
      if id == any {
        out := [Member(any, types.fps[any - 1], Any)];
        assert Elements(out) == {out[0]};
        return;
      }
      var n := types.entries[id - 1];
      assert ChildrenBelow(n, id, |constraints.entries|);
      if n.SumNode? {
        MembersOfSum(id);
        out := AddMembers(flat, n.members, id);
      } else {
        out := flat + [Member(id, types.fps[id - 1], Tree(types.entries, constraints.entries, id))];
        ElementsAppend(flat, MemberOf(id));
        ElementsMembers(out);
      }
    }

    /** A member of a union that is itself neither a union nor trivial. */
    ghost predicate Proper(id: nat)
      requires Valid()
      reads types, constraints
    {
      && IsType(id) && id != any && id != never
      && WellFormed(TreeOf(id)) && !TreeOf(id).Sum?
    }

    lemma MembersOfSum(id: nat)
      requires Valid() && IsType(id) && types.entries[id - 1].SumNode? && WellFormed(TreeOf(id))
      ensures forall m :: m in types.entries[id - 1].members ==> Proper(m)
    {
      var members := types.entries[id - 1].members;
      assert ChildrenBelow(types.entries[id - 1], id, |constraints.entries|);
      forall m | m in members ensures Proper(m) {
        var i :| 0 <= i < |members| && members[i] == m;
        assert TreeOf(id).members[i] == TreeOf(m);
        Canonical(m, any);
        Canonical(m, never);
      }
    }

    lemma ProperMember(id: nat)
      requires Valid() && Proper(id)
      ensures MembersOf(id) == {MemberOf(id)}
    {
      assert !types.entries[id - 1].SumNode?;
    }

    method AddMembers(flat: seq<Member>, members: seq<nat>, parent: nat) returns (out: seq<Member>)
      requires Valid() && Flat(flat)
      requires forall i :: 0 <= i < |members| ==> IsType(members[i]) && Proper(members[i]) && members[i] < parent
      ensures Flat(out)
      ensures Elements(out) == Elements(flat) + Elements(MemberList(members))
      decreases parent, 1, |members|
    {
      if members == [] { return flat; }
      out := AddMember(flat, members[0]);
      ProperMember(members[0]);
      assert MemberOf(members[0]) in Elements(out);
      ElementsMembers(out);
      out := AddMembers(out, members[1..], parent);
      ConsMembers(members);
    }

    lemma ConsMembers(members: seq<nat>)
      requires Valid() && members != [] && forall i :: 0 <= i < |members| ==> IsType(members[i])
      ensures Elements(MemberList(members)) == {MemberOf(members[0])} + Elements(MemberList(members[1..]))
    {
      var (first, rest) := (MemberOf(members[0]), MemberList(members[1..]));
      assert MemberList(members) == [first] + rest;
      ElementsCons(first, rest);
    }

    /** The members an interned union keeps. */
    ghost function UnionOf(a: set<Member>): set<Member>
      requires Valid()
      reads types, constraints
    {
      Union(a, MemberOf(bool_))
    }

    lemma SingleUnion(m: Member)
      requires Valid() && IsType(m.id) && m == MemberOf(m.id) && WellFormed(m.typ)
      ensures UnionOf({m}) == {m}
    {
      DominatesIrreflexive(m);
    }

    lemma AnyAlone(keep: seq<Member>, s: set<Member>)
      requires Valid() && Flat(keep) && AscendingIds(keep) && Elements(keep) == Maximal(s)
      ensures |keep| >= 2 ==> forall m :: m in keep ==> m.typ != Any
    {
      forall m | |keep| >= 2 && m in keep ensures m.typ != Any {
        var i :| 0 <= i < |keep| && keep[i] == m;
        var o := keep[if i == 0 then 1 else 0];
        assert o.id != m.id && o in Elements(keep) && m in Elements(keep);
        if m.typ == Any {
          Canonical(o.id, m.id);
          assert Dominates(m, o);
        }
      }
    }

    /** Interned members with well-formed types. */
    ghost predicate Candidates(s: set<Member>)
      requires Valid()
      reads types, constraints
    {
      forall m :: m in s ==> IsType(m.id) && m == MemberOf(m.id) && WellFormed(m.typ)
    }

    lemma MembersAreCandidates(id: nat)
      requires Valid() && IsUnionArgument(id)
      ensures Candidates(MembersOf(id))
    {
      if id != 0 && id != never && types.entries[id - 1].SumNode? {
        MembersOfSum(id);
        var members := types.entries[id - 1].members;
        forall m | m in MembersOf(id) ensures m == MemberOf(m.id) && WellFormed(m.typ) {
          var i :| 0 <= i < |members| && m == MemberOf(members[i]);
          assert Proper(members[i]);
        }
      }
    }

    lemma AnyUnion(s: set<Member>)
      requires Valid() && Candidates(s) && MemberOf(any) in s
      ensures UnionOf(s) == {MemberOf(any)}
    {
      forall m | m in s && m.typ == Any ensures m == MemberOf(any) { Canonical(m.id, any); }
      AnyWins(s, MemberOf(bool_), MemberOf(any));
    }

    lemma MembersOfAny()
      requires Valid()
      ensures MembersOf(any) == {MemberOf(any)}
    {
      Canonical(any, never);
    }

    lemma CombinedUnion(a: nat, b: nat, left: set<Member>, all: set<Member>)
      requires Valid() && IsUnionArgument(a) && IsUnionArgument(b)
      requires left == if a == any then {MemberOf(any)} else MembersOf(a)
      requires all == if b == any then {MemberOf(any)} else left + MembersOf(b)
      ensures UnionOf(all) == UnionOf(MembersOf(a) + MembersOf(b))
    {
      MembersOfAny();
      if b == any {
        MembersAreCandidates(a);
        AnyUnion(MembersOf(a) + {MemberOf(any)});
        SingleUnion(MemberOf(any));
      }
    }

    /** The candidates of two union arguments. */
    method Flatten(a: nat, b: nat) returns (flat: seq<Member>)
      requires Valid() && IsUnionArgument(a) && IsUnionArgument(b)
      ensures Flat(flat)
      ensures UnionOf(Elements(flat)) == UnionOf(MembersOf(a) + MembersOf(b))
    {
      flat := AddMember([], a);
      ghost var left := Elements(flat);
      flat := AddMember(flat, b);
      CombinedUnion(a, b, left, Elements(flat));
    }

    /** The IDs of the members. */
    function IdsOf(keep: seq<Member>): (ids: seq<nat>)
      ensures |ids| == |keep|
    {
      seq(|keep|, i requires 0 <= i < |keep| => keep[i].id)
    }

    /** A union row lists its members by ascending ID. */
    predicate SortedUnion(id: nat)
      requires 1 <= id <= |types.entries|
      reads types
    {
      types.entries[id - 1].SumNode? ==>
        var ids := types.entries[id - 1].members;
        |ids| >= 2 && forall i, j :: 0 <= i < j < |ids| ==> ids[i] < ids[j]
    }

    lemma UnionRow(id: nat, keep: seq<Member>)
      requires Valid() && IsType(id) && Flat(keep) && |keep| >= 2 && AscendingIds(keep)
      requires types.entries[id - 1] == SumNode(IdsOf(keep)) && forall m :: m in keep ==> m.typ != Any
      ensures WellFormed(TreeOf(id)) && SortedUnion(id) && MembersOf(id) == Elements(keep)
      ensures forall v :: Accepts(TreeOf(id), v) <==> SomeAccepts(Elements(keep), v)
    {
      var t := TreeOf(id);
      assert |t.members| == |keep|;
      forall i | 0 <= i < |keep| ensures t.members[i] == keep[i].typ && keep[i] == MemberOf(IdsOf(keep)[i]) {
        assert keep[i] in keep;
      }
      assert id != never;
      forall m ensures m in MembersOf(id) <==> m in Elements(keep) { }
      forall v ensures Accepts(t, v) <==> SomeAccepts(Elements(keep), v) {
        UnionAccepts(t, keep, v);
      }
    }

    /** A type admits what one of its members admits. */
    lemma ArgumentValues(id: nat, v: Type)
      requires Valid() && IsUnionArgument(id)
      ensures SomeAccepts(MembersOf(id), v) <==> id != 0 && Accepts(TreeOf(id), v)
    {
      if id != 0 && id != never {
        Canonical(id, never);
        if types.entries[id - 1].SumNode? {
          var (t, ids) := (TreeOf(id), types.entries[id - 1].members);
          assert ChildrenBelow(types.entries[id - 1], id, |constraints.entries|);
          var ms := MemberList(ids);
          UnionAccepts(t, ms, v);
        }
      }
    }

    lemma UnionValues(s: set<Member>, v: Type)
      requires Valid() && Candidates(s) && WellFormed(v) && IsValue(v)
      ensures SomeAccepts(UnionOf(s), v) <==> SomeAccepts(s, v)
    {
      UnionKeepsValues(s, MemberOf(bool_), v);
    }

    /** The candidate keeps its place: no other contender takes it. */
    ghost predicate Keeps(s: set<Member>, m: Member)
      requires Valid()
      reads types, constraints
    {
      Contends(s, MemberOf(bool_), m) && forall o :: Contends(s, MemberOf(bool_), o) && o != m ==> !Replaces(o, m)
    }

    lemma KeptMembers(a: nat, b: nat)
      requires Valid() && IsUnionArgument(a) && IsUnionArgument(b)
      ensures var s := MembersOf(a) + MembersOf(b);
        && (forall m :: m in UnionOf(s) <==> Keeps(s, m))
        && forall m, n :: m in UnionOf(s) && n in UnionOf(s) && m != n ==> !Below(m.typ, n.typ)
    {
      var s := MembersOf(a) + MembersOf(b);
      MembersAreCandidates(a);
      MembersAreCandidates(b);
      GoodCandidates(s);
      forall m ensures m in UnionOf(s) <==> Keeps(s, m) { KeptExactly(s, MemberOf(bool_), m); }
      forall m, n | m in UnionOf(s) && n in UnionOf(s) && m != n ensures !Below(m.typ, n.typ) {
        KeptIncomparable(s, MemberOf(bool_), m, n);
      }
    }

    /** `internSum`: the kept members are the maximal ones of all candidates, in whatever order,
      * and the union admits exactly what its arguments admit. */
    method InternSum(a: nat, b: nat) returns (id: nat)
      requires Valid() && IsUnionArgument(a) && IsUnionArgument(b)
      modifies types
      ensures Valid() && IsType(id) && IsUnionArgument(id) && SortedUnion(id)
      ensures forall i :: old(IsType(i)) ==> IsType(i) && TreeOf(i) == old(TreeOf(i))
      ensures old(types.entries) <= types.entries && old(types.fps) <= types.fps
      ensures MembersOf(id) == old(UnionOf(MembersOf(a) + MembersOf(b)))
      ensures forall m :: m in MembersOf(id) <==> old(Keeps(MembersOf(a) + MembersOf(b), m))
      ensures forall m, n :: m in MembersOf(id) && n in MembersOf(id) && m != n ==> !Below(m.typ, n.typ)
      ensures forall v :: WellFormed(v) && IsValue(v) ==>
        (Accepts(TreeOf(id), v) <==>
          (a != 0 && Accepts(old(TreeOf(a)), v)) || (b != 0 && Accepts(old(TreeOf(b)), v)))
    {
      ghost var all := MembersOf(a) + MembersOf(b);
      KeptMembers(a, b);
      forall v | WellFormed(v) && IsValue(v)
        ensures SomeAccepts(UnionOf(all), v) <==>
          (a != 0 && Accepts(TreeOf(a), v)) || (b != 0 && Accepts(TreeOf(b), v))
      {
        MembersAreCandidates(a);
        MembersAreCandidates(b);
        UnionValues(all, v);
        ArgumentValues(a, v);
        ArgumentValues(b, v);
      }
      id := InternMembers(a, b);
      forall v | WellFormed(v) && IsValue(v) ensures Accepts(TreeOf(id), v) <==> SomeAccepts(MembersOf(id), v) {
        ArgumentValues(id, v);
      }
    }

    /** `x` is the interned union of `a` and `b`. */
    ghost predicate IsSum(x: nat, a: nat, b: nat)
      requires Valid()
      reads types, constraints
    {
      && IsUnionArgument(x) && IsUnionArgument(a) && IsUnionArgument(b) && x != 0 && SortedUnion(x)
      && MembersOf(x) == UnionOf(MembersOf(a) + MembersOf(b))
    }

    /** Only rows were added. */
    twostate predicate Grown()
      reads types, constraints
    {
      && old(Valid()) && Valid() && constraints.entries == old(constraints.entries)
      && old(types.entries) <= types.entries && old(types.fps) <= types.fps
    }

    twostate lemma MemberStays(id: nat)
      requires Grown() && old(IsType(id))
      ensures IsType(id) && MemberOf(id) == old(MemberOf(id))
    {
      TreeStable(old(types.entries), constraints.entries, types.entries, constraints.entries, id);
    }

    twostate lemma MembersStay(id: nat)
      requires Grown() && old(IsUnionArgument(id))
      ensures IsUnionArgument(id) && MembersOf(id) == old(MembersOf(id))
    {
      if id != 0 {
        MemberStays(id);
        if types.entries[id - 1].SumNode? { ListStays(id); }
      }
    }

    twostate lemma ListStays(id: nat)
      requires Grown() && old(IsType(id)) && types.entries[id - 1].SumNode?
      ensures MembersOf(id) == old(MembersOf(id))
    {
      var n := types.entries[id - 1];
      assert n == old(types.entries[id - 1]);
      assert ChildrenBelow(n, id, |constraints.entries|);
      forall i | 0 <= i < |n.members| ensures MemberOf(n.members[i]) == old(MemberOf(n.members[i])) {
        MemberStays(n.members[i]);
      }
      assert MemberList(n.members) == old(MemberList(n.members));
    }

    twostate lemma UnionStays(s: set<Member>)
      requires Grown()
      ensures UnionOf(s) == old(UnionOf(s))
    {
      MemberStays(bool_);
    }

    /** Interned unions stay the unions of their arguments. */
    twostate lemma SumStays(x: nat, a: nat, b: nat)
      requires Grown() && old(IsSum(x, a, b))
      ensures IsSum(x, a, b)
    {
      MembersStay(x);
      MembersStay(a);
      MembersStay(b);
      UnionStays(MembersOf(a) + MembersOf(b));
    }

    /** What `InternSum` returns is the union of its arguments, in the arena as it then is. */
    twostate lemma SumFound(id: nat, a: nat, b: nat)
      requires Grown() && old(IsUnionArgument(a)) && old(IsUnionArgument(b))
      requires IsType(id) && IsUnionArgument(id) && SortedUnion(id)
      requires MembersOf(id) == old(UnionOf(MembersOf(a) + MembersOf(b)))
      ensures IsSum(id, a, b)
    {
      MembersStay(a);
      MembersStay(b);
      UnionStays(MembersOf(a) + MembersOf(b));
    }

    method InternMembers(a: nat, b: nat) returns (id: nat)
      requires Valid() && IsUnionArgument(a) && IsUnionArgument(b)
      modifies types
      ensures Valid() && IsType(id) && IsUnionArgument(id) && SortedUnion(id)
      ensures forall i :: old(IsType(i)) ==> IsType(i) && TreeOf(i) == old(TreeOf(i))
      ensures old(types.entries) <= types.entries && old(types.fps) <= types.fps
      ensures MembersOf(id) == old(UnionOf(MembersOf(a) + MembersOf(b)))
    {
      var flat := Flatten(a, b);
      id := InternFlat(flat);
    }

    method InternFlat(flat: seq<Member>) returns (id: nat)
      requires Valid() && Flat(flat)
      modifies types
      ensures Valid() && IsType(id) && IsUnionArgument(id) && SortedUnion(id)
      ensures forall i :: old(IsType(i)) ==> IsType(i) && TreeOf(i) == old(TreeOf(i))
      ensures old(types.entries) <= types.entries && old(types.fps) <= types.fps
      ensures MembersOf(id) == old(UnionOf(Elements(flat)))
    {
      if |flat| <= 1 {
        FewMembers(flat);
        return if |flat| == 0 then never else flat[0].id;
      }
      var keep := Reduce(flat);
      id := InternKept(keep);
    }

    lemma FewMembers(flat: seq<Member>)
      requires Valid() && Flat(flat) && |flat| <= 1
      ensures var id := if |flat| == 0 then never else flat[0].id;
        && IsType(id) && IsUnionArgument(id) && SortedUnion(id) && MembersOf(id) == UnionOf(Elements(flat))
    {
      if |flat| == 0 {
        assert Elements(flat) == {};
      } else {
        OneMember(flat);
        SingleUnion(flat[0]);
        assert Elements(flat) == {flat[0]};
      }
    }

    /** Merge, sort and drop redundant members. */
    method Reduce(flat: seq<Member>) returns (keep: seq<Member>)
      requires Valid() && Flat(flat) && flat != []
      ensures Flat(keep) && AscendingIds(keep) && keep != [] && Elements(keep) == UnionOf(Elements(flat))
      ensures |keep| >= 2 ==> forall m :: m in keep ==> m.typ != Any
    {
      FlatGood(flat);
      keep := CanonicalMembers(flat, Member(bool_, types.fps[bool_ - 1], Bool));
      KeptFlat(flat, keep);
      AnyAlone(keep, MergeBools(Elements(flat), MemberOf(bool_)));
    }

    method InternKept(keep: seq<Member>) returns (id: nat)
      requires Valid() && Flat(keep) && AscendingIds(keep) && keep != []
      requires |keep| >= 2 ==> forall m :: m in keep ==> m.typ != Any
      modifies types
      ensures Valid() && IsType(id) && IsUnionArgument(id) && SortedUnion(id)
      ensures forall i :: old(IsType(i)) ==> IsType(i) && TreeOf(i) == old(TreeOf(i))
      ensures old(types.entries) <= types.entries && old(types.fps) <= types.fps
      ensures MembersOf(id) == Elements(keep)
    {
      if |keep| == 1 {
        OneMember(keep);
        return keep[0].id;
      }
      id := Intern(SumNode(IdsOf(keep)));
      UnionRow(id, keep);
    }

    lemma OneMember(keep: seq<Member>)
      requires Valid() && Flat(keep) && |keep| == 1
      ensures MembersOf(keep[0].id) == Elements(keep) && IsUnionArgument(keep[0].id) && SortedUnion(keep[0].id)
    {
      FlatGood(keep);
      ElementsMembers(keep);
    }

    lemma KeptFlat(flat: seq<Member>, keep: seq<Member>)
      requires Valid() && Flat(flat) && Elements(keep) == UnionOf(Elements(flat))
      ensures Flat(keep)
    {
      forall m | m in keep ensures m in flat || m == MemberOf(bool_) {
        assert m in Elements(keep);
      }
    }

    /** The kept members determine the ID: a union has one representation. */
    lemma UnionIdUnique(x: nat, y: nat)
      requires Valid() && IsUnionArgument(x) && IsUnionArgument(y) && x != 0 && y != 0
      requires SortedUnion(x) && SortedUnion(y) && MembersOf(x) == MembersOf(y)
      ensures x == y
    {
      if types.entries[x - 1].SumNode? && types.entries[y - 1].SumNode? {
        SameUnionRows(x, y);
        DistinctIndex(types.entries, x - 1, y - 1);
      } else if types.entries[x - 1].SumNode? {
        UnionIsNotSingle(x, y);
      } else if types.entries[y - 1].SumNode? {
        UnionIsNotSingle(y, x);
      } else if x != never {
        assert MemberOf(x) in MembersOf(y);
      }
    }

    lemma SumCommutes(ab: nat, ba: nat, a: nat, b: nat)
      requires Valid() && IsSum(ab, a, b) && IsSum(ba, b, a)
      ensures ab == ba
    {
      assert MembersOf(a) + MembersOf(b) == MembersOf(b) + MembersOf(a);
      UnionIdUnique(ab, ba);
    }

    lemma SumIdempotent(ab: nat, twice: nat, a: nat, b: nat)
      requires Valid() && IsSum(ab, a, b) && IsSum(twice, ab, ab)
      ensures twice == ab
    {
      MembersAreCandidates(a);
      MembersAreCandidates(b);
      GoodCandidates(MembersOf(a) + MembersOf(b));
      UnionIdempotent(MembersOf(a) + MembersOf(b), MemberOf(bool_));
      UnionIdUnique(ab, twice);
    }

    lemma GoodCandidates(s: set<Member>)
      requires Valid() && Candidates(s)
      ensures Good(s + {MemberOf(bool_)})
    {
    }

    /** Grouping does not change the ID, wherever no boolean literal is hidden from its opposite. */
    lemma SumAssociates(a: nat, b: nat, c: nat, ab: nat, bc: nat, left: nat, right: nat)
      requires Valid() && IsSum(ab, a, b) && IsSum(bc, b, c) && IsSum(left, ab, c) && IsSum(right, a, bc)
      requires !NestingMatters(MembersOf(a) + MembersOf(b) + MembersOf(c), MemberOf(bool_))
      ensures left == right
    {
      MembersAreCandidates(a);
      MembersAreCandidates(b);
      MembersAreCandidates(c);
      GoodCandidates(MembersOf(a) + MembersOf(b) + MembersOf(c));
      UnionAssociative(MembersOf(a), MembersOf(b), MembersOf(c), MemberOf(bool_));
      UnionIdUnique(left, right);
    }

    lemma UnionMemberList(x: nat)
      requires Valid() && IsType(x) && types.entries[x - 1].SumNode? && SortedUnion(x)
      ensures forall m :: m in types.entries[x - 1].members ==> IsType(m)
      ensures var ms := MemberList(types.entries[x - 1].members);
        AscendingIds(ms) && UniqueIds(Elements(ms)) && MembersOf(x) == Elements(ms)
    {
      assert x != never;
      assert ChildrenBelow(types.entries[x - 1], x, |constraints.entries|);
    }

    lemma SameUnionRows(x: nat, y: nat)
      requires Valid() && IsType(x) && IsType(y) && SortedUnion(x) && SortedUnion(y)
      requires types.entries[x - 1].SumNode? && types.entries[y - 1].SumNode? && MembersOf(x) == MembersOf(y)
      ensures types.entries[x - 1] == types.entries[y - 1]
    {
      var (m, n) := (types.entries[x - 1].members, types.entries[y - 1].members);
      UnionMemberList(x);
      UnionMemberList(y);
      var (ms, ns) := (MemberList(m), MemberList(n));
      SortedListUnique(ms, ns);
      forall i | 0 <= i < |m| ensures m[i] == n[i] { assert ms[i] == ns[i]; }
      assert m == n;
    }

    lemma UnionIsNotSingle(x: nat, y: nat)
      requires Valid() && IsType(x) && IsType(y) && SortedUnion(x)
      requires types.entries[x - 1].SumNode? && !types.entries[y - 1].SumNode?
      ensures MembersOf(x) != MembersOf(y)
    {
      var m := types.entries[x - 1].members;
      assert x != never;
      assert ChildrenBelow(types.entries[x - 1], x, |constraints.entries|);
      var ms := MemberList(m);
      assert ms[0] in Elements(ms) && ms[1] in Elements(ms);
      assert ms[0].id != ms[1].id;
    }
  }
}
