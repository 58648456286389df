/** Fingerprints: the encoders of the `intern*` methods over rows, the encoder over type trees, and their
  * agreement (internal/compiled/arena.go:241-657, fingerprint.go, constraint.go:699-728).  The hash, the
  * bytes of an atom and the fingerprint of a metadata set are arbitrary functions. */
module Fingerprints {
  import opened Wrappers
  import opened Atoms
  import opened Constraints
  import opened Types
  import opened Nodes

  /** The code computes two fingerprints with one encoder: of the complete definition, and, `semantic`, without names
    * and metadata. */
  datatype Hashing = Hashing(hash: seq<int> -> nat, atomBytes: Atom -> seq<int>, metaFp: nat -> nat, semantic: bool)

  function Complete(h: Hashing): Hashing { h.(semantic := false) }

  function Semantic(h: Hashing): Hashing { h.(semantic := true) }

  const VERSION := 1

  function StringCode(s: string): seq<int> {
    [|s|] + seq(|s|, i requires 0 <= i < |s| => s[i] as int)
  }

  function Bit(b: bool, value: int): int {
    if b then value else 0
  }

  // ----- sorting hashes

  function InsertHash(x: int, s: seq<int>): seq<int> {
    if s == [] || x <= s[0] then [x] + s else [s[0]] + InsertHash(x, s[1..])
  }

  function SortHashes(s: seq<int>): seq<int> {
    if s == [] then [] else InsertHash(s[0], SortHashes(s[1..]))
  }

  lemma {:induction false} InsertHashCommutes(x: int, y: int, s: seq<int>)
    ensures InsertHash(x, InsertHash(y, s)) == InsertHash(y, InsertHash(x, s))
  {
    if s != [] && x > s[0] && y > s[0] {
      InsertHashCommutes(x, y, s[1..]);
    }
  }

  lemma {:induction false} SortHashesInsert(s: seq<int>, i: nat)
    requires i < |s|
    ensures SortHashes(s) == InsertHash(s[i], SortHashes(s[..i] + s[i + 1..]))
  {
    if i == 0 {
      assert s[..0] + s[1..] == s[1..];
    } else {
      var (rest, without) := (s[1..], s[..i] + s[i + 1..]);
      SortHashesInsert(rest, i - 1);
      assert without[1..] == rest[..i - 1] + rest[i..];
      InsertHashCommutes(s[0], s[i], SortHashes(without[1..]));
    }
  }

  lemma RemoveAt<T>(s: seq<T>, i: nat)
    requires i < |s|
    ensures multiset(s[..i] + s[i + 1..]) == multiset(s) - multiset{s[i]}
  {
    assert s == s[..i] + [s[i]] + s[i + 1..];
  }

  /** Sorting forgets the order of the members. */
  lemma {:induction false} SortHashesPermutation(x: seq<int>, y: seq<int>)
    requires multiset(x) == multiset(y)
    ensures SortHashes(x) == SortHashes(y)
  {
    if x == [] {
      assert |multiset(y)| == 0;
    } else {
      assert x[0] in multiset(y);
      var i :| 0 <= i < |y| && y[i] == x[0];
      var rest := y[..i] + y[i + 1..];
      RemoveAt(x, 0);
      RemoveAt(y, i);
      assert x[..0] + x[1..] == x[1..];
      SortHashesPermutation(x[1..], rest);
      SortHashesInsert(y, i);
    }
  }

  // ----- the encoder over trees

  function BoundCode(h: Hashing, a: Option<Atom>): seq<int> {
    if a.None? then [0] else [1] + h.atomBytes(a.value)
  }

  function IntsCode(h: Hashing, b: IntBounds): seq<int> {
    if b == NO_INTS then []
    else
      [1, Bit(b.min.Some?, 1) + Bit(b.max.Some?, 4)]
      + BoundCode(h, if b.min.None? then None else Some(IntAtom(b.min.value)))
      + BoundCode(h, if b.max.None? then None else Some(IntAtom(b.max.value)))
  }

  function RealsCode(h: Hashing, b: RealBounds): seq<int> {
    if b == NO_REALS then []
    else
      [16, Bit(b.min.Some?, 1) + Bit(b.min.Some? && b.min.value.inclusive, 2)
           + Bit(b.max.Some?, 4) + Bit(b.max.Some? && b.max.value.inclusive, 8)]
      + BoundCode(h, if b.min.None? then None else Some(RealAtom(b.min.value.v)))
      + BoundCode(h, if b.max.None? then None else Some(RealAtom(b.max.value.v)))
  }

  function FormatCode(f: FloatFormat): seq<int> {
    if f == NoFormat then [] else [32, if f == F32 then 1 else 2]
  }

  function ConstraintEncoding(h: Hashing, c: Constraint): seq<int> {
    [VERSION, 0xc1] + IntsCode(h, c.ints) + RealsCode(h, c.reals) + FormatCode(c.format) + LengthCode(c.length)
    + (if c.enum.None? then [] else [8, |c.enum.value|] + AtomFps(h, c.enum.value))
  }

  function LengthCode(b: IntBounds): seq<int> {
    if b == NO_INTS then []
    else [4, Bit(b.min.Some?, 1) + Bit(b.max.Some?, 4),
          if b.min.Some? then b.min.value else 0, if b.max.Some? then b.max.value else 0]
  }

  function AtomFps(h: Hashing, e: seq<Atom>): seq<int> {
    seq(|e|, i requires 0 <= i < |e| => h.hash(AtomEncoding(h, e[i])))
  }

  function AtomEncoding(h: Hashing, a: Atom): seq<int> {
    [VERSION, a.Rank()] + h.atomBytes(a)
  }

  function ConstraintFp(h: Hashing, c: Constraint): int {
    if c == UNCONSTRAINED then 0 else h.hash(ConstraintEncoding(h, c))
  }

  function FieldCode(h: Hashing, name: string, optional: bool, fp: int, meta: nat, withMeta: bool): seq<int> {
    StringCode(name) + [Bit(optional, 1), fp] + (if withMeta then [h.metaFp(meta)] else [])
  }

  function RefinedCode(h: Hashing, base: int, con: int, meta: nat, name: string): seq<int> {
    [VERSION, 14, base, con]
    + (if h.semantic then [] else [h.metaFp(meta)] + if name == "" then [] else StringCode(name))
  }

  predicate AnyMeta(fs: seq<Field>) {
    exists i :: 0 <= i < |fs| && fs[i].meta != 0
  }

  /** `fingerprintEncoding` of a complete definition. */
  function TreeEncoding(h: Hashing, t: Type): seq<int>
    decreases t, 1
  {
    match t
    case Any => [VERSION, 1]
    case Never => [VERSION, 2]
    case Bool => [VERSION, 4]
    case Int => [VERSION, 5]
    case Real => [VERSION, 15]
    case String => [VERSION, 6]
    case Lit(a) => AtomEncoding(h, a)
    case List(e) => [VERSION, 10, TreeFp(h, e)]
    case Tuple(es) => [VERSION, 11, |es|] + TreeFps(h, es)
    case Object(fs) => [VERSION, 12, |fs|] + FieldsEncoding(h, fs, !h.semantic && AnyMeta(fs))
    case Sum(ms) => [VERSION, 13, |ms|] + SortHashes(TreeFps(h, ms))
    case Refined(b, c, m, name) => RefinedCode(h, TreeFp(h, b), ConstraintFp(h, c), m, name)
  }

  function TreeFps(h: Hashing, ts: seq<Type>): seq<int>
    decreases ts, 0
  {
    seq(|ts|, i requires 0 <= i < |ts| => TreeFp(h, ts[i]))
  }

  function FieldsEncoding(h: Hashing, fs: seq<Field>, withMeta: bool): seq<int>
    decreases fs, 0
  {
    if fs == [] then []
    else
      FieldsEncoding(h, fs[..|fs| - 1], withMeta) +
      FieldCode(h, fs[|fs| - 1].name, fs[|fs| - 1].optional, TreeFp(h, fs[|fs| - 1].typ), fs[|fs| - 1].meta, withMeta)
  }

  /** `computeFingerprint`: a wrapper has no semantics of its own. */
  function TreeFp(h: Hashing, t: Type): nat
    decreases t, 2
  {
    if h.semantic && t.Wrapper() then TreeFp(h, t.base) else h.hash(TreeEncoding(h, t))
  }

  /** The fingerprint of a union does not depend on the order of its members. */
  lemma SumFingerprintUnordered(h: Hashing, x: seq<Type>, y: seq<Type>)
    requires multiset(x) == multiset(y)
    ensures TreeFp(h, Sum(x)) == TreeFp(h, Sum(y))
  {
    TreeFpsPermutation(h, x, y);
    SortHashesPermutation(TreeFps(h, x), TreeFps(h, y));
    assert |x| == |multiset(x)| == |multiset(y)| == |y|;
  }

  lemma TreeFpsSplit(h: Hashing, x: seq<Type>, i: nat)
    requires i < |x|
    ensures multiset(TreeFps(h, x)) == multiset(TreeFps(h, x[..i] + x[i + 1..])) + multiset{TreeFp(h, x[i]) as int}
  {
    var fx := TreeFps(h, x);
    assert TreeFps(h, x[..i] + x[i + 1..]) == fx[..i] + fx[i + 1..];
    assert fx == fx[..i] + [fx[i]] + fx[i + 1..];
  }

  lemma {:induction false} TreeFpsPermutation(h: Hashing, x: seq<Type>, y: seq<Type>)
    requires multiset(x) == multiset(y)
    ensures multiset(TreeFps(h, x)) == multiset(TreeFps(h, y))
  {
    if x == [] {
      assert |multiset(y)| == 0;
    } else {
      assert x[0] in multiset(y);
      var i :| 0 <= i < |y| && y[i] == x[0];
      var (xr, yr) := (x[..0] + x[1..], y[..i] + y[i + 1..]);
      assert multiset(xr) == multiset(yr) by {
        RemoveAt(x, 0);
        RemoveAt(y, i);
      }
      TreeFpsPermutation(h, xr, yr);
      TreeFpsSplit(h, x, 0);
      TreeFpsSplit(h, y, i);
    }
  }

  // ----- the encoders over rows

  function IntsRow(h: Hashing, nodes: seq<Node>, c: ConstraintRow): seq<int>
    requires RowOk(nodes, c)
  {
    if c.intMin == 0 && c.intMax == 0 then []
    else [1, Bit(c.intMin != 0, 1) + Bit(c.intMax != 0, 4)] + BoundRow(h, nodes, c.intMin) + BoundRow(h, nodes, c.intMax)
  }

  function RealsRow(h: Hashing, nodes: seq<Node>, c: ConstraintRow): seq<int>
    requires RowOk(nodes, c)
  {
    if c.realMin == 0 && c.realMax == 0 then []
    else
      [16, Bit(c.realMin != 0, 1) + Bit(c.minInclusive, 2) + Bit(c.realMax != 0, 4) + Bit(c.maxInclusive, 8)]
      + BoundRow(h, nodes, c.realMin) + BoundRow(h, nodes, c.realMax)
  }

  function RowEncoding(h: Hashing, nodes: seq<Node>, fps: seq<nat>, c: ConstraintRow): seq<int>
    requires RowOk(nodes, c) && |fps| == |nodes|
  {
    [VERSION, 0xc1] + IntsRow(h, nodes, c) + RealsRow(h, nodes, c) + FormatCode(c.format) + LengthCode(c.length)
    + (if c.enum.None? then [] else [8, |c.enum.value|] + FpsOf(fps, c.enum.value))
  }

  function BoundRow(h: Hashing, nodes: seq<Node>, id: nat): seq<int>
    requires id != 0 ==> IsAtom(nodes, id)
  {
    if id == 0 then [0] else [1] + h.atomBytes(AtomAt(nodes, id))
  }

  function FpsOf(fps: seq<nat>, ids: seq<nat>): seq<int>
    requires forall i :: 0 <= i < |ids| ==> 1 <= ids[i] <= |fps|
  {
    seq(|ids|, i requires 0 <= i < |ids| => fps[ids[i] - 1])
  }

  function FieldRowsEncoding(h: Hashing, fps: seq<nat>, fs: seq<FieldRow>, withMeta: bool): seq<int>
    requires forall i :: 0 <= i < |fs| ==> 1 <= fs[i].value <= |fps|
  {
    if fs == [] then []
    else
      var last := fs[|fs| - 1];
      FieldRowsEncoding(h, fps, fs[..|fs| - 1], withMeta) +
      FieldCode(h, last.name, last.optional, fps[last.value - 1], last.meta, withMeta)
  }

  predicate AnyRowMeta(fs: seq<FieldRow>) {
    exists i :: 0 <= i < |fs| && fs[i].meta != 0
  }

  /** What the `intern*` methods hash for a node whose children have the fingerprints `fps`. */
  function NodeEncoding(h: Hashing, fps: seq<nat>, conFps: seq<nat>, n: Node): seq<int>
    requires ChildrenBelow(n, |fps| + 1, |conFps|)
  {
    match n
    case AnyNode => [VERSION, 1]
    case NeverNode => [VERSION, 2]
    case BoolNode => [VERSION, 4]
    case IntNode => [VERSION, 5]
    case RealNode => [VERSION, 15]
    case StringNode => [VERSION, 6]
    case AtomNode(a) => AtomEncoding(h, a)
    case ListNode(e) => [VERSION, 10, fps[e - 1]]
    case TupleNode(es) => [VERSION, 11, |es|] + FpsOf(fps, es)
    case ObjectNode(fs) => [VERSION, 12, |fs|] + FieldRowsEncoding(h, fps, fs, !h.semantic && AnyRowMeta(fs))
    case SumNode(ms) => [VERSION, 13, |ms|] + SortHashes(FpsOf(fps, ms))
    case RefinedNode(b, c, m, name) =>
      RefinedCode(h, fps[b - 1], if c == 0 then 0 else conFps[c - 1], m, name)
  }

  /** The fingerprint `appendNode` stores. */
  function NodeFp(h: Hashing, fps: seq<nat>, conFps: seq<nat>, n: Node): nat
    requires ChildrenBelow(n, |fps| + 1, |conFps|)
  {
    if h.semantic && n.RefinedNode? && n.con == 0 then fps[n.base - 1] else h.hash(NodeEncoding(h, fps, conFps, n))
  }

  // ----- agreement

  /** Every stored fingerprint is the hash of its row. */
  predicate Hashed(h: Hashing, nodes: seq<Node>, rows: seq<ConstraintRow>, fps: seq<nat>, conFps: seq<nat>) {
    && Ordered(nodes, rows) && |fps| == |nodes| && |conFps| == |rows|
    && (forall k :: 0 <= k < |nodes| ==> NodeHashed(h, nodes, fps, conFps, k))
    && (forall c :: 0 <= c < |rows| ==> RowHashed(h, nodes, rows, fps, conFps, c))
  }

  predicate RowHashed(h: Hashing, nodes: seq<Node>, rows: seq<ConstraintRow>, fps: seq<nat>, conFps: seq<nat>, c: nat)
    requires |fps| == |nodes| && |conFps| == |rows| && c < |rows|
  {
    RowOk(nodes, rows[c]) && conFps[c] == h.hash(RowEncoding(h, nodes, fps, rows[c]))
  }

  predicate NodeHashed(h: Hashing, nodes: seq<Node>, fps: seq<nat>, conFps: seq<nat>, k: nat)
    requires k < |nodes| == |fps|
  {
    && ChildrenBelow(nodes[k], k + 1, |conFps|)
    && fps[k] == NodeFp(h, fps[..k], conFps, nodes[k])
  }

  lemma AtomFpStored(h: Hashing, nodes: seq<Node>, rows: seq<ConstraintRow>, fps: seq<nat>, conFps: seq<nat>, id: nat)
    requires Hashed(h, nodes, rows, fps, conFps) && IsAtom(nodes, id)
    ensures fps[id - 1] == h.hash(AtomEncoding(h, AtomAt(nodes, id)))
  {
    assert NodeHashed(h, nodes, fps, conFps, id - 1);
  }

  lemma EnumFpsAgree(h: Hashing, nodes: seq<Node>, rows: seq<ConstraintRow>, fps: seq<nat>, conFps: seq<nat>, ids: seq<nat>)
    requires Hashed(h, nodes, rows, fps, conFps) && |fps| == |nodes|
    requires forall i :: 0 <= i < |ids| ==> 1 <= ids[i] <= |fps| && IsAtom(nodes, ids[i])
    ensures FpsOf(fps, ids) == AtomFps(h, AtomsAt(nodes, ids))
  {
    forall i | 0 <= i < |ids| ensures FpsOf(fps, ids)[i] == AtomFps(h, AtomsAt(nodes, ids))[i] {
      AtomFpStored(h, nodes, rows, fps, conFps, ids[i]);
    }
  }

  lemma BoundRowsAgree(h: Hashing, nodes: seq<Node>, c: ConstraintRow)
    requires RowOk(nodes, c)
    ensures IntsRow(h, nodes, c) == IntsCode(h, RowTree(nodes, c).ints)
    ensures RealsRow(h, nodes, c) == RealsCode(h, RowTree(nodes, c).reals)
  {
  }

  lemma RowEncodingAgrees(h: Hashing, nodes: seq<Node>, rows: seq<ConstraintRow>, fps: seq<nat>, conFps: seq<nat>,
                          c: ConstraintRow)
    requires Hashed(h, nodes, rows, fps, conFps) && RowOk(nodes, c)
    ensures RowEncoding(h, nodes, fps, c) == ConstraintEncoding(h, RowTree(nodes, c))
  {
    BoundRowsAgree(h, nodes, c);
    if c.enum.Some? { EnumFpsAgree(h, nodes, rows, fps, conFps, c.enum.value); }
  }

  lemma {:induction false} FieldsEncodingAgrees(h: Hashing, fps: seq<nat>, rs: seq<FieldRow>, fs: seq<Field>, withMeta: bool)
    requires |rs| == |fs|
    requires forall i :: 0 <= i < |rs| ==> 1 <= rs[i].value <= |fps|
    requires forall i :: 0 <= i < |rs| ==>
      && rs[i].name == fs[i].name && rs[i].optional == fs[i].optional && rs[i].meta == fs[i].meta
      && fps[rs[i].value - 1] == TreeFp(h, fs[i].typ)
    ensures FieldRowsEncoding(h, fps, rs, withMeta) == FieldsEncoding(h, fs, withMeta)
  {
    if rs != [] { FieldsEncodingAgrees(h, fps, rs[..|rs| - 1], fs[..|fs| - 1], withMeta); }
  }

  lemma ChildFpsAgree(h: Hashing, fps: seq<nat>, ids: seq<nat>, ts: seq<Type>)
    requires |ids| == |ts| && forall i :: 0 <= i < |ids| ==> 1 <= ids[i] <= |fps| && fps[ids[i] - 1] == TreeFp(h, ts[i])
    ensures FpsOf(fps, ids) == TreeFps(h, ts)
  {
  }

  /** The children of a row already carry the fingerprints of their trees. */
  ghost predicate FpsAgree(h: Hashing, nodes: seq<Node>, rows: seq<ConstraintRow>, fps: seq<nat>)
    requires Ordered(nodes, rows) && |fps| <= |nodes|
  {
    forall c :: 1 <= c <= |fps| ==> fps[c - 1] == TreeFp(h, Tree(nodes, rows, c))
  }

  lemma ChildAgrees(h: Hashing, nodes: seq<Node>, rows: seq<ConstraintRow>, fps: seq<nat>, c: nat)
    requires Ordered(nodes, rows) && |fps| <= |nodes| && FpsAgree(h, nodes, rows, fps) && 1 <= c <= |fps|
    ensures fps[c - 1] == TreeFp(h, Tree(nodes, rows, c))
  {
  }

  lemma ListedEncodingAgrees(h: Hashing, nodes: seq<Node>, rows: seq<ConstraintRow>, fps: seq<nat>,
                             ids: seq<nat>, ts: seq<Type>)
    requires Ordered(nodes, rows) && |fps| <= |nodes| && FpsAgree(h, nodes, rows, fps) && |ids| == |ts|
    requires forall i :: 0 <= i < |ids| ==> 1 <= ids[i] <= |fps| && ts[i] == Tree(nodes, rows, ids[i])
    ensures FpsOf(fps, ids) == TreeFps(h, ts)
  {
    forall i | 0 <= i < |ids| ensures fps[ids[i] - 1] == TreeFp(h, ts[i]) {
      ChildAgrees(h, nodes, rows, fps, ids[i]);
    }
    ChildFpsAgree(h, fps, ids, ts);
  }

  lemma ObjectEncodingAgrees(h: Hashing, nodes: seq<Node>, rows: seq<ConstraintRow>, fps: seq<nat>, conFps: seq<nat>,
                             id: nat)
    requires Hashed(h, nodes, rows, fps, conFps) && 1 <= id <= |nodes| && nodes[id - 1].ObjectNode?
    requires FpsAgree(h, nodes, rows, fps[..id - 1]) && ChildrenBelow(nodes[id - 1], id, |conFps|)
    ensures NodeEncoding(h, fps[..id - 1], conFps, nodes[id - 1]) == TreeEncoding(h, Tree(nodes, rows, id))
  {
    var (fs, below) := (nodes[id - 1].fields, fps[..id - 1]);
    var ts := Tree(nodes, rows, id).fields;
    forall i | 0 <= i < |fs| ensures below[fs[i].value - 1] == TreeFp(h, ts[i].typ) {
      ChildAgrees(h, nodes, rows, below, fs[i].value);
      assert ts[i].typ == Tree(nodes, rows, fs[i].value);
    }
    FieldsEncodingAgrees(h, below, fs, ts, !h.semantic && AnyRowMeta(fs));
    assert forall i :: 0 <= i < |fs| ==> ts[i].meta == fs[i].meta;
    assert AnyRowMeta(fs) == AnyMeta(ts);
  }

  lemma RefinedEncodingAgrees(h: Hashing, nodes: seq<Node>, rows: seq<ConstraintRow>, fps: seq<nat>, conFps: seq<nat>,
                              id: nat)
    requires Hashed(h, nodes, rows, fps, conFps) && 1 <= id <= |nodes| && nodes[id - 1].RefinedNode?
    requires FpsAgree(h, nodes, rows, fps[..id - 1]) && ChildrenBelow(nodes[id - 1], id, |conFps|)
    ensures NodeEncoding(h, fps[..id - 1], conFps, nodes[id - 1]) == TreeEncoding(h, Tree(nodes, rows, id))
  {
    var (n, below) := (nodes[id - 1], fps[..id - 1]);
    ChildAgrees(h, nodes, rows, below, n.base);
    if n.con != 0 { RowFpAgrees(h, nodes, rows, fps, conFps, n.con); }
    CombineRefined(h, nodes, rows, below, conFps, id);
  }

  lemma CombineRefined(h: Hashing, nodes: seq<Node>, rows: seq<ConstraintRow>, fps: seq<nat>, conFps: seq<nat>, id: nat)
    requires Ordered(nodes, rows) && 1 <= id <= |nodes| && nodes[id - 1].RefinedNode?
    requires ChildrenBelow(nodes[id - 1], |fps| + 1, |conFps|) && |conFps| == |rows| && |fps| == id - 1
    requires var n := nodes[id - 1];
      && fps[n.base - 1] == TreeFp(h, Tree(nodes, rows, n.base))
      && (n.con != 0 ==>
            RowOk(nodes, rows[n.con - 1]) && conFps[n.con - 1] == ConstraintFp(h, RowTree(nodes, rows[n.con - 1])))
    ensures NodeEncoding(h, fps, conFps, nodes[id - 1]) == TreeEncoding(h, Tree(nodes, rows, id))
  {
    RefinedTree(nodes, rows, id);
    var t := Tree(nodes, rows, id);
    RefinedTreeCode(h, t);
    RefinedNodeCode(h, fps, conFps, nodes[id - 1]);
  }

  lemma RefinedTreeCode(h: Hashing, t: Type)
    requires t.Refined?
    ensures TreeEncoding(h, t) == RefinedCode(h, TreeFp(h, t.base), ConstraintFp(h, t.con), t.meta, t.name)
  {
  }

  lemma RefinedNodeCode(h: Hashing, fps: seq<nat>, conFps: seq<nat>, n: Node)
    requires n.RefinedNode? && ChildrenBelow(n, |fps| + 1, |conFps|)
    ensures NodeEncoding(h, fps, conFps, n) ==
      RefinedCode(h, fps[n.base - 1], if n.con == 0 then 0 else conFps[n.con - 1], n.meta, n.name)
  {
  }

  lemma RefinedTree(nodes: seq<Node>, rows: seq<ConstraintRow>, id: nat)
    requires Ordered(nodes, rows) && 1 <= id <= |nodes| && nodes[id - 1].RefinedNode?
    ensures var n := nodes[id - 1];
      && 1 <= n.base < id && n.con <= |rows|
      && Tree(nodes, rows, id) ==
         Refined(Tree(nodes, rows, n.base), if n.con == 0 then UNCONSTRAINED else RowTree(nodes, rows[n.con - 1]), n.meta, n.name)
  {
    assert ChildrenBelow(nodes[id - 1], id, |rows|);
  }

  lemma RowFpAgrees(h: Hashing, nodes: seq<Node>, rows: seq<ConstraintRow>, fps: seq<nat>, conFps: seq<nat>, c: nat)
    requires Hashed(h, nodes, rows, fps, conFps) && 1 <= c <= |rows|
    ensures RowOk(nodes, rows[c - 1]) && conFps[c - 1] == ConstraintFp(h, RowTree(nodes, rows[c - 1]))
  {
    assert RowHashed(h, nodes, rows, fps, conFps, c - 1);
    RowNotEmpty(nodes, rows[c - 1]);
    RowEncodingAgrees(h, nodes, rows, fps, conFps, rows[c - 1]);
  }

  /** The encoders of the `intern*` methods write what the tree encoder writes. */
  lemma NodeEncodingAgrees(h: Hashing, nodes: seq<Node>, rows: seq<ConstraintRow>, fps: seq<nat>, conFps: seq<nat>,
                           id: nat)
    requires Hashed(h, nodes, rows, fps, conFps) && 1 <= id <= |nodes|
    requires FpsAgree(h, nodes, rows, fps[..id - 1]) && ChildrenBelow(nodes[id - 1], id, |conFps|)
    ensures NodeEncoding(h, fps[..id - 1], conFps, nodes[id - 1]) == TreeEncoding(h, Tree(nodes, rows, id))
  {
    var below := fps[..id - 1];
    var t := Tree(nodes, rows, id);
    match nodes[id - 1]
    case ListNode(e) => ChildAgrees(h, nodes, rows, below, e);
    case TupleNode(es) => ListedEncodingAgrees(h, nodes, rows, below, es, t.elems);
    case SumNode(ms) => ListedEncodingAgrees(h, nodes, rows, below, ms, t.members);
    case ObjectNode(_) => ObjectEncodingAgrees(h, nodes, rows, fps, conFps, id);
    case RefinedNode(_, _, _, _) => RefinedEncodingAgrees(h, nodes, rows, fps, conFps, id);
    case _ =>
  }

  /** The fingerprint stored for an ID is the fingerprint of its tree, so it is the same in every arena, and
    * the same as that of a derived view with this tree. */
  lemma {:induction false} StoredFingerprint(h: Hashing, nodes: seq<Node>, rows: seq<ConstraintRow>,
                                             fps: seq<nat>, conFps: seq<nat>, id: nat)
    requires Hashed(h, nodes, rows, fps, conFps) && 1 <= id <= |nodes|
    ensures fps[id - 1] == TreeFp(h, Tree(nodes, rows, id))
    decreases id
  {
    forall c | 1 <= c <= |fps[..id - 1]| ensures fps[..id - 1][c - 1] == TreeFp(h, Tree(nodes, rows, c)) {
      StoredFingerprint(h, nodes, rows, fps, conFps, c);
    }
    assert NodeHashed(h, nodes, fps, conFps, id - 1);
    NodeEncodingAgrees(h, nodes, rows, fps, conFps, id);
    if nodes[id - 1].RefinedNode? { WrapperFpAgrees(h, nodes, rows, fps, conFps, id); }
  }

  /** A row without a constraint is a wrapper, and takes over the semantics of its base. */
  lemma WrapperFpAgrees(h: Hashing, nodes: seq<Node>, rows: seq<ConstraintRow>, fps: seq<nat>, conFps: seq<nat>, id: nat)
    requires Hashed(h, nodes, rows, fps, conFps) && 1 <= id <= |nodes| && nodes[id - 1].RefinedNode?
    requires FpsAgree(h, nodes, rows, fps[..id - 1])
    ensures var n := nodes[id - 1];
      && (Tree(nodes, rows, id).Wrapper() <==> n.con == 0)
      && fps[n.base - 1] == TreeFp(h, Tree(nodes, rows, id).base)
  {
    var n := nodes[id - 1];
    RefinedTree(nodes, rows, id);
    ChildAgrees(h, nodes, rows, fps[..id - 1], n.base);
    if n.con != 0 {
      RowFpAgrees(h, nodes, rows, fps, conFps, n.con);
      RowNotEmpty(nodes, rows[n.con - 1]);
    }
  }

  /** The semantic table and the complete one agree on atoms, and so on constraints. */
  lemma RowEncodingShared(h: Hashing, nodes: seq<Node>, rows: seq<ConstraintRow>, fps: seq<nat>, sems: seq<nat>,
                          conFps: seq<nat>, c: ConstraintRow)
    requires Hashed(Complete(h), nodes, rows, fps, conFps) && Hashed(Semantic(h), nodes, rows, sems, conFps)
    requires RowOk(nodes, c)
    ensures RowEncoding(Complete(h), nodes, fps, c) == RowEncoding(Semantic(h), nodes, sems, c)
  {
    RowEncodingAgrees(Complete(h), nodes, rows, fps, conFps, c);
    RowEncodingAgrees(Semantic(h), nodes, rows, sems, conFps, c);
    SameConstraintEncoding(h, RowTree(nodes, c));
  }

  lemma SameConstraintEncoding(h: Hashing, c: Constraint)
    ensures ConstraintEncoding(Complete(h), c) == ConstraintEncoding(Semantic(h), c)
  {
    var (x, y) := (Complete(h), Semantic(h));
    assert IntsCode(x, c.ints) == IntsCode(y, c.ints) && RealsCode(x, c.reals) == RealsCode(y, c.reals);
    if c.enum.Some? { SameAtomFps(h, c.enum.value); }
  }

  lemma SameAtomFps(h: Hashing, e: seq<Atom>)
    ensures AtomFps(Complete(h), e) == AtomFps(Semantic(h), e)
  {
    var (x, y) := (Complete(h), Semantic(h));
    assert |AtomFps(x, e)| == |AtomFps(y, e)|;
    forall i | 0 <= i < |e| ensures AtomFps(x, e)[i] == AtomFps(y, e)[i] {
      assert AtomEncoding(x, e[i]) == AtomEncoding(y, e[i]);
    }
  }
}
