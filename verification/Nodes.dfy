/** The rows of the arena and the trees they denote (internal/compiled/nodes.go, arena.go, constraint.go). */
module Nodes {
  import opened Wrappers
  import opened Atoms
  import opened Constraints
  import opened Types
  import opened HashTables

  datatype FieldRow = FieldRow(name: string, value: nat, optional: bool, meta: nat)

  /** One interned node.  Children are IDs; the null type is the atom row of its value. */
  datatype Node =
    | AnyNode | NeverNode | BoolNode | IntNode | RealNode | StringNode
    | AtomNode(a: Atom)
    | ListNode(elem: nat)
    | TupleNode(elems: seq<nat>)
    | ObjectNode(fields: seq<FieldRow>)
    | SumNode(members: seq<nat>)
    | RefinedNode(base: nat, con: nat, meta: nat, name: string)

  /** One interned constraint; numeric bounds and enum members are atom IDs, zero is an absent bound. */
  datatype ConstraintRow = ConstraintRow(
    intMin: nat, intMax: nat,
    realMin: nat, minInclusive: bool, realMax: nat, maxInclusive: bool,
    format: FloatFormat,
    length: IntBounds,
    enum: Option<seq<nat>>)

  predicate IsAtom(nodes: seq<Node>, id: nat) {
    1 <= id <= |nodes| && nodes[id - 1].AtomNode?
  }

  predicate IsInt(nodes: seq<Node>, id: nat) {
    IsAtom(nodes, id) && nodes[id - 1].a.IntAtom?
  }

  predicate IsReal(nodes: seq<Node>, id: nat) {
    IsAtom(nodes, id) && nodes[id - 1].a.RealAtom?
  }

  /** The one constraint that is never interned: ID zero stands for it. */
  const EMPTY_ROW := ConstraintRow(0, 0, 0, false, 0, false, NoFormat, NO_INTS, None)

  predicate RowOk(nodes: seq<Node>, c: ConstraintRow) {
    && c != EMPTY_ROW
    && (c.intMin != 0 ==> IsInt(nodes, c.intMin)) && (c.intMax != 0 ==> IsInt(nodes, c.intMax))
    && (c.realMin != 0 ==> IsReal(nodes, c.realMin)) && (c.realMax != 0 ==> IsReal(nodes, c.realMax))
    && (c.realMin == 0 ==> !c.minInclusive) && (c.realMax == 0 ==> !c.maxInclusive)
    && (c.enum.Some? ==> forall i :: 0 <= i < |c.enum.value| ==> IsAtom(nodes, c.enum.value[i]))
  }

  /** Children are interned before their parents, and so are constraints. */
  predicate ChildrenBelow(n: Node, id: nat, constraints: nat) {
    match n
    case ListNode(e) => 1 <= e < id
    case TupleNode(es) => forall i :: 0 <= i < |es| ==> 1 <= es[i] < id
    case ObjectNode(fs) => forall i :: 0 <= i < |fs| ==> 1 <= fs[i].value < id
    case SumNode(ms) => forall i :: 0 <= i < |ms| ==> 1 <= ms[i] < id
    case RefinedNode(b, c, _, _) => 1 <= b < id && c <= constraints
    case _ => true
  }

  predicate Ordered(nodes: seq<Node>, rows: seq<ConstraintRow>) {
    && (forall k :: 0 <= k < |nodes| ==> ChildrenBelow(nodes[k], k + 1, |rows|))
    && (forall c :: 0 <= c < |rows| ==> RowOk(nodes, rows[c]))
  }

  // ----- denotation

  function AtomAt(nodes: seq<Node>, id: nat): Atom
    requires IsAtom(nodes, id)
  {
    nodes[id - 1].a
  }

  function AtomsAt(nodes: seq<Node>, ids: seq<nat>): seq<Atom>
    requires forall i :: 0 <= i < |ids| ==> IsAtom(nodes, ids[i])
  {
    seq(|ids|, i requires 0 <= i < |ids| => AtomAt(nodes, ids[i]))
  }

  function RowTree(nodes: seq<Node>, c: ConstraintRow): Constraint
    requires RowOk(nodes, c)
  {
    Constraint(
      IntBounds(if c.intMin == 0 then None else Some(AtomAt(nodes, c.intMin).i),
                if c.intMax == 0 then None else Some(AtomAt(nodes, c.intMax).i)),
      RealBounds(if c.realMin == 0 then None else Some(Limit(AtomAt(nodes, c.realMin).r, c.minInclusive)),
                 if c.realMax == 0 then None else Some(Limit(AtomAt(nodes, c.realMax).r, c.maxInclusive))),
      c.format, c.length,
      if c.enum.None? then None else Some(AtomsAt(nodes, c.enum.value)))
  }

  /** The type tree below an ID. */
  function Tree(nodes: seq<Node>, rows: seq<ConstraintRow>, id: nat): Type
    requires Ordered(nodes, rows) && 1 <= id <= |nodes|
    decreases id
  {
    var n := nodes[id - 1];
    assert ChildrenBelow(n, id, |rows|);
    match n
    case AnyNode => Any
    case NeverNode => Never
    case BoolNode => Bool
    case IntNode => Int
    case RealNode => Real
    case StringNode => String
    case AtomNode(a) => Lit(a)
    case ListNode(e) => List(Tree(nodes, rows, e))
    case TupleNode(es) => Tuple(seq(|es|, i requires 0 <= i < |es| => Tree(nodes, rows, es[i])))
    case ObjectNode(fs) =>
      Object(seq(|fs|, i requires 0 <= i < |fs| =>
        Field(fs[i].name, Tree(nodes, rows, fs[i].value), fs[i].optional, fs[i].meta)))
    case SumNode(ms) => Sum(seq(|ms|, i requires 0 <= i < |ms| => Tree(nodes, rows, ms[i])))
    case RefinedNode(b, c, m, name) =>
      Refined(Tree(nodes, rows, b), if c == 0 then UNCONSTRAINED else RowTree(nodes, rows[c - 1]), m, name)
  }

  predicate Extends(nodes: seq<Node>, rows: seq<ConstraintRow>, nodes': seq<Node>, rows': seq<ConstraintRow>) {
    nodes <= nodes' && rows <= rows'
  }

  lemma RowTreeStable(nodes: seq<Node>, nodes': seq<Node>, c: ConstraintRow)
    requires RowOk(nodes, c) && nodes <= nodes'
    ensures RowOk(nodes', c) && RowTree(nodes', c) == RowTree(nodes, c)
  {
    if c.enum.Some? {
      var ids := c.enum.value;
      forall i | 0 <= i < |ids| ensures IsAtom(nodes', ids[i]) && AtomAt(nodes', ids[i]) == AtomAt(nodes, ids[i]) {
        assert IsAtom(nodes, ids[i]);
      }
      assert AtomsAt(nodes', ids) == AtomsAt(nodes, ids);
    }
  }

  /** Appending rows changes the meaning of no old ID. */
  lemma {:induction false} TreeStable(nodes: seq<Node>, rows: seq<ConstraintRow>,
                                      nodes': seq<Node>, rows': seq<ConstraintRow>, id: nat)
    requires Ordered(nodes, rows) && Ordered(nodes', rows') && Extends(nodes, rows, nodes', rows')
    requires 1 <= id <= |nodes|
    ensures Tree(nodes', rows', id) == Tree(nodes, rows, id)
    decreases id
  {
    var n := nodes[id - 1];
    assert nodes'[id - 1] == n;
    assert ChildrenBelow(n, id, |rows|);
    match n
    case ListNode(e) => TreeStable(nodes, rows, nodes', rows', e);
    case TupleNode(es) =>
      forall i | 0 <= i < |es| ensures Tree(nodes', rows', es[i]) == Tree(nodes, rows, es[i]) {
        TreeStable(nodes, rows, nodes', rows', es[i]);
      }
    case ObjectNode(fs) =>
      forall i | 0 <= i < |fs| ensures Tree(nodes', rows', fs[i].value) == Tree(nodes, rows, fs[i].value) {
        TreeStable(nodes, rows, nodes', rows', fs[i].value);
      }
    case SumNode(ms) =>
      forall i | 0 <= i < |ms| ensures Tree(nodes', rows', ms[i]) == Tree(nodes, rows, ms[i]) {
        TreeStable(nodes, rows, nodes', rows', ms[i]);
      }
    case RefinedNode(b, c, _, _) =>
      TreeStable(nodes, rows, nodes', rows', b);
      if c != 0 {
        assert rows'[c - 1] == rows[c - 1];
        RowTreeStable(nodes, nodes', rows[c - 1]);
      }
    case _ =>
  }

  // ----- two IDs are equal exactly when they denote the same tree

  lemma AtomIdUnique(nodes: seq<Node>, i: nat, j: nat)
    requires Distinct(nodes) && IsAtom(nodes, i) && IsAtom(nodes, j) && AtomAt(nodes, i) == AtomAt(nodes, j)
    ensures i == j
  {
    DistinctIndex(nodes, i - 1, j - 1);
  }

  lemma RowUnique(nodes: seq<Node>, c: ConstraintRow, d: ConstraintRow)
    requires Distinct(nodes) && RowOk(nodes, c) && RowOk(nodes, d) && RowTree(nodes, c) == RowTree(nodes, d)
    ensures c == d
  {
    if c.intMin != 0 { AtomIdUnique(nodes, c.intMin, d.intMin); }
    if c.intMax != 0 { AtomIdUnique(nodes, c.intMax, d.intMax); }
    if c.realMin != 0 { AtomIdUnique(nodes, c.realMin, d.realMin); }
    if c.realMax != 0 { AtomIdUnique(nodes, c.realMax, d.realMax); }
    if c.enum.Some? {
      var (x, y) := (c.enum.value, d.enum.value);
      assert |AtomsAt(nodes, x)| == |AtomsAt(nodes, y)|;
      forall i | 0 <= i < |x| ensures x[i] == y[i] {
        assert AtomsAt(nodes, x)[i] == AtomsAt(nodes, y)[i];
        AtomIdUnique(nodes, x[i], y[i]);
      }
      assert x == y;
    }
  }

  lemma RowNotEmpty(nodes: seq<Node>, c: ConstraintRow)
    requires RowOk(nodes, c)
    ensures RowTree(nodes, c) != UNCONSTRAINED
  {
  }

  lemma SameConstraint(nodes: seq<Node>, rows: seq<ConstraintRow>, c: nat, d: nat)
    requires Ordered(nodes, rows) && Distinct(nodes) && Distinct(rows) && c <= |rows| && d <= |rows|
    requires (if c == 0 then UNCONSTRAINED else RowTree(nodes, rows[c - 1])) ==
             (if d == 0 then UNCONSTRAINED else RowTree(nodes, rows[d - 1]))
    ensures c == d
  {
    if c == 0 && d != 0 { RowNotEmpty(nodes, rows[d - 1]); }
    if d == 0 && c != 0 { RowNotEmpty(nodes, rows[c - 1]); }
    if c != 0 && d != 0 {
      RowUnique(nodes, rows[c - 1], rows[d - 1]);
      DistinctIndex(rows, c - 1, d - 1);
    }
  }

  lemma {:induction false} SameTrees(nodes: seq<Node>, rows: seq<ConstraintRow>, x: seq<nat>, y: seq<nat>, bound: nat)
    requires Ordered(nodes, rows) && Distinct(nodes) && Distinct(rows) && bound <= |nodes|
    requires forall i :: 0 <= i < |x| ==> 1 <= x[i] <= bound
    requires forall i :: 0 <= i < |y| ==> 1 <= y[i] <= |nodes|
    requires |x| == |y| && forall i :: 0 <= i < |x| ==> Tree(nodes, rows, x[i]) == Tree(nodes, rows, y[i])
    ensures x == y
    decreases bound, 3
  {
    forall i | 0 <= i < |x| ensures x[i] == y[i] {
      TreeUnique(nodes, rows, x[i], y[i]);
    }
  }

  lemma {:induction false} TreeUnique(nodes: seq<Node>, rows: seq<ConstraintRow>, i: nat, j: nat)
    requires Ordered(nodes, rows) && Distinct(nodes) && Distinct(rows)
    requires 1 <= i <= |nodes| && 1 <= j <= |nodes|
    requires Tree(nodes, rows, i) == Tree(nodes, rows, j)
    ensures i == j
    decreases i, 2
  {
    var (m, n) := (nodes[i - 1], nodes[j - 1]);
    assert ChildrenBelow(m, i, |rows|) && ChildrenBelow(n, j, |rows|);
    NodeUnique(nodes, rows, i, j);
    DistinctIndex(nodes, i - 1, j - 1);
  }

  lemma {:induction false} NodeUnique(nodes: seq<Node>, rows: seq<ConstraintRow>, i: nat, j: nat)
    requires Ordered(nodes, rows) && Distinct(nodes) && Distinct(rows)
    requires 1 <= i <= |nodes| && 1 <= j <= |nodes|
    requires Tree(nodes, rows, i) == Tree(nodes, rows, j)
    ensures nodes[i - 1] == nodes[j - 1]
    decreases i, 1
  {
    var (m, n) := (nodes[i - 1], nodes[j - 1]);
    assert ChildrenBelow(m, i, |rows|) && ChildrenBelow(n, j, |rows|);
    var (s, t) := (Tree(nodes, rows, i), Tree(nodes, rows, j));
    match m
    case ListNode(e) => TreeUnique(nodes, rows, e, n.elem);
    case TupleNode(es) =>
      assert |es| == |s.elems| == |t.elems| == |n.elems|;
      forall k | 0 <= k < |es| ensures Tree(nodes, rows, es[k]) == Tree(nodes, rows, n.elems[k]) {
        assert s.elems[k] == t.elems[k];
      }
      SameTrees(nodes, rows, es, n.elems, i - 1);
    case SumNode(ms) =>
      assert |ms| == |s.members| == |t.members| == |n.members|;
      forall k | 0 <= k < |ms| ensures Tree(nodes, rows, ms[k]) == Tree(nodes, rows, n.members[k]) {
        assert s.members[k] == t.members[k];
      }
      SameTrees(nodes, rows, ms, n.members, i - 1);
    case ObjectNode(fs) =>
      assert |fs| == |s.fields| == |t.fields| == |n.fields|;
      forall k | 0 <= k < |fs| ensures fs[k] == n.fields[k] {
        assert s.fields[k] == t.fields[k];
        TreeUnique(nodes, rows, fs[k].value, n.fields[k].value);
      }
    case RefinedNode(b, c, _, _) =>
      TreeUnique(nodes, rows, b, n.base);
      SameConstraint(nodes, rows, c, n.con);
    case _ =>
  }
}
