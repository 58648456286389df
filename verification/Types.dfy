/** Compiled types as trees, and the reference semantics of validation
  * (internal/compiled/nodes.go, view.go, validate_type.go). */
module Types {
  import opened Wrappers
  import opened Atoms
  import opened Constraints

  datatype Field = Field(name: string, typ: Type, optional: bool, meta: nat)

  /** A type as the tree below its node.  `Lit(NullAtom)` is the type `null`: the arena keeps one node
    * for the null type and its only value.  A `Refined` node with the empty constraint only carries a
    * metadata set (`meta`) or a name. */
  datatype Type =
    | Any
    | Never
    | Bool
    | Int
    | Real
    | String
    | Lit(atom: Atom)
    | List(elem: Type)
    | Tuple(elems: seq<Type>)
    | Object(fields: seq<Field>)
    | Sum(members: seq<Type>)
    | Refined(base: Type, con: Constraint, meta: nat, name: string)
  {
    /** A refinement that only adds a name or metadata. */
    predicate Wrapper() {
      Refined? && con == UNCONSTRAINED
    }

    predicate Constrained() {
      Refined? && con != UNCONSTRAINED
    }
  }

  /** A base restricted to the atoms of an enum; with one atom, a literal. */
  function EnumType(base: Type, e: seq<Atom>): Type {
    Refined(base, UNCONSTRAINED.(enum := Some(e)), 0, "")
  }

  // ----- size, the measure of every recursion over two types

  function Size(t: Type): (n: nat)
    ensures n >= 1
    ensures t.Tuple? ==> forall i :: 0 <= i < |t.elems| ==> Size(t.elems[i]) < n
    ensures t.Sum? ==> forall i :: 0 <= i < |t.members| ==> Size(t.members[i]) < n
    ensures t.Object? ==> forall i :: 0 <= i < |t.fields| ==> Size(t.fields[i].typ) < n
    decreases t, 0
  {
    match t
    case List(e) => 1 + Size(e)
    case Tuple(es) => 1 + SizeOfTypes(es)
    case Object(fs) => 1 + SizeOfFields(fs)
    case Sum(ms) => 1 + SizeOfTypes(ms)
    case Refined(b, _, _, _) => 1 + Size(b)
    case _ => 1
  }

  function SizeOfTypes(ts: seq<Type>): (n: nat)
    ensures forall i :: 0 <= i < |ts| ==> Size(ts[i]) <= n
    decreases ts, 1
  {
    if ts == [] then 0
    else
      assert forall i :: 0 < i < |ts| ==> ts[i] == ts[1..][i - 1];
      Size(ts[0]) + SizeOfTypes(ts[1..])
  }

  function SizeOfFields(fs: seq<Field>): (n: nat)
    ensures forall i :: 0 <= i < |fs| ==> Size(fs[i].typ) <= n
    decreases fs, 1
  {
    if fs == [] then 0
    else
      assert forall i :: 0 < i < |fs| ==> fs[i] == fs[1..][i - 1];
      Size(fs[0].typ) + SizeOfFields(fs[1..])
  }

  // ----- fields

  /** The position of a field name, or -1. */
  function IndexOf(fs: seq<Field>, name: string): (i: int)
    ensures -1 <= i < |fs|
    ensures i >= 0 ==> fs[i].name == name
    ensures i < 0 ==> forall k :: 0 <= k < |fs| ==> fs[k].name != name
  {
    if fs == [] then -1
    else if fs[|fs| - 1].name == name then |fs| - 1
    else IndexOf(fs[..|fs| - 1], name)
  }

  predicate SortedFields(fs: seq<Field>) {
    forall i, j :: 0 <= i < j < |fs| ==> CompareStrings(fs[i].name, fs[j].name) < 0
  }

  lemma SortedNamesDistinct(fs: seq<Field>, i: nat, j: nat)
    requires SortedFields(fs)
    requires i < |fs| && j < |fs| && fs[i].name == fs[j].name
    ensures i == j
  {
    CompareStringsIsOrder(fs[i].name, fs[j].name);
  }

  // ----- literals and concrete values

  function SubjectOf(v: Type): Subject {
    match v
    case Lit(a) => Scalar(a)
    case Tuple(es) => Sized(|es|)
    case Object(fs) => Sized(|fs|)
    case _ => Other
  }

  /** The scalar atom a type stands for: an atom itself, or a refinement with a one-element enum. */
  function Literal(t: Type): Option<Atom> {
    match t
    case Lit(a) => Some(a)
    case Refined(_, c, _, _) =>
      if c.enum.Some? && |c.enum.value| == 1 && Satisfies(c, Scalar(c.enum.value[0]))
      then Some(c.enum.value[0])
      else None
    case _ => None
  }

  /** A value without the refinements around it. */
  function LiteralBase(v: Type): (b: Type)
    ensures !b.Refined?
    ensures Size(b) <= Size(v)
    ensures !v.Refined? ==> b == v
  {
    if v.Refined? then
      if Literal(v).Some? then Lit(Literal(v).value) else LiteralBase(v.base)
    else v
  }

  predicate IsValue(v: Type) {
    Literal(v).Some? ||
    match v
    case Refined(b, c, _, _) => IsValue(b) && Satisfies(c, SubjectOf(LiteralBase(b)))
    case Tuple(es) => forall i :: 0 <= i < |es| ==> IsValue(es[i])
    case Object(fs) => forall i :: 0 <= i < |fs| ==> !fs[i].optional && IsValue(fs[i].typ)
    case _ => false
  }

  /** The reference semantics: whether `t` admits the concrete value `value`. */
  predicate Accepts(t: Type, value: Type)
    decreases t
  {
    var v := LiteralBase(value);
    match t
    case Any => true
    case Never => false
    case Bool => v.Lit? && v.atom.BoolAtom?
    case Int => v.Lit? && v.atom.IntAtom?
    case Real => v.Lit? && v.atom.Numeric()
    case String => v.Lit? && v.atom.StringAtom?
    case Lit(a) => v.Lit? && AcceptsAtom(a, v.atom)
    case Refined(b, c, _, _) => Accepts(b, v) && Satisfies(c, SubjectOf(v))
    case List(e) => v.Tuple? && forall i :: 0 <= i < |v.elems| ==> Accepts(e, v.elems[i])
    case Tuple(es) =>
      v.Tuple? && |es| == |v.elems| && forall i :: 0 <= i < |es| ==> Accepts(es[i], v.elems[i])
    case Object(fs) =>
      v.Object? && KeysFit(fs, v.fields) &&
      forall i :: 0 <= i < |fs| && IndexOf(v.fields, fs[i].name) >= 0 ==>
        Accepts(fs[i].typ, v.fields[IndexOf(v.fields, fs[i].name)].typ)
    case Sum(ms) => exists i :: 0 <= i < |ms| && Accepts(ms[i], v)
  }

  predicate AcceptsAtom(want: Atom, got: Atom) {
    match want
    case NullAtom => got == NullAtom
    case RealAtom(_) => got.Numeric() && CompareAtoms(got, want) == 0
    case _ => got.Rank() == want.Rank() && CompareAtoms(got, want) == 0
  }

  /** The key rule of objects: every key given is declared, every required key is given. */
  predicate KeysFit(want: seq<Field>, got: seq<Field>) {
    && (forall j :: 0 <= j < |got| ==> IndexOf(want, got[j].name) >= 0)
    && (forall i :: 0 <= i < |want| && !want[i].optional ==> IndexOf(got, want[i].name) >= 0)
  }

  /** Whether a value is concrete and admitted. */
  predicate ValidType(t: Type, value: Type) {
    IsValue(value) && Accepts(t, value)
  }

  // ----- well-formed types: the trees compilation builds

  /** A base that carries a constraint: not a union, not empty, not refined already. */
  predicate Plain(t: Type) {
    !t.Sum? && !t.Never? && !t.Refined?
  }

  /** The enums over `any` that the order treats soundly: all but a single integer. */
  predicate AnyEnumFits(e: seq<Atom>) {
    |e| > 0 && NeighboursDiffer(e) && (|e| == 1 ==> !e[0].IntAtom?)
  }

  /** The finished constraints each base can carry. */
  predicate Fits(base: Type, c: Constraint) {
    match base
    case Lit(NullAtom) => EnumOnly(c) && NormalEnum(c.enum.value) && AllOfKind(c.enum.value, NullKind)
    case Bool => EnumOnly(c) && NormalEnum(c.enum.value) && AllOfKind(c.enum.value, BoolKind)
    case Int =>
      (EnumOnly(c) && NormalEnum(c.enum.value) && AllOfKind(c.enum.value, IntKind)) ||
      (c.ints != NO_INTS && c == UNCONSTRAINED.(ints := c.ints))
    case Real =>
      (EnumOnly(c) && NormalEnum(c.enum.value) && AllOfKind(c.enum.value, RealKind)) ||
      (c != UNCONSTRAINED && c == UNCONSTRAINED.(reals := c.reals, format := c.format))
    case String =>
      (EnumOnly(c) && NormalEnum(c.enum.value) && AllOfKind(c.enum.value, StringKind)) || LengthOnly(c)
    case Any => EnumOnly(c) && AnyEnumFits(c.enum.value)
    case List(_) => LengthOnly(c)
    case Tuple(_) => LengthOnly(c)
    case Object(_) => LengthOnly(c)
    case _ => false
  }

  predicate WellFormed(t: Type) {
    match t
    case List(e) => WellFormed(e)
    case Tuple(es) => forall i :: 0 <= i < |es| ==> WellFormed(es[i]) && !es[i].Never?
    case Object(fs) => SortedFields(fs) && forall i :: 0 <= i < |fs| ==> WellFormed(fs[i].typ)
    case Sum(ms) =>
      |ms| >= 2 &&
      forall i :: 0 <= i < |ms| ==> WellFormed(ms[i]) && !ms[i].Any? && !ms[i].Never? && !ms[i].Sum?
    case Refined(b, c, _, _) =>
      if c == UNCONSTRAINED then WellFormed(b) && !b.Any? && !b.Never?
      else WellFormed(b) && Plain(b) && Fits(b, c)
    case _ => true
  }
}
