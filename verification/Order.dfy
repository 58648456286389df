/** The lattice order (internal/compiled/order.go). */
module Order {
  import opened Wrappers
  import opened Atoms
  import opened Constraints
  import opened Types

  function MaxMin(min: int, d: IntBounds): int {
    if d.min.Some? && d.min.value > min then d.min.value else min
  }

  function MinMax(max: Option<int>, d: IntBounds): Option<int> {
    if d.max.Some? && (max.None? || d.max.value < max.value) then d.max else max
  }

  function RequiredCount(fs: seq<Field>): nat {
    if fs == [] then 0
    else RequiredCount(fs[..|fs| - 1]) + if fs[|fs| - 1].optional then 0 else 1
  }

  /** The lengths the values of a container type can have, read off its shape. */
  function ContainerLength(t: Type): (r: Option<IntBounds>)
    ensures r.Some? ==> r.value.min.Some?
  {
    match t
    case List(_) => Some(IntBounds(Some(0), None))
    case Tuple(es) => Some(IntBounds(Some(|es|), Some(|es|)))
    case Object(fs) => Some(IntBounds(Some(RequiredCount(fs)), Some(|fs|)))
    case Refined(b, c, _, _) =>
      var r := ContainerLength(b);
      if r.None? then None
      else Some(IntBounds(Some(MaxMin(r.value.min.value, c.length)), MinMax(r.value.max, c.length)))
    case _ => None
  }

  /** `SubtypeOf`.  With `oneArena` two references are identical exactly when they denote the same
    * tree, because the arena interns every tree once; without it (two arenas) they never are. */
  predicate SubtypeOf(oneArena: bool, a: Type, b: Type)
    decreases Size(a) + Size(b), 2
  {
    if (oneArena && a == b) || a.Never? || b.Any? then true
    else if a.Any? || b.Never? then false
    else if a.Sum? then forall i :: 0 <= i < |a.members| ==> SubtypeOf(oneArena, a.members[i], b)
    else if a.Wrapper() then SubtypeOf(oneArena, a.base, b)
    else if b.Wrapper() then SubtypeOf(oneArena, a, b.base)
    else if b.Sum? then exists i :: 0 <= i < |b.members| && SubtypeOf(oneArena, a, b.members[i])
    else if b.Refined? && LengthOnly(b.con) && ContainerLength(a).Some? then
      SubtypeOf(oneArena, a, b.base) && IntsSubset(ContainerLength(a).value, b.con.length)
    else if a.Refined? then RefinedSubtype(oneArena, a, b)
    else if b.Refined? then
      && Literal(a).Some?
      && SubtypeOf(oneArena, Lit(Literal(a).value), b.base)
      && Satisfies(b.con, Scalar(Literal(a).value))
    else ShapeSubtype(oneArena, a, b)
  }

  predicate RefinedSubtype(oneArena: bool, a: Type, b: Type)
    requires a.Refined?
    decreases Size(a) + Size(b), 1
  {
    if b.Refined? && SubtypeOf(oneArena, a.base, b.base) && SubtypeOf(oneArena, b.base, a.base) then
      Subset(a.con, b.con)
    else if Literal(a).Some? then SubtypeOf(oneArena, Lit(Literal(a).value), b)
    else SubtypeOf(oneArena, a.base, b)
  }

  /** The last step: neither side is a union, a refinement, `any` or `never`. */
  predicate ShapeSubtype(oneArena: bool, a: Type, b: Type)
    decreases Size(a) + Size(b), 1
  {
    match a
    case Bool => b.Bool?
    case Int => b.Int? || b.Real?
    case Real => b.Real?
    case String => b.String?
    case Lit(x) => AtomSubtype(x, b)
    case List(e) => b.List? && SubtypeOf(oneArena, e, b.elem)
    case Tuple(es) =>
      if b.List? then forall i :: 0 <= i < |es| ==> SubtypeOf(oneArena, es[i], b.elem)
      else
        && b.Tuple? && |es| == |b.elems|
        && forall i :: 0 <= i < |es| ==> SubtypeOf(oneArena, es[i], b.elems[i])
    case Object(fs) => b.Object? && ObjectSubtype(oneArena, fs, b.fields, Size(a) + Size(b))
    case _ => false
  }

  predicate AtomSubtype(x: Atom, b: Type) {
    match x
    case NullAtom => b == Lit(NullAtom)
    case BoolAtom(_) => b.Bool? || (b.Lit? && b.atom.BoolAtom? && CompareAtoms(x, b.atom) == 0)
    case IntAtom(_) => b.Int? || b.Real? || (b.Lit? && b.atom.Numeric() && CompareAtoms(x, b.atom) == 0)
    case RealAtom(_) => b.Real? || (b.Lit? && b.atom.RealAtom? && CompareAtoms(x, b.atom) == 0)
    case StringAtom(_) => b.String? || (b.Lit? && b.atom.StringAtom? && CompareAtoms(x, b.atom) == 0)
  }

  /** Every field of the left is declared on the right, no less optional there, and below it; every
    * required field of the right is required on the left. */
  predicate ObjectSubtype(oneArena: bool, af: seq<Field>, bf: seq<Field>, ghost bound: nat)
    requires forall i, j :: 0 <= i < |af| && 0 <= j < |bf| ==> Size(af[i].typ) + Size(bf[j].typ) < bound
    decreases bound, 0
  {
    && (forall i :: 0 <= i < |af| ==>
          var j := IndexOf(bf, af[i].name);
          && j >= 0
          && (af[i].optional ==> bf[j].optional)
          && SubtypeOf(oneArena, af[i].typ, bf[j].typ))
    && (forall j :: 0 <= j < |bf| && !bf[j].optional ==>
          var i := IndexOf(af, bf[j].name);
          i >= 0 && !af[i].optional)
  }

  /** The order between types of different arenas, without the identity shortcut. */
  predicate Below(a: Type, b: Type) {
    SubtypeOf(false, a, b)
  }
}
