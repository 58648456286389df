/** What a constraint clause says about a value, independently of how it is normalised. */
module Clauses {
  import opened Wrappers
  import opened MachineInts
  import opened Atoms
  import opened Constraints
  import opened Types
  import opened Syntax
  import D = Decimals

  /** The integer an integer literal writes; any size. */
  function IntText(raw: string): Option<int> {
    var digits := if raw != [] && (raw[0] == '-' || raw[0] == '+') then raw[1..] else raw;
    if digits == [] || !D.AllDigits(digits) then None
    else Some(D.Signed(raw[0] == '-', D.Coefficient(digits)))
  }

  /** The atom a scalar literal denotes. */
  function LiteralAtom(e: Expr): Option<Atom> {
    match Ungroup(e)
    case NullLit => Some(NullAtom)
    case BoolLit(b) => Some(BoolAtom(b))
    case IntLit(raw) => if IntText(raw).None? then None else Some(IntAtom(IntText(raw).value))
    case DecimalLit(raw) =>
      if D.ParseText(raw).None? then None else Some(RealAtom(D.Value(D.ParseText(raw).value)))
    case StringLit(s) => Some(StringAtom(s))
    case _ => None
  }

  predicate IsX(e: Expr) {
    Ungroup(e) == Ident(["x"])
  }

  predicate IsLenX(e: Expr) {
    var c := Ungroup(e);
    c.Call? && !c.dotted && c.parts == ["len"] && |c.args| == 1 && IsX(c.args[0])
  }

  predicate IsRangeOp(op: Token) {
    op.Lt? || op.Le? || op.Gt? || op.Ge?
  }

  /** The number an operand of a comparison stands for, for the value `v`. */
  function Quantity(e: Expr, v: Type): Option<real> {
    if IsX(e) then
      if v.Lit? && v.atom.Numeric() then Some(NumVal(v.atom)) else None
    else if IsLenX(e) then
      if LengthOf(SubjectOf(v)).Some? then Some(LengthOf(SubjectOf(v)).value as real) else None
    else
      if LiteralAtom(e).Some? && LiteralAtom(e).value.Numeric() then Some(NumVal(LiteralAtom(e).value)) else None
  }

  predicate Compares(a: real, op: Token, b: real) {
    match op
    case Lt => a < b
    case Le => a <= b
    case Gt => a > b
    case Ge => a >= b
    case _ => false
  }

  predicate Related(l: Expr, op: Token, r: Expr, v: Type) {
    Quantity(l, v).Some? && Quantity(r, v).Some? && Compares(Quantity(l, v).value, op, Quantity(r, v).value)
  }

  predicate EqualsLiteral(e: Expr, v: Type) {
    v.Lit? && LiteralAtom(e).Some? && SameValue(v.atom, LiteralAtom(e).value)
  }

  function KindsOf(es: seq<Expr>): set<AtomKind> {
    set e | e in es && LiteralAtom(e).Some? :: KindOf(LiteralAtom(e).value)
  }

  /** The kinds of the literals a value is compared for equality with. */
  function LiteralKinds(e: Expr): set<AtomKind>
    decreases e
  {
    var c := Ungroup(e);
    if !c.Binary? then {}
    else if c.op.And? || c.op.Or? then LiteralKinds(c.left) + LiteralKinds(c.right)
    else if c.op.Eq? then KindsOf([c.left, c.right])
    else if c.op.In? && ElementsOf(Ungroup(c.right)).Some? then KindsOf(ElementsOf(Ungroup(c.right)).value)
    else {}
  }

  predicate Conjunction(e: Expr) {
    Ungroup(e).Binary? && Ungroup(e).op.And?
  }

  /** A clause of comparisons only: no equality, membership or disjunction. */
  predicate EnumFree(e: Expr)
    decreases e
  {
    var c := Ungroup(e);
    c.Binary? && if c.op.And? then EnumFree(c.left) && EnumFree(c.right) else IsRangeOp(c.op)
  }

  /** Whether the value satisfies the clause.  A chain `a <= x < b` means both of its comparisons. */
  predicate Sat(e: Expr, v: Type)
    decreases e
  {
    var c := Ungroup(e);
    c.Binary? &&
    if c.op.And? then Sat(c.left, v) && Sat(c.right, v)
    else if c.op.Or? then Sat(c.left, v) || Sat(c.right, v)
    else if IsRangeOp(c.op) then
      var l := Ungroup(c.left);
      if l.Binary? && IsRangeOp(l.op) then Sat(c.left, v) && Related(l.right, c.op, c.right, v)
      else Related(c.left, c.op, c.right, v)
    else if c.op.Eq? then
      (IsX(c.left) && EqualsLiteral(c.right, v)) || (IsX(c.right) && EqualsLiteral(c.left, v))
    else if c.op.In? then
      && IsX(c.left)
      && ElementsOf(Ungroup(c.right)).Some?
      && var es := ElementsOf(Ungroup(c.right)).value;
         exists i :: 0 <= i < |es| && EqualsLiteral(es[i], v)
    else false
  }

  // ----- the values a base admits

  /** A base without the refinements around it. */
  function Kernel(t: Type): (k: Type)
    ensures !k.Refined?
    ensures !t.Refined? ==> k == t
  {
    if t.Refined? then Kernel(t.base) else t
  }

  /** A bare concrete value of the base; lengths are machine integers. */
  predicate Admissible(base: Type, v: Type) {
    && !v.Refined?
    && Accepts(base, v)
    && (LengthOf(SubjectOf(v)).Some? ==> LengthOf(SubjectOf(v)).value <= MAX_INT64)
  }

  /** The atoms a base kind can be compared for equality with (`atomCompat`). */
  predicate Compatible(kernel: Type, a: Atom) {
    match kernel
    case Any => true
    case Lit(NullAtom) => a.NullAtom?
    case Bool => a.BoolAtom?
    case Int => a.IntAtom?
    case Real => a.Numeric()
    case String => a.StringAtom?
    case _ => false
  }

  lemma {:induction false} AdmissibleKernel(base: Type, v: Type)
    requires Admissible(base, v)
    ensures Accepts(Kernel(base), v)
    decreases base
  {
    if base.Refined? {
      AdmissibleKernel(base.base, v);
    }
  }
}
