/** Which constraint clauses a base takes, read off the syntax (internal/compiled/constraint.go:121-440, 895-940). */
module Acceptance {
  import opened Wrappers
  import opened MachineInts
  import opened Atoms
  import opened Constraints
  import opened Types
  import opened Syntax
  import opened Clauses
  import opened NormalForms
  import opened EnumClauses

  /** A number the value can be compared with: an integer over `int`, an integer or a decimal over `real`. */
  predicate ValueLiteral(kernel: Type, e: Expr) {
    match Ungroup(e)
    case IntLit(raw) => (kernel.Int? || kernel.Real?) && IntText(raw).Some?
    case DecimalLit(raw) => kernel.Real? && LiteralAtom(e).Some?
    case _ => false
  }

  /** A number a length can be compared with: what an `int64` holds and is not negative. */
  predicate LengthLiteral(kernel: Type, e: Expr) {
    match Ungroup(e)
    case IntLit(raw) =>
      && (kernel.String? || kernel.List? || kernel.Tuple? || kernel.Object?)
      && IntText(raw).Some? && 0 <= IntText(raw).value <= MAX_INT64
    case _ => false
  }

  /** `x` or `len(x)` on one side and a literal for it on the other. */
  predicate TakesComparison(kernel: Type, l: Expr, r: Expr) {
    || (IsX(l) && ValueLiteral(kernel, r)) || (IsX(r) && ValueLiteral(kernel, l))
    || (IsLenX(l) && LengthLiteral(kernel, r)) || (IsLenX(r) && LengthLiteral(kernel, l))
  }

  /** A scalar literal that a value of the base can be equal to. */
  predicate EqualLiteral(kernel: Type, e: Expr) {
    LiteralAtom(e).Some? && Compatible(kernel, LiteralAtom(e).value)
  }

  /** An equality of `x` with such a literal, `x` in a list or tuple of them, or a disjunction of these. */
  predicate TakesEnum(kernel: Type, e: Expr)
    decreases e
  {
    var c := Ungroup(e);
    c.Binary? &&
    if c.op.Or? then TakesEnum(kernel, c.left) && TakesEnum(kernel, c.right)
    else if c.op.Eq? then
      (IsX(c.left) && EqualLiteral(kernel, c.right)) || (IsX(c.right) && EqualLiteral(kernel, c.left))
    else
      && c.op.In? && IsX(c.left) && ElementsOf(Ungroup(c.right)).Some?
      && var es := ElementsOf(Ungroup(c.right)).value;
         forall i :: 0 <= i < |es| ==> EqualLiteral(kernel, es[i])
  }

  /** A conjunction of enums and of comparisons; in a chain every neighbouring pair must be one. */
  predicate TakesClause(kernel: Type, e: Expr)
    decreases e
  {
    var c := Ungroup(e);
    c.Binary? &&
    if c.op.And? then TakesClause(kernel, c.left) && TakesClause(kernel, c.right)
    else if IsRangeOp(c.op) then
      var l := Ungroup(c.left);
      if l.Binary? && IsRangeOp(l.op) then TakesClause(kernel, c.left) && TakesComparison(kernel, l.right, c.right)
      else TakesComparison(kernel, c.left, c.right)
    else TakesEnum(kernel, e)
  }

  /** A base can hold an atom exactly when it admits it; over a scalar base, over `any`, and over a container. */
  lemma CompatibleExact(kernel: Type, a: Atom)
    requires ScalarKernel(kernel) || kernel.Any? || Container(kernel)
    ensures Compatible(kernel, a) <==> Accepts(kernel, Lit(a))
  {
    if kernel.Lit? { CompareDecidesValue(a, NullAtom); }
  }

  // ----- against what the normaliser lists

  lemma {:induction false} AtomsExact(kernel: Type, es: seq<Expr>)
    ensures AtomsOf(kernel, es).Some? <==> forall i :: 0 <= i < |es| ==> EqualLiteral(kernel, es[i])
  {
    if es != [] {
      AtomsExact(kernel, es[..|es| - 1]);
      assert forall i :: 0 <= i < |es| - 1 ==> es[..|es| - 1][i] == es[i];
    }
  }

  /** The normaliser lists the atoms of exactly these clauses. */
  lemma {:induction false} ListedExact(kernel: Type, e: Expr)
    ensures ListedAtoms(kernel, e).Some? <==> TakesEnum(kernel, e)
    decreases e
  {
    var c := Ungroup(e);
    if c.Binary? {
      if c.op.Or? {
        ListedExact(kernel, c.left);
        ListedExact(kernel, c.right);
      } else if c.op.Eq? {
        EqualityExact(kernel, c.left, c.right);
      } else if c.op.In? && ElementsOf(Ungroup(c.right)).Some? {
        AtomsExact(kernel, ElementsOf(Ungroup(c.right)).value);
      }
    }
  }

  lemma EqualityExact(kernel: Type, l: Expr, r: Expr)
    ensures EqualityAtoms(kernel, l, r).Some? <==>
      (IsX(l) && EqualLiteral(kernel, r)) || (IsX(r) && EqualLiteral(kernel, l))
  {
    if LiteralAtom(l).Some? { LiteralIsNotX(l); }
    if LiteralAtom(r).Some? { LiteralIsNotX(r); }
  }

  /** A literal is neither of the two operands that stand for the value. */
  lemma ComparisonSides(kernel: Type, l: Expr, r: Expr)
    ensures TakesComparison(kernel, l, r) <==>
      if IsX(l) then ValueLiteral(kernel, r)
      else if IsX(r) then ValueLiteral(kernel, l)
      else if IsLenX(l) then LengthLiteral(kernel, r)
      else IsLenX(r) && LengthLiteral(kernel, l)
  {
  }
}
