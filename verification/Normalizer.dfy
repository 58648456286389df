/** The constraint normaliser: clauses tighten one record of bounds and an enum, step by step
  * (internal/compiled/constraint.go:109-654). */
module Normalizer {
  import opened Wrappers
  import opened MachineInts
  import opened Atoms
  import opened Constraints
  import opened Types
  import opened Syntax
  import opened Clauses
  import opened AtomSets
  import opened NormalForms
  import opened EnumClauses
  import opened Acceptance

  /** Over `any`: the comparison orders the kinds, and the enum ascends and holds no other. */
  predicate Orderly(kernel: Type, n: Constraint, kinds: set<AtomKind>) {
    kernel.Any? ==>
      Orderable(kinds) && (n.enum.Some? ==> Ascending(n.enum.value) && OfKinds(n.enum.value, kinds))
  }

  function Invert(op: Token): Token
    requires IsRangeOp(op)
  {
    match op
    case Lt => Gt
    case Le => Ge
    case Gt => Lt
    case _ => Le
  }

  class Normalizer {
    const base: Type
    var n: Constraint
    var impossible: bool
    /** Over `any`: the kinds of the literals to come. */
    ghost const kinds: set<AtomKind>

    ghost predicate Valid()
      reads this
    {
      Shaped(Kernel(base), n)
    }

    constructor (base: Type, initial: Constraint, ghost kinds: set<AtomKind>)
      requires Shaped(Kernel(base), initial)
      ensures Valid() && this.base == base && this.kinds == kinds && n == initial && !impossible
    {
      this.base, n, impossible, this.kinds := base, initial, false, kinds;
    }

    ghost predicate Tame()
      reads this
    {
      Orderly(Kernel(base), n, kinds)
    }

    /** The enum and the format of an earlier record are unchanged, and over a number only lengths could be found impossible. */
    ghost predicate KeepsEnum(n0: Constraint, impossible0: bool)
      reads this
    {
      n.enum == n0.enum && n.format == n0.format && (Kernel(base).Int? || Kernel(base).Real? ==> impossible == impossible0)
    }

    /** Over `any`: the clause compares with literals of these kinds. */
    ghost predicate TameClause(e: Expr) {
      Kernel(base).Any? ==> LiteralKinds(e) <= kinds
    }

    ghost predicate TameValues(e: seq<Atom>) {
      Kernel(base).Any? ==> OfKinds(e, kinds)
    }

    /** The clause adds the first enum, or the enums can be intersected. */
    ghost predicate Meets(e: Expr)
      reads this
    {
      (n.enum.None? && !Conjunction(e)) || (Tame() && TameClause(e))
    }

    // ----- bounds

    /** Integers are discrete: a strict bound becomes the next inclusive one. */
    method ApplyInt(op: Token, v: int)
      requires IsRangeOp(op)
      modifies this
      ensures n == old(n).(ints := n.ints) && impossible == old(impossible) && n.ints != NO_INTS
      ensures forall i :: InInts(n.ints, i) <==> InInts(old(n.ints), i) && Compares(i as real, op, v as real)
    {
      var (bound, kind) := if op.Gt? then (v + 1, Ge) else if op.Lt? then (v - 1, Le) else (v, op);
      if kind.Ge? {
        if n.ints.min.None? || bound > n.ints.min.value {
          n := n.(ints := n.ints.(min := Some(bound)));
        }
      } else {
        if n.ints.max.None? || bound < n.ints.max.value {
          n := n.(ints := n.ints.(max := Some(bound)));
        }
      }
    }

    /** At an equal value the strict bound wins. */
    method ApplyReal(op: Token, v: real)
      requires IsRangeOp(op)
      modifies this
      ensures n == old(n).(reals := n.reals) && impossible == old(impossible) && n.reals != NO_REALS
      ensures forall r :: InReals(n.reals, r) <==> InReals(old(n.reals), r) && Compares(r, op, v)
    {
      var inclusive := op.Ge? || op.Le?;
      if op.Gt? || op.Ge? {
        var cmp := if n.reals.min.Some? then CompareReals(v, n.reals.min.value.v) else 1;
        if n.reals.min.None? || cmp > 0 || (cmp == 0 && !inclusive && n.reals.min.value.inclusive) {
          n := n.(reals := n.reals.(min := Some(Limit(v, inclusive))));
        }
      } else {
        var cmp := if n.reals.max.Some? then CompareReals(v, n.reals.max.value.v) else -1;
        if n.reals.max.None? || cmp < 0 || (cmp == 0 && !inclusive && n.reals.max.value.inclusive) {
          n := n.(reals := n.reals.(max := Some(Limit(v, inclusive))));
        }
      }
    }

    method ApplyLen(op: Token, v: int64)
      requires IsRangeOp(op) && v >= 0
      modifies this
      ensures n == old(n).(length := n.length)
      ensures old(impossible) ==> impossible
      ensures impossible && !old(impossible) ==> op.Gt? && v as int == MAX_INT64 && n == old(n)
      ensures !impossible ==> n.length != NO_INTS
      ensures !impossible ==>
        forall i :: InInts(n.length, i) <==> InInts(old(n.length), i) && Compares(i as real, op, v as int as real)
    {
      var (bound, kind) := (v, op);
      if op.Gt? {
        if v == 0x7fff_ffff_ffff_ffff {
          impossible := true;
          return;
        }
        bound, kind := v + 1, Ge;
      } else if op.Lt? {
        bound, kind := v - 1, Le;
      }
      if kind.Ge? {
        if n.length.min.None? || bound as int > n.length.min.value {
          n := n.(length := n.length.(min := Some(bound as int)));
        }
      } else {
        if n.length.max.None? || (bound as int) < n.length.max.value {
          n := n.(length := n.length.(max := Some(bound as int)));
        }
      }
    }

    // ----- enums

    /** Intersect the enum; under `real` an integer atom becomes the decimal of its value first. */
    method AddEnum(values: seq<Atom>)
      requires Valid() && AllCompatible(Kernel(base), values)
      modifies this
      ensures Valid() && n == old(n).(enum := n.enum) && n.enum.Some? && impossible == old(impossible)
      ensures n.enum.value == Combined(Kernel(base), old(n.enum), values)
      ensures old(n.enum).None? ==> NeighboursDiffer(n.enum.value)
      ensures old(Tame()) && TameValues(values) ==> Tame()
      ensures old(n.enum).None? || (old(Tame()) && TameValues(values)) ==> forall a ::
        InEnum(n.enum.value, a) <==> (old(n.enum).None? || InEnum(old(n.enum).value, a)) && InEnum(values, a)
    {
      var kernel := Kernel(base);
      if !kernel.Any? || (Tame() && TameValues(values)) {
        CombinedShape(kernel, n.enum, values, kinds);
        if n.enum.Some? { CombinedMeaning(kernel, n.enum.value, values, kinds); }
      }
      FirstMeaning(kernel, values);
      var v := if kernel.Real? then seq(|values|, i requires 0 <= i < |values| => AsReal(values[i])) else values;
      v := SortUnique(v);
      if n.enum.Some? {
        v := Intersect(n.enum.value, v);
      }
      n := n.(enum := Some(v));
    }

    // ----- clauses

    method ValueBound(op: Token, literal: Expr) returns (ok: bool)
      requires Valid() && IsRangeOp(op) && !literal.Group?
      modifies this
      ensures ok <==> ValueLiteral(Kernel(base), literal)
      ensures ok ==> Valid() && !Kernel(base).Any? && KeepsEnum(old(n), old(impossible))
      ensures ok ==> NarrowedBy(base, old(n), old(impossible), n, impossible, X, op, literal)
    {
      ok := false;
      var a := LiteralAtom(literal);
      if Kernel(base).Int? {
        if literal.IntLit? && a.Some? {
          ApplyInt(op, a.value.i);
          ok := true;
          IntBoundMeaning(base, old(n), n, impossible, op, literal);
        }
      } else if Kernel(base).Real? {
        if (literal.IntLit? || literal.DecimalLit?) && a.Some? {
          ApplyReal(op, NumVal(a.value));
          ok := true;
          RealBoundMeaning(base, old(n), n, impossible, op, literal, a.value);
        }
      }
    }

    method LengthBound(op: Token, literal: Expr) returns (ok: bool)
      requires Valid() && IsRangeOp(op) && !literal.Group?
      modifies this
      ensures ok <==> LengthLiteral(Kernel(base), literal)
      ensures ok ==> Valid() && !Kernel(base).Any? && KeepsEnum(old(n), old(impossible))
      ensures ok ==> NarrowedBy(base, old(n), old(impossible), n, impossible, LenX, op, literal)
    {
      ok := false;
      var a := LiteralAtom(literal);
      if (Kernel(base).String? || Container(Kernel(base))) && literal.IntLit? && a.Some? && 0 <= a.value.i <= MAX_INT64 {
        ApplyLen(op, a.value.i as int64);
        ok := true;
        LengthBoundMeaning(base, old(n), old(impossible), n, impossible, op, literal);
      }
    }

    /** One comparison: `x` or `len(x)` on one side, a literal on the other. */
    method Compare(l: Expr, op: Token, r: Expr) returns (ok: bool)
      requires Valid() && IsRangeOp(op)
      modifies this
      ensures ok <==> TakesComparison(Kernel(base), l, r)
      ensures ok ==> Valid() && !Kernel(base).Any? && KeepsEnum(old(n), old(impossible))
      ensures ok ==> NarrowedBy(base, old(n), old(impossible), n, impossible, l, op, r)
    {
      ComparisonSides(Kernel(base), l, r);
      if IsX(l) || IsX(r) {
        ok := CompareValue(l, op, r);
      } else if IsLenX(l) || IsLenX(r) {
        ok := CompareLength(l, op, r);
      } else {
        ok := false;
      }
    }

    method CompareValue(l: Expr, op: Token, r: Expr) returns (ok: bool)
      requires Valid() && IsRangeOp(op) && (IsX(l) || IsX(r))
      modifies this
      ensures ok <==> ValueLiteral(Kernel(base), if IsX(l) then r else l)
      ensures ok ==> Valid() && !Kernel(base).Any? && KeepsEnum(old(n), old(impossible))
      ensures ok ==> NarrowedBy(base, old(n), old(impossible), n, impossible, l, op, r)
    {
      if IsX(l) {
        ok := ValueBound(op, Ungroup(r));
      } else {
        ok := ValueBound(Invert(op), Ungroup(l));
      }
      if ok { OrientedMeaning(base, old(n), old(impossible), n, impossible, l, op, r); }
    }

    method CompareLength(l: Expr, op: Token, r: Expr) returns (ok: bool)
      requires Valid() && IsRangeOp(op) && !IsX(l) && !IsX(r) && (IsLenX(l) || IsLenX(r))
      modifies this
      ensures ok <==> LengthLiteral(Kernel(base), if IsLenX(l) then r else l)
      ensures ok ==> Valid() && !Kernel(base).Any? && KeepsEnum(old(n), old(impossible))
      ensures ok ==> NarrowedBy(base, old(n), old(impossible), n, impossible, l, op, r)
    {
      if IsLenX(l) {
        ok := LengthBound(op, Ungroup(r));
      } else {
        ok := LengthBound(Invert(op), Ungroup(l));
      }
      if ok { OrientedMeaning(base, old(n), old(impossible), n, impossible, l, op, r); }
    }

    /** The atom an equality compares `x` with, if the base can hold it. */
    method EqualityValues(l: Expr, r: Expr) returns (e: Option<seq<Atom>>)
      ensures e == EqualityAtoms(Kernel(base), l, r)
      ensures e.Some? ==> AllCompatible(Kernel(base), e.value)
      ensures e.Some? && TameClause(Binary(l, Eq, r)) ==> TameValues(e.value)
      ensures e.Some? ==> Lists(e.value, v => Sat(Binary(l, Eq, r), v))
    {
      var other := if IsX(l) then r else l;
      if !IsX(l) && !IsX(r) {
        return None;
      }
      var a := LiteralAtom(other);
      if a.None? || !Compatible(Kernel(base), a.value) {
        return None;
      }
      e := Some([a.value]);
      EqualityMeaning(Kernel(base), l, r);
    }

    /** The atoms of a membership test. */
    method InValues(l: Expr, r: Expr) returns (e: Option<seq<Atom>>)
      ensures e == InAtoms(Kernel(base), l, r)
      ensures e.Some? ==> AllCompatible(Kernel(base), e.value)
      ensures e.Some? && TameClause(Binary(l, In, r)) ==> TameValues(e.value)
      ensures e.Some? ==> Lists(e.value, v => Sat(Binary(l, In, r), v))
    {
      var es := ElementsOf(Ungroup(r));
      if !IsX(l) || es.None? {
        return None;
      }
      var out: seq<Atom> := [];
      for i := 0 to |es.value|
        invariant AtomsOf(Kernel(base), es.value[..i]) == Some(out)
      {
        var a := LiteralAtom(es.value[i]);
        assert es.value[..i + 1][..i] == es.value[..i];
        if a.None? || !Compatible(Kernel(base), a.value) {
          NoneStays(Kernel(base), es.value, i + 1);
          return None;
        }
        out := out + [a.value];
      }
      assert es.value[..|es.value|] == es.value;
      var unique := SortUnique(out);
      e := Some(unique);
      InMeaning(Kernel(base), l, r);
    }

    /** A disjunction of equalities and memberships lists the values it allows. */
    method ConsumeEnumOr(e: Expr) returns (r: Option<seq<Atom>>)
      ensures r == ListedAtoms(Kernel(base), e)
      ensures r.Some? ==> AllCompatible(Kernel(base), r.value)
      ensures r.Some? && TameClause(e) ==> TameValues(r.value)
      ensures r.Some? ==> Lists(r.value, v => Sat(e, v))
      decreases e
    {
      var c := Ungroup(e);
      if !c.Binary? {
        return None;
      }
      if c.op.Or? {
        var left := ConsumeEnumOr(c.left);
        if left.None? {
          return None;
        }
        var right := ConsumeEnumOr(c.right);
        if right.None? {
          return None;
        }
        var unique := SortUnique(left.value + right.value);
        r := Some(unique);
      } else if c.op.Eq? {
        r := EqualityValues(c.left, c.right);
      } else if c.op.In? {
        r := InValues(c.left, c.right);
      } else {
        r := None;
      }
      if r.Some? { ListedMeaning(Kernel(base), e); }
    }

    /** Take in one clause.  The record afterwards admits what it admitted before and the clause allows. */
    method Consume(e: Expr) returns (ok: bool)
      requires Valid()
      modifies this
      ensures ok <==> TakesClause(Kernel(base), e)
      ensures ok ==> Valid()
      ensures ok && old(Tame()) && TameClause(e) ==> Tame()
      ensures ok && old(Meets(e)) ==> Narrowed(base, old(n), old(impossible), n, impossible, v => Sat(e, v))
      ensures ok && old(n.enum).None? && !Conjunction(e) && n.enum.Some? ==> NeighboursDiffer(n.enum.value)
      ensures ok && EnumFree(e) ==> KeepsEnum(old(n), old(impossible))
      ensures Kernel(base).Any? ==> (ok <==> ConsumeAny(old(n.enum), e).Some?)
      ensures Kernel(base).Any? && ok ==> n.enum == ConsumeAny(old(n.enum), e) && impossible == old(impossible)
      decreases e
    {
      var c := Ungroup(e);
      ok := false;
      if c.Binary? {
        if c.op.And? {
          ok := Consume(c.left);
          if ok {
            ghost var (n1, i1) := (n, impossible);
            ok := Consume(c.right);
            if ok && old(Tame()) && TameClause(e) {
              BothNarrow(base, old(n), old(impossible), n1, i1, n, impossible, c, e);
            }
          }
        } else if IsRangeOp(c.op) {
          ok := ConsumeChain(c);
          if ok { SameSat(base, old(n), old(impossible), n, impossible, v => Sat(c, v), v => Sat(e, v)); }
        } else {
          ok := ConsumeEnum(e);
        }
      }
    }

    /** A disjunction, an equality or a membership test: its atoms join the enum. */
    method ConsumeEnum(e: Expr) returns (ok: bool)
      requires Valid()
      modifies this
      ensures ok <==> TakesEnum(Kernel(base), e)
      ensures ok <==> ListedAtoms(Kernel(base), e).Some?
      ensures ok ==> Valid() && n == old(n).(enum := n.enum) && impossible == old(impossible)
      ensures ok ==> n.enum == Some(Combined(Kernel(base), old(n.enum), ListedAtoms(Kernel(base), e).value))
      ensures ok && old(Tame()) && TameClause(e) ==> Tame()
      ensures ok && (old(n.enum).None? || (old(Tame()) && TameClause(e))) ==>
        Narrowed(base, old(n), old(impossible), n, impossible, v => Sat(e, v))
      ensures ok && old(n.enum).None? ==> NeighboursDiffer(n.enum.value)
    {
      var c := Ungroup(e);
      ListedExact(Kernel(base), e);
      var r: Option<seq<Atom>> := None;
      if c.Binary? {
        if c.op.Or? {
          r := ConsumeEnumOr(c);
        } else if c.op.Eq? {
          r := EqualityValues(c.left, c.right);
        } else if c.op.In? {
          r := InValues(c.left, c.right);
        }
      }
      ok := r.Some?;
      if ok {
        ListedMeaning(Kernel(base), e);
        AddEnum(r.value);
        if old(n.enum).None? || (old(Tame()) && TameClause(e)) {
          EnumNarrows(base, old(n), n, impossible, r.value, v => Sat(e, v), v => Sat(e, v));
        }
      }
    }

    /** A chain of comparisons, each between neighbours. */
    method ConsumeChain(c: Expr) returns (ok: bool)
      requires Valid() && c.Binary? && IsRangeOp(c.op)
      modifies this
      ensures ok <==> TakesClause(Kernel(base), c)
      ensures ok ==> Valid() && !Kernel(base).Any? && KeepsEnum(old(n), old(impossible))
      ensures ok ==> Narrowed(base, old(n), old(impossible), n, impossible, v => Sat(c, v))
    {
      var (values, ops) := FlattenOrder(c);
      FlattenMeaning(c);
      ChainTaken(Kernel(base), c);
      ok := true;
      var i := 0;
      while i < |ops|
        invariant 0 <= i <= |ops|
        invariant Valid() && (i > 0 ==> !Kernel(base).Any?) && KeepsEnum(old(n), old(impossible))
        invariant LinksTaken(Kernel(base), values, i)
        invariant Narrowed(base, old(n), old(impossible), n, impossible, v => ChainHolds(values, ops, i, v))
      {
        ghost var (n1, i1) := (n, impossible);
        ok := Compare(values[i], ops[i], values[i + 1]);
        assert ok == LinkTaken(Kernel(base), values, i);
        if !ok {
          return;
        }
        ChainStep(base, old(n), old(impossible), n1, i1, n, impossible, values, ops, i);
        i := i + 1;
      }
      SameSat(base, old(n), old(impossible), n, impossible, v => ChainHolds(values, ops, |ops|, v), v => Sat(c, v));
    }

    /** Finish the record: detect emptiness, turn single values into an enum, filter the enum by the
      * remaining bounds and drop them. */
    method Finish() returns (r: Option<Constraint>)
      modifies this
      ensures r == Finished(base, old(n), old(impossible))
    {
      if impossible || ImpossibleInts(n.ints) || ImpossibleReals(n.reals) || ImpossibleInts(n.length) {
        return None;
      }
      if n.length != NO_INTS && base.Tuple? {
        if !InInts(n.length, |base.elems|) {
          return None;
        }
        n := n.(length := NO_INTS);
      }
      if n.enum.None? {
        if Kernel(base).Int? && SingleInt(n.ints) {
          n := n.(enum := Some([IntAtom(n.ints.min.value)]), ints := NO_INTS);
        } else if Kernel(base).Real? && SingleReal(n.reals) {
          n := n.(enum := Some([RealAtom(n.reals.min.value.v)]), reals := NO_REALS);
        }
      }
      if n.enum.Some? {
        var (bounds, all) := (n.(enum := None), n.enum.value);
        var out: seq<Atom> := [];
        var i := 0;
        while i < |all|
          invariant 0 <= i <= |all|
          invariant Filter(bounds, all) == out + Filter(bounds, all[i..])
        {
          assert all[i..][0] == all[i] && all[i..][1..] == all[i + 1..];
          if Satisfies(bounds, Scalar(all[i])) {
            out := out + [all[i]];
          }
          i := i + 1;
        }
        assert out + [] == out;
        if |out| == 0 {
          return None;
        }
        n := UNCONSTRAINED.(enum := Some(out));
      }
      return Some(n);
    }
  }

  const X: Expr := Ident(["x"])
  const LenX: Expr := Call(false, ["len"], [X])

  /** The record was narrowed by exactly one condition. */
  predicate Narrows(base: Type, n0: Constraint, i0: bool, n1: Constraint, i1: bool, sat: Type -> bool, v: Type) {
    Admissible(base, v) ==> (Holds(n1, i1, v) <==> Holds(n0, i0, v) && sat(v))
  }

  ghost predicate Narrowed(base: Type, n0: Constraint, i0: bool, n1: Constraint, i1: bool, sat: Type -> bool) {
    forall v :: Narrows(base, n0, i0, n1, i1, sat, v)
  }

  /** By one comparison. */
  ghost predicate NarrowedBy(base: Type, n0: Constraint, i0: bool, n1: Constraint, i1: bool, l: Expr, op: Token, r: Expr) {
    Narrowed(base, n0, i0, n1, i1, v => Related(l, op, r, v))
  }

  lemma SameSat(base: Type, n0: Constraint, i0: bool, n1: Constraint, i1: bool, f: Type -> bool, g: Type -> bool)
    requires Narrowed(base, n0, i0, n1, i1, f) && forall v :: f(v) == g(v)
    ensures Narrowed(base, n0, i0, n1, i1, g)
  {
    forall v ensures Narrows(base, n0, i0, n1, i1, g, v) {
      assert Narrows(base, n0, i0, n1, i1, f, v);
    }
  }

  /** A comparison reads the same with its sides swapped and without parentheses. */
  lemma SameRelation(base: Type, n0: Constraint, i0: bool, n1: Constraint, i1: bool,
                     x: Expr, op: Token, y: Expr, l: Expr, op': Token, r: Expr)
    requires IsRangeOp(op) && IsRangeOp(op') && (x == X || x == LenX)
    requires NarrowedBy(base, n0, i0, n1, i1, x, op, y)
    requires (op == op' && SameOperand(x, l) && y == Ungroup(r)) || (op == Invert(op') && SameOperand(x, r) && y == Ungroup(l))
    ensures NarrowedBy(base, n0, i0, n1, i1, l, op', r)
  {
    var (f, g) := (v => Related(x, op, y, v), v => Related(l, op', r, v));
    forall v ensures f(v) == g(v) {
      if op == op' && SameOperand(x, l) && y == Ungroup(r) {
        SameSides(x, op, y, l, r, v);
      } else {
        SameSides(x, op, y, r, l, v);
        FlippedSides(l, op', r, v);
      }
    }
    SameSat(base, n0, i0, n1, i1, f, g);
  }

  /** A comparison with the operand that stands for the value on the left. */
  function Oriented(l: Expr, op: Token, r: Expr): (Expr, Token, Expr)
    requires IsRangeOp(op)
  {
    if IsX(l) then (X, op, Ungroup(r))
    else if IsX(r) then (X, Invert(op), Ungroup(l))
    else if IsLenX(l) then (LenX, op, Ungroup(r))
    else (LenX, Invert(op), Ungroup(l))
  }

  lemma OrientedMeaning(base: Type, n0: Constraint, i0: bool, n1: Constraint, i1: bool, l: Expr, op: Token, r: Expr)
    requires IsRangeOp(op) && (IsX(l) || IsX(r) || IsLenX(l) || IsLenX(r))
    requires var t := Oriented(l, op, r); NarrowedBy(base, n0, i0, n1, i1, t.0, t.1, t.2)
    ensures NarrowedBy(base, n0, i0, n1, i1, l, op, r)
  {
    var t := Oriented(l, op, r);
    SameRelation(base, n0, i0, n1, i1, t.0, t.1, t.2, l, op, r);
  }

  lemma SameSides(x: Expr, op: Token, y: Expr, l: Expr, r: Expr, v: Type)
    requires (x == X || x == LenX) && SameOperand(x, l) && y == Ungroup(r)
    ensures Related(x, op, y, v) == Related(l, op, r, v)
  {
    QuantityUngrouped(l, v);
    QuantityUngrouped(r, v);
  }

  lemma FlippedSides(l: Expr, op: Token, r: Expr, v: Type)
    requires IsRangeOp(op)
    ensures Related(l, op, r, v) == Related(r, Invert(op), l, v)
  {
  }

  predicate SameOperand(x: Expr, e: Expr) {
    (x == X && IsX(Ungroup(e))) || (x == LenX && !IsX(Ungroup(e)) && IsLenX(Ungroup(e)))
  }

  lemma QuantityUngrouped(e: Expr, v: Type)
    ensures Quantity(Ungroup(e), v) == Quantity(e, v)
    ensures SameOperand(X, e) ==> Quantity(e, v) == Quantity(X, v)
    ensures SameOperand(LenX, e) ==> Quantity(e, v) == Quantity(LenX, v)
  {
    assert Ungroup(Ungroup(e)) == Ungroup(e);
  }

  // ----- chains

  function FlattenOrder(c: Expr): (r: (seq<Expr>, seq<Token>))
    requires c.Binary? && IsRangeOp(c.op)
    ensures |r.0| == |r.1| + 1 && |r.1| > 0
    ensures r.0[|r.1|] == c.right
    ensures forall i :: 0 <= i < |r.1| ==> IsRangeOp(r.1[i])
    decreases c
  {
    var l := Ungroup(c.left);
    if l.Binary? && IsRangeOp(l.op) then
      var (values, ops) := FlattenOrder(l);
      (values + [c.right], ops + [c.op])
    else ([c.left, c.right], [c.op])
  }

  predicate ChainHolds(values: seq<Expr>, ops: seq<Token>, k: nat, v: Type)
    requires |values| == |ops| + 1 && k <= |ops|
  {
    forall i :: 0 <= i < k ==> Link(values, ops, i, v)
  }

  predicate Link(values: seq<Expr>, ops: seq<Token>, i: nat, v: Type)
    requires |values| == |ops| + 1 && i < |ops|
  {
    Related(values[i], ops[i], values[i + 1], v)
  }

  lemma LinkExtend(values: seq<Expr>, ops: seq<Token>, op: Token, r: Expr, i: nat, v: Type)
    requires |values| == |ops| + 1 && i <= |ops|
    ensures Link(values + [r], ops + [op], i, v) ==
      if i < |ops| then Link(values, ops, i, v) else Related(values[i], op, r, v)
  {
    var (vs, os) := (values + [r], ops + [op]);
    assert vs[i] == values[i] && vs[i + 1] == if i < |ops| then values[i + 1] else r;
    assert os[i] == if i < |ops| then ops[i] else op;
  }

  lemma ChainExtend(values: seq<Expr>, ops: seq<Token>, op: Token, r: Expr, v: Type)
    requires |values| == |ops| + 1
    ensures ChainHolds(values + [r], ops + [op], |ops| + 1, v) <==>
      ChainHolds(values, ops, |ops|, v) && Related(values[|ops|], op, r, v)
  {
    var (vs, os) := (values + [r], ops + [op]);
    forall i | 0 <= i <= |ops|
      ensures Link(vs, os, i, v) == if i < |ops| then Link(values, ops, i, v) else Related(values[i], op, r, v)
    {
      LinkExtend(values, ops, op, r, i, v);
    }
  }

  lemma {:induction false} ChainMeaning(c: Expr, v: Type)
    requires c.Binary? && IsRangeOp(c.op)
    ensures var (values, ops) := FlattenOrder(c); ChainHolds(values, ops, |ops|, v) <==> Sat(c, v)
    decreases c
  {
    var l := Ungroup(c.left);
    var (values, ops) := FlattenOrder(c);
    if l.Binary? && IsRangeOp(l.op) {
      ChainMeaning(l, v);
      var (lv, lo) := FlattenOrder(l);
      assert Sat(c.left, v) == Sat(l, v);
      ChainExtend(lv, lo, c.op, c.right, v);
      assert Sat(c, v) == (Sat(c.left, v) && Related(l.right, c.op, c.right, v));
    } else {
      assert Link(values, ops, 0, v) == Sat(c, v);
    }
  }

  lemma FlattenMeaning(c: Expr)
    requires c.Binary? && IsRangeOp(c.op)
    ensures var (values, ops) := FlattenOrder(c); forall v :: ChainHolds(values, ops, |ops|, v) <==> Sat(c, v)
  {
    forall v ensures var (values, ops) := FlattenOrder(c); ChainHolds(values, ops, |ops|, v) <==> Sat(c, v) {
      ChainMeaning(c, v);
    }
  }

  predicate LinkTaken(kernel: Type, values: seq<Expr>, k: nat)
    requires k + 1 < |values|
  {
    TakesComparison(kernel, values[k], values[k + 1])
  }

  predicate LinksTaken(kernel: Type, values: seq<Expr>, n: nat)
    requires n < |values|
  {
    forall k :: 0 <= k < n ==> LinkTaken(kernel, values, k)
  }

  lemma LinksTakenAppend(kernel: Type, values: seq<Expr>, r: Expr)
    requires values != []
    ensures LinksTaken(kernel, values + [r], |values|) <==>
      LinksTaken(kernel, values, |values| - 1) && TakesComparison(kernel, values[|values| - 1], r)
  {
    var all := values + [r];
    forall k | 0 <= k < |values| - 1 ensures LinkTaken(kernel, all, k) == LinkTaken(kernel, values, k) {
      assert all[k] == values[k] && all[k + 1] == values[k + 1];
    }
    assert LinkTaken(kernel, all, |values| - 1) == TakesComparison(kernel, values[|values| - 1], r);
  }

  /** A chain is taken when each of its comparisons is. */
  lemma {:induction false} ChainTaken(kernel: Type, c: Expr)
    requires c.Binary? && IsRangeOp(c.op)
    ensures TakesClause(kernel, c) <==> LinksTaken(kernel, FlattenOrder(c).0, |FlattenOrder(c).1|)
    decreases c
  {
    var l := Ungroup(c.left);
    if l.Binary? && IsRangeOp(l.op) {
      ChainTaken(kernel, l);
      assert TakesClause(kernel, c.left) == TakesClause(kernel, l);
      LinksTakenAppend(kernel, FlattenOrder(l).0, c.right);
    } else {
      assert LinkTaken(kernel, [c.left, c.right], 0) == TakesComparison(kernel, c.left, c.right);
    }
  }

  lemma ChainStep(base: Type, n0: Constraint, i0: bool, n1: Constraint, i1: bool, n2: Constraint, i2: bool,
                  values: seq<Expr>, ops: seq<Token>, k: nat)
    requires |values| == |ops| + 1 && k < |ops|
    requires Narrowed(base, n0, i0, n1, i1, v => ChainHolds(values, ops, k, v))
    requires NarrowedBy(base, n1, i1, n2, i2, values[k], ops[k], values[k + 1])
    ensures Narrowed(base, n0, i0, n2, i2, v => ChainHolds(values, ops, k + 1, v))
  {
    var (f, g) := (v => ChainHolds(values, ops, k, v), v => Related(values[k], ops[k], values[k + 1], v));
    var h := v => ChainHolds(values, ops, k + 1, v);
    forall v ensures Narrows(base, n0, i0, n2, i2, h, v) {
      assert Narrows(base, n0, i0, n1, i1, f, v) && Narrows(base, n1, i1, n2, i2, g, v);
      ChainLink(values, ops, k, v);
    }
  }

  lemma ChainLink(values: seq<Expr>, ops: seq<Token>, k: nat, v: Type)
    requires |values| == |ops| + 1 && k < |ops|
    ensures ChainHolds(values, ops, k + 1, v) <==>
      ChainHolds(values, ops, k, v) && Related(values[k], ops[k], values[k + 1], v)
  {
    LinksHold(values, ops, k, v);
  }

  lemma LinksHold(values: seq<Expr>, ops: seq<Token>, k: nat, v: Type)
    requires |values| == |ops| + 1 && k < |ops|
    ensures ChainHolds(values, ops, k + 1, v) <==> ChainHolds(values, ops, k, v) && Link(values, ops, k, v)
  {
    if ChainHolds(values, ops, k, v) && Link(values, ops, k, v) {
      forall i | 0 <= i < k + 1 ensures Link(values, ops, i, v) { }
    }
  }

  // ----- enums and clauses

  lemma BothNarrow(base: Type, n0: Constraint, i0: bool, n1: Constraint, i1: bool, n2: Constraint, i2: bool,
                   c: Expr, e: Expr)
    requires c == Ungroup(e) && c.Binary? && c.op.And?
    requires Narrowed(base, n0, i0, n1, i1, v => Sat(c.left, v))
    requires Narrowed(base, n1, i1, n2, i2, v => Sat(c.right, v))
    ensures Narrowed(base, n0, i0, n2, i2, v => Sat(e, v))
  {
    var (f, g, h) := (v => Sat(c.left, v), v => Sat(c.right, v), v => Sat(e, v));
    forall v ensures Narrows(base, n0, i0, n2, i2, h, v) {
      assert Narrows(base, n0, i0, n1, i1, f, v) && Narrows(base, n1, i1, n2, i2, g, v);
    }
  }

  lemma EnumNarrows(base: Type, n0: Constraint, n1: Constraint, imp: bool, values: seq<Atom>,
                    f: Type -> bool, g: Type -> bool)
    requires n1 == n0.(enum := n1.enum) && n1.enum.Some?
    requires forall a :: InEnum(n1.enum.value, a) <==> (n0.enum.None? || InEnum(n0.enum.value, a)) && InEnum(values, a)
    requires Lists(values, f) && forall v :: f(v) == g(v)
    ensures Narrowed(base, n0, imp, n1, imp, g)
  {
    forall v ensures Narrows(base, n0, imp, n1, imp, g, v) {
      assert ListsValue(values, f, v);
    }
  }

  // ----- bounds

  lemma IntBoundMeaning(base: Type, n0: Constraint, n1: Constraint, imp: bool, op: Token, literal: Expr)
    requires Kernel(base).Int? && IsRangeOp(op) && literal.IntLit? && LiteralAtom(literal).Some?
    requires n1 == n0.(ints := n1.ints) && n1.ints != NO_INTS
    requires forall i ::
      InInts(n1.ints, i) <==> InInts(n0.ints, i) && Compares(i as real, op, LiteralAtom(literal).value.i as real)
    ensures NarrowedBy(base, n0, imp, n1, imp, X, op, literal)
  {
    var sat := v => Related(X, op, literal, v);
    forall v ensures Narrows(base, n0, imp, n1, imp, sat, v) {
      if Admissible(base, v) {
        AdmissibleKernel(base, v);
      }
    }
  }

  lemma LiteralQuantity(literal: Expr, v: Type)
    requires literal.IntLit? || literal.DecimalLit?
    ensures LiteralAtom(literal).Some? ==>
      LiteralAtom(literal).value.Numeric() && Quantity(literal, v) == Some(NumVal(LiteralAtom(literal).value))
  {
  }

  lemma RelatedX(op: Token, literal: Expr, a: Atom, v: Type)
    requires (literal.IntLit? || literal.DecimalLit?) && LiteralAtom(literal) == Some(a)
    requires v.Lit? && v.atom.Numeric()
    ensures a.Numeric() && Related(X, op, literal, v) == Compares(NumVal(v.atom), op, NumVal(a))
  {
    LiteralQuantity(literal, v);
    assert Quantity(X, v) == Some(NumVal(v.atom));
  }

  lemma RealBoundMeaning(base: Type, n0: Constraint, n1: Constraint, imp: bool, op: Token, literal: Expr, a: Atom)
    requires Kernel(base).Real? && IsRangeOp(op) && (literal.IntLit? || literal.DecimalLit?)
    requires LiteralAtom(literal) == Some(a) && a.Numeric()
    requires n1 == n0.(reals := n1.reals) && n1.reals != NO_REALS
    requires forall r :: InReals(n1.reals, r) <==> InReals(n0.reals, r) && Compares(r, op, NumVal(a))
    ensures NarrowedBy(base, n0, imp, n1, imp, X, op, literal)
  {
    var sat := v => Related(X, op, literal, v);
    forall v ensures Narrows(base, n0, imp, n1, imp, sat, v) {
      if Admissible(base, v) {
        AdmissibleKernel(base, v);
        RelatedX(op, literal, a, v);
      }
    }
  }

  lemma LengthBoundMeaning(base: Type, n0: Constraint, i0: bool, n1: Constraint, i1: bool, op: Token, literal: Expr)
    requires (Kernel(base).String? || Container(Kernel(base))) && IsRangeOp(op)
    requires literal.IntLit? && LiteralAtom(literal).Some?
    requires n1 == n0.(length := n1.length) && (i0 ==> i1)
    requires i1 && !i0 ==> op.Gt? && LiteralAtom(literal).value.i == MAX_INT64
    requires !i1 ==> n1.length != NO_INTS && forall i ::
      InInts(n1.length, i) <==> InInts(n0.length, i) && Compares(i as real, op, LiteralAtom(literal).value.i as real)
    ensures NarrowedBy(base, n0, i0, n1, i1, LenX, op, literal)
  {
    var sat := v => Related(LenX, op, literal, v);
    forall v ensures Narrows(base, n0, i0, n1, i1, sat, v) {
      if Admissible(base, v) {
        AdmissibleKernel(base, v);
        MeasuredLength(Kernel(base), v);
        RelatedLength(op, literal, v);
      }
    }
  }

  lemma MeasuredLength(kernel: Type, v: Type)
    requires (kernel.String? || Container(kernel)) && Accepts(kernel, v) && !v.Refined?
    ensures LengthOf(SubjectOf(v)).Some?
  {
  }

  lemma RelatedLength(op: Token, literal: Expr, v: Type)
    requires literal.IntLit? && LiteralAtom(literal).Some? && LengthOf(SubjectOf(v)).Some?
    ensures Related(LenX, op, literal, v) ==
      Compares(LengthOf(SubjectOf(v)).value as real, op, LiteralAtom(literal).value.i as real)
  {
    assert Quantity(LenX, v) == Some(LengthOf(SubjectOf(v)).value as real);
    assert Quantity(literal, v) == Some(LiteralAtom(literal).value.i as real);
  }
}
