/** Finished constraints: what the last step of the normaliser makes of its record, that it keeps the
  * meaning, and that the result is a normal form (internal/compiled/constraint.go:535-654). */
module NormalForms {
  import opened Wrappers
  import opened MachineInts
  import opened Atoms
  import opened Constraints
  import opened Types
  import opened Clauses

  predicate Container(kernel: Type) {
    kernel.List? || kernel.Tuple? || kernel.Object?
  }

  /** The atoms a finished enum over this base holds. */
  predicate OwnAtom(kernel: Type, a: Atom) {
    match kernel
    case Lit(NullAtom) => a.NullAtom?
    case Bool => a.BoolAtom?
    case Int => a.IntAtom?
    case Real => a.RealAtom?
    case String => a.StringAtom?
    case _ => false
  }

  predicate EnumShaped(kernel: Type, e: seq<Atom>) {
    Ascending(e) && forall a :: a in e ==> OwnAtom(kernel, a)
  }

  /** The records the normaliser builds over each base kind.  Over `any` there is only an enum, of any atoms. */
  predicate Shaped(kernel: Type, n: Constraint) {
    if kernel.Any? then n == UNCONSTRAINED.(enum := n.enum)
    else
      && (n.enum.Some? ==> EnumShaped(kernel, n.enum.value))
      && (n.ints != NO_INTS ==> kernel.Int?)
      && (n.reals != NO_REALS || n.format != NoFormat ==> kernel.Real?)
      && (n.length != NO_INTS ==> kernel.String? || Container(kernel))
  }

  /** What the record says so far about a value. */
  predicate Holds(n: Constraint, impossible: bool, v: Type) {
    !impossible && Satisfies(n, SubjectOf(v))
  }

  // ----- the last step

  predicate ImpossibleInts(b: IntBounds) {
    b.min.Some? && b.max.Some? && b.min.value > b.max.value
  }

  predicate ImpossibleReals(b: RealBounds) {
    b.min.Some? && b.max.Some? &&
    (b.min.value.v > b.max.value.v ||
     (b.min.value.v == b.max.value.v && (!b.min.value.inclusive || !b.max.value.inclusive)))
  }

  predicate SingleInt(b: IntBounds) {
    b.min.Some? && b.max.Some? && b.min.value == b.max.value
  }

  predicate SingleReal(b: RealBounds) {
    b.min.Some? && b.max.Some? && b.min.value.inclusive && b.max.value.inclusive && b.min.value.v == b.max.value.v
  }

  function Filter(bounds: Constraint, e: seq<Atom>): seq<Atom> {
    if e == [] then []
    else (if Satisfies(bounds, Scalar(e[0])) then [e[0]] else []) + Filter(bounds, e[1..])
  }

  function SinglesToEnum(kernel: Type, n: Constraint): Constraint {
    if n.enum.Some? then n
    else if kernel.Int? && SingleInt(n.ints) then
      n.(enum := Some([IntAtom(n.ints.min.value)]), ints := NO_INTS)
    else if kernel.Real? && SingleReal(n.reals) then
      n.(enum := Some([RealAtom(n.reals.min.value.v)]), reals := NO_REALS)
    else n
  }

  function FilterEnum(n: Constraint): Option<Constraint> {
    if n.enum.None? then Some(n)
    else
      var out := Filter(n.(enum := None), n.enum.value);
      if out == [] then None else Some(UNCONSTRAINED.(enum := Some(out)))
  }

  /** The finished constraint, or None when the refinement is empty. */
  function Finished(base: Type, n: Constraint, impossible: bool): Option<Constraint> {
    if impossible || ImpossibleInts(n.ints) || ImpossibleReals(n.reals) || ImpossibleInts(n.length) then None
    else if n.length != NO_INTS && base.Tuple? then
      if !InInts(n.length, |base.elems|) then None
      else FilterEnum(SinglesToEnum(Kernel(base), n.(length := NO_INTS)))
    else FilterEnum(SinglesToEnum(Kernel(base), n))
  }

  // ----- meaning

  lemma {:induction false} FilterMembers(bounds: Constraint, e: seq<Atom>)
    ensures forall a :: a in Filter(bounds, e) <==> a in e && Satisfies(bounds, Scalar(a))
  {
    if e != [] {
      FilterMembers(bounds, e[1..]);
      assert e == [e[0]] + e[1..];
    }
  }

  lemma {:induction false} FilterAscending(bounds: Constraint, e: seq<Atom>)
    requires Ascending(e)
    ensures Ascending(Filter(bounds, e))
  {
    if e != [] {
      var (rest, out) := (e[1..], Filter(bounds, e[1..]));
      assert forall i :: 0 <= i < |rest| ==> rest[i] == e[i + 1];
      FilterAscending(bounds, rest);
      FilterMembers(bounds, rest);
      forall x | x in out ensures CompareAtoms(e[0], x) < 0 {
        var i :| 0 <= i < |rest| && rest[i] == x;
        assert e[i + 1] == x;
      }
      if Satisfies(bounds, Scalar(e[0])) { ConsAscending(e[0], out); }
    }
  }

  lemma ConsAscending(a: Atom, v: seq<Atom>)
    requires Ascending(v) && forall x :: x in v ==> CompareAtoms(a, x) < 0
    ensures Ascending([a] + v)
  {
    var all := [a] + v;
    forall i, j | 0 <= i < j < |all| ensures CompareAtoms(all[i], all[j]) < 0 {
      assert all[j] == v[j - 1];
      if i > 0 { assert all[i] == v[i - 1]; }
    }
  }

  /** Bounds look at the number only, so they cannot tell a value from an equal enum atom. */
  lemma BoundsRespectValue(kernel: Type, n: Constraint, a: Atom, e: Atom)
    requires !kernel.Any? && Shaped(kernel, n) && n.enum.None? && Compatible(kernel, a) && OwnAtom(kernel, e)
    requires SameValue(a, e)
    ensures Satisfies(n, Scalar(a)) <==> Satisfies(n, Scalar(e))
  {
  }

  lemma FilterSound(kernel: Type, n: Constraint, a: Atom)
    requires !kernel.Any? && Shaped(kernel, n) && n.enum.Some? && Compatible(kernel, a)
    requires InEnum(Filter(n.(enum := None), n.enum.value), a)
    ensures Satisfies(n, Scalar(a))
  {
    var (bounds, e) := (n.(enum := None), n.enum.value);
    var out := Filter(bounds, e);
    FilterMembers(bounds, e);
    var i :| 0 <= i < |out| && CompareAtoms(a, out[i]) == 0;
    var x := out[i];
    assert x in out;
    var k :| 0 <= k < |e| && e[k] == x;
    CompareDecidesValue(a, x);
    BoundsRespectValue(kernel, bounds, a, x);
    assert InEnum(e, a);
  }

  lemma FilterComplete(kernel: Type, n: Constraint, a: Atom)
    requires !kernel.Any? && Shaped(kernel, n) && n.enum.Some? && Compatible(kernel, a)
    requires Satisfies(n, Scalar(a))
    ensures InEnum(Filter(n.(enum := None), n.enum.value), a)
  {
    var (bounds, e) := (n.(enum := None), n.enum.value);
    var out := Filter(bounds, e);
    FilterMembers(bounds, e);
    var k :| 0 <= k < |e| && CompareAtoms(a, e[k]) == 0;
    CompareDecidesValue(a, e[k]);
    assert Satisfies(bounds, Scalar(a));
    BoundsRespectValue(kernel, bounds, a, e[k]);
    assert e[k] in out;
    var i :| 0 <= i < |out| && out[i] == e[k];
  }

  /** Filtering keeps the values that pass both the enum and the bounds. */
  lemma FilterMeaning(kernel: Type, n: Constraint, a: Atom)
    requires !kernel.Any? && Shaped(kernel, n) && n.enum.Some? && Compatible(kernel, a)
    ensures InEnum(Filter(n.(enum := None), n.enum.value), a) <==> Satisfies(n, Scalar(a))
  {
    if InEnum(Filter(n.(enum := None), n.enum.value), a) { FilterSound(kernel, n, a); }
    if Satisfies(n, Scalar(a)) { FilterComplete(kernel, n, a); }
  }

  /** The bases whose constraints can list atoms. */
  predicate ScalarKernel(kernel: Type) {
    kernel == Lit(NullAtom) || kernel.Bool? || kernel.Int? || kernel.Real? || kernel.String?
  }

  lemma AdmissibleScalar(base: Type, v: Type)
    requires Admissible(base, v) && ScalarKernel(Kernel(base))
    ensures v.Lit? && Compatible(Kernel(base), v.atom)
  {
    AdmissibleKernel(base, v);
    if Kernel(base).Lit? { CompareDecidesValue(v.atom, NullAtom); }
  }

  lemma SinglesKeepMeaning(kernel: Type, n: Constraint, a: Atom)
    requires ScalarKernel(kernel) && Shaped(kernel, n) && Compatible(kernel, a)
    ensures Shaped(kernel, SinglesToEnum(kernel, n))
    ensures Satisfies(SinglesToEnum(kernel, n), Scalar(a)) <==> Satisfies(n, Scalar(a))
  {
    if n.enum.None? {
      if kernel.Int? && SingleInt(n.ints) {
        var only := IntAtom(n.ints.min.value);
        CompareDecidesValue(a, only);
        assert [only][0] == only;
      } else if kernel.Real? && SingleReal(n.reals) {
        var only := RealAtom(n.reals.min.value.v);
        CompareDecidesValue(a, only);
        assert [only][0] == only;
      }
    }
  }

  lemma FilterEnumMeaning(kernel: Type, n: Constraint, a: Atom)
    requires ScalarKernel(kernel) && Shaped(kernel, n) && Compatible(kernel, a)
    ensures match FilterEnum(n)
      case None => !Satisfies(n, Scalar(a))
      case Some(c) => Satisfies(c, Scalar(a)) <==> Satisfies(n, Scalar(a))
  {
    if n.enum.Some? { FilterMeaning(kernel, n, a); }
  }

  /** Finishing keeps the meaning: a value of the base satisfies the finished constraint exactly when the
    * record held it, and the refinement is called impossible only when no value was left. */
  lemma FinishMeaning(base: Type, n: Constraint, impossible: bool, v: Type)
    requires Shaped(Kernel(base), n) && Admissible(base, v)
    ensures match Finished(base, n, impossible)
      case None => !Holds(n, impossible, v)
      case Some(c) => Satisfies(c, SubjectOf(v)) <==> Holds(n, impossible, v)
  {
    var kernel := Kernel(base);
    AdmissibleKernel(base, v);
    if kernel.Any? {
      if n.enum.Some? { FilterNothing(UNCONSTRAINED, n.enum.value); }
    } else if ScalarKernel(kernel) {
      AdmissibleScalar(base, v);
      SinglesKeepMeaning(kernel, n, v.atom);
      FilterEnumMeaning(kernel, SinglesToEnum(kernel, n), v.atom);
    } else if n.enum.Some? {
      if n.enum.value != [] { OwnsNothing(kernel, n.enum.value); }
    } else if base.Tuple? {
      assert v.Tuple? && |v.elems| == |base.elems|;
    }
  }

  lemma {:induction false} FilterNothing(bounds: Constraint, e: seq<Atom>)
    requires bounds == UNCONSTRAINED
    ensures Filter(bounds, e) == e
  {
    if e != [] {
      FilterNothing(bounds, e[1..]);
      assert e == [e[0]] + e[1..];
    }
  }

  lemma OwnsNothing(kernel: Type, e: seq<Atom>)
    requires !ScalarKernel(kernel) && !kernel.Any? && |e| > 0
    ensures !EnumShaped(kernel, e)
  {
    assert e[0] in e && !OwnAtom(kernel, e[0]);
  }

  lemma EnumFits(base: Type, e: seq<Atom>)
    requires !base.Any? && e != [] && EnumShaped(base, e)
    ensures Fits(base, UNCONSTRAINED.(enum := Some(e)))
  {
    assert OwnAtom(base, e[0]);
    assert forall i :: 0 <= i < |e| ==> e[i] in e;
  }

  /** The enum over `any` that is no normal form: a single integer. */
  predicate SingleIntEnum(base: Type, c: Constraint) {
    base.Any? && EnumOnly(c) && |c.enum.value| == 1 && c.enum.value[0].IntAtom?
  }

  /** What finishing returns is a normal form the base can carry; over `any`, unless it is a single integer. */
  lemma FinishFits(base: Type, n: Constraint, impossible: bool)
    requires Plain(base) && Shaped(base, n)
    requires base.Any? && n.enum.Some? ==> NeighboursDiffer(n.enum.value)
    ensures match Finished(base, n, impossible)
      case None => true
      case Some(c) => c == UNCONSTRAINED || Fits(base, c) || SingleIntEnum(base, c)
  {
    var m := SinglesToEnum(base, n);
    if base.Any? {
      if n.enum.Some? { FilterNothing(UNCONSTRAINED, n.enum.value); }
    } else if !ScalarKernel(base) {
      if n.enum.Some? && n.enum.value != [] { OwnsNothing(base, n.enum.value); }
    } else if m.enum.Some? {
      var (bounds, e) := (m.(enum := None), m.enum.value);
      FilterMembers(bounds, e);
      FilterAscending(bounds, e);
      assert EnumShaped(base, e);
      assert EnumShaped(base, Filter(bounds, e));
      if Filter(bounds, e) != [] { EnumFits(base, Filter(bounds, e)); }
    }
  }
}
