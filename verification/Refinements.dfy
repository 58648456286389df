/** Compiling a schema's constraint clauses over a type reference
  * (internal/compiled/compile.go:308-376, internal/compiled/constraint.go:93-107, 966-994). */
module Refinements {
  import opened Wrappers
  import opened MachineInts
  import opened Atoms
  import opened Constraints
  import opened Types
  import opened Syntax
  import opened Clauses
  import opened NormalForms
  import opened EnumClauses
  import opened Acceptance
  import opened Normalizer
  import opened Soundness

  predicate AllSat(clauses: seq<Expr>, k: nat, v: Type)
    requires k <= |clauses|
  {
    forall i :: 0 <= i < k ==> Sat(clauses[i], v)
  }

  function AllLiteralKinds(clauses: seq<Expr>): set<AtomKind> {
    set i, k | 0 <= i < |clauses| && k in LiteralKinds(clauses[i]) :: k
  }

  /** Over `any`: at most one enum is listed, or the listed literals are not integers, strings and decimals at once. */
  predicate EnumsMeet(clauses: seq<Expr>) {
    (|clauses| <= 1 && forall i :: 0 <= i < |clauses| ==> !Conjunction(clauses[i])) ||
    Orderable(AllLiteralKinds(clauses))
  }

  predicate TakesFirst(kernel: Type, clauses: seq<Expr>, k: nat)
    requires k <= |clauses|
  {
    forall i :: 0 <= i < k ==> TakesClause(kernel, clauses[i])
  }

  predicate TakesAll(kernel: Type, clauses: seq<Expr>) {
    forall i :: 0 <= i < |clauses| ==> TakesClause(kernel, clauses[i])
  }

  predicate AllEnumFree(clauses: seq<Expr>) {
    forall i :: 0 <= i < |clauses| ==> EnumFree(clauses[i])
  }

  /** What a normalised refinement must say about one value of its base. */
  predicate Normalizes(base: Type, initial: Constraint, clauses: seq<Expr>, r: Option<Constraint>, v: Type) {
    Admissible(base, v) ==>
      ((r.Some? && Satisfies(r.value, SubjectOf(v))) <==>
       Satisfies(initial, SubjectOf(v)) && AllSat(clauses, |clauses|, v))
  }

  /** Over `any`: no two neighbours in the enum are equal. */
  predicate DistinctEnum(base: Type, n: Constraint) {
    Kernel(base).Any? && n.enum.Some? ==> NeighboursDiffer(n.enum.value)
  }

  /** The record admits what the initial one did and the first `k` clauses allow. */
  ghost predicate Consumed(base: Type, initial: Constraint, clauses: seq<Expr>, k: nat, n: Constraint, impossible: bool)
    requires k <= |clauses|
  {
    Narrowed(base, initial, false, n, impossible, v => AllSat(clauses, k, v)) && DistinctEnum(base, n)
  }

  /** Over `any`: the enum after the first `k` clauses, or nothing if one of them is rejected. */
  function EnumAfter(clauses: seq<Expr>, k: nat): Option<Option<seq<Atom>>>
    requires k <= |clauses|
  {
    if k == 0 then Some(None)
    else match EnumAfter(clauses, k - 1)
      case None => None
      case Some(e) =>
        var next := ConsumeAny(e, clauses[k - 1]);
        if next.None? then None else Some(next)
  }

  lemma {:induction false} RejectionStays(clauses: seq<Expr>, k: nat)
    requires k <= |clauses| && EnumAfter(clauses, k).None?
    ensures EnumAfter(clauses, |clauses|).None?
    decreases |clauses| - k
  {
    if k < |clauses| { RejectionStays(clauses, k + 1); }
  }

  /** The constraint that an enum over `any` finishes to; none if nothing is left in it. */
  function EnumConstraint(e: Option<seq<Atom>>): Option<Constraint> {
    if e == Some([]) then None else Some(UNCONSTRAINED.(enum := e))
  }

  lemma FinishedAny(base: Type, e: Option<seq<Atom>>)
    requires Kernel(base).Any?
    ensures Finished(base, UNCONSTRAINED.(enum := e), false) == EnumConstraint(e)
  {
    if e.Some? { FilterNothing(UNCONSTRAINED, e.value); }
  }

  /** `extendNormalizeConstraints`: false for `ok` is a rejected clause, None for `r` an empty refinement; `n` and
    * `impossible` are the record before it is finished. */
  method ExtendNormalize(base: Type, initial: Constraint, clauses: seq<Expr>)
    returns (ok: bool, r: Option<Constraint>, ghost n: Constraint, ghost impossible: bool)
    requires Shaped(Kernel(base), initial)
    ensures ok && (Kernel(base).Any? ==> initial == UNCONSTRAINED && EnumsMeet(clauses)) ==>
      forall v :: Normalizes(base, initial, clauses, r, v)
    ensures ok && (Kernel(base).Int? || Kernel(base).Real?) && AllEnumFree(clauses) ==>
      && Shaped(Kernel(base), n) && n.enum == initial.enum && n.format == initial.format
      && !impossible && r == Finished(base, n, false)
      && Consumed(base, initial, clauses, |clauses|, n, false)
    ensures ok && Plain(base) && r.Some? && (base.Any? ==> initial == UNCONSTRAINED && EnumsMeet(clauses)) ==>
      r.value == UNCONSTRAINED || Fits(base, r.value) || SingleIntEnum(base, r.value)
    ensures ok && clauses == [] && initial == UNCONSTRAINED ==> r == Some(UNCONSTRAINED)
    ensures ok <==> TakesAll(Kernel(base), clauses)
    ensures Kernel(base).Any? && initial == UNCONSTRAINED ==>
      (ok <==> EnumAfter(clauses, |clauses|).Some?) && (ok ==> r == EnumConstraint(EnumAfter(clauses, |clauses|).value))
  {
    var norm := new Normalizer(base, initial, AllLiteralKinds(clauses));
    ok, r, n, impossible := true, None, initial, false;
    ok := ConsumeAll(norm, clauses);
    if !ok {
      return;
    }
    n, impossible := norm.n, norm.impossible;
    r := norm.Finish();
    if Kernel(base).Any? { FinishedAny(base, n.enum); }
    if Kernel(base).Any? ==> initial == UNCONSTRAINED && EnumsMeet(clauses) {
      FinishNormalizes(base, initial, clauses, n, impossible);
    }
  }

  /** The clauses one after another. */
  method ConsumeAll(norm: Normalizer, clauses: seq<Expr>) returns (ok: bool)
    requires norm.Valid() && !norm.impossible && norm.kinds == AllLiteralKinds(clauses)
    modifies norm
    ensures ok <==> TakesAll(Kernel(norm.base), clauses)
    ensures ok ==> Progress(norm.base, norm.kinds, old(norm.n), clauses, |clauses|, norm.n, norm.impossible)
    ensures !ok && Kernel(norm.base).Any? && old(norm.n.enum).None? ==> EnumAfter(clauses, |clauses|).None?
  {
    ghost var initial := norm.n;
    ok := true;
    for i := 0 to |clauses|
      invariant TakesFirst(Kernel(norm.base), clauses, i)
      invariant Progress(norm.base, norm.kinds, initial, clauses, i, norm.n, norm.impossible)
    {
      ok := ConsumeNext(norm, clauses, i, initial);
      if !ok {
        if EnumAfter(clauses, i + 1).None? { RejectionStays(clauses, i + 1); }
        return;
      }
    }
  }

  /** What holds of the record after the first `k` clauses. */
  ghost predicate Progress(base: Type, kinds: set<AtomKind>, initial: Constraint, clauses: seq<Expr>, k: nat,
                           n: Constraint, impossible: bool)
    requires k <= |clauses|
  {
    var kernel := Kernel(base);
    var tame := kernel.Any? ==> initial == UNCONSTRAINED && EnumsMeet(clauses);
    && Shaped(kernel, n) && (k == 0 ==> n == initial && !impossible)
    && (AllEnumFree(clauses) ==>
          n.enum == initial.enum && n.format == initial.format && (kernel.Int? || kernel.Real? ==> !impossible))
    && (kernel.Any? && initial.enum.None? ==> EnumAfter(clauses, k) == Some(n.enum) && !impossible)
    && (tame && Orderable(kinds) ==> Orderly(kernel, n, kinds))
    && (tame ==> Consumed(base, initial, clauses, k, n, impossible))
  }

  method ConsumeNext(norm: Normalizer, clauses: seq<Expr>, i: nat, ghost initial: Constraint) returns (ok: bool)
    requires i < |clauses| && norm.kinds == AllLiteralKinds(clauses)
    requires Progress(norm.base, norm.kinds, initial, clauses, i, norm.n, norm.impossible)
    modifies norm
    ensures ok <==> TakesClause(Kernel(norm.base), clauses[i])
    ensures ok ==> Progress(norm.base, norm.kinds, initial, clauses, i + 1, norm.n, norm.impossible)
    ensures !ok && Kernel(norm.base).Any? && initial.enum.None? ==> EnumAfter(clauses, i + 1).None?
  {
    ghost var (n1, i1) := (norm.n, norm.impossible);
    OwnKinds(clauses, i);
    ok := norm.Consume(clauses[i]);
    if ok && (Kernel(norm.base).Any? ==> initial == UNCONSTRAINED && EnumsMeet(clauses)) {
      OneMoreClause(norm.base, initial, n1, i1, norm.n, norm.impossible, clauses, i);
    }
  }

  lemma FinishNormalizes(base: Type, initial: Constraint, clauses: seq<Expr>, n: Constraint, impossible: bool)
    requires Shaped(Kernel(base), n) && Consumed(base, initial, clauses, |clauses|, n, impossible)
    ensures var r := Finished(base, n, impossible);
      && (Plain(base) && r.Some? ==> r.value == UNCONSTRAINED || Fits(base, r.value) || SingleIntEnum(base, r.value))
      && forall v :: Normalizes(base, initial, clauses, r, v)
  {
    if Plain(base) { FinishFits(base, n, impossible); }
    forall v ensures Normalizes(base, initial, clauses, Finished(base, n, impossible), v) {
      assert Narrows(base, initial, false, n, impossible, v => AllSat(clauses, |clauses|, v), v);
      if Admissible(base, v) { FinishMeaning(base, n, impossible, v); }
    }
  }

  lemma OwnKinds(clauses: seq<Expr>, i: nat)
    requires i < |clauses|
    ensures LiteralKinds(clauses[i]) <= AllLiteralKinds(clauses)
  {
  }

  lemma OneMoreClause(base: Type, n0: Constraint, n1: Constraint, i1: bool, n2: Constraint, i2: bool,
                      clauses: seq<Expr>, k: nat)
    requires k < |clauses| && Consumed(base, n0, clauses, k, n1, i1) && DistinctEnum(base, n2)
    requires Narrowed(base, n1, i1, n2, i2, v => Sat(clauses[k], v))
    ensures Consumed(base, n0, clauses, k + 1, n2, i2)
  {
    var (f, g) := (v => AllSat(clauses, k, v), v => Sat(clauses[k], v));
    var h := v => AllSat(clauses, k + 1, v);
    forall v ensures Narrows(base, n0, false, n2, i2, h, v) {
      assert Narrows(base, n0, false, n1, i1, f, v) && Narrows(base, n1, i1, n2, i2, g, v);
    }
  }

  // ----- inherited constraints

  function IntNorm(c: Constraint): Constraint {
    UNCONSTRAINED.(ints := c.ints)
  }

  function RealNorm(c: Constraint): Constraint {
    UNCONSTRAINED.(reals := c.reals, format := c.format, enum := c.enum)
  }

  /** An integer refinement hands its bounds to a further refinement but drops its enum, so it is
    * inherited faithfully exactly when it has none. */
  lemma IntInheritance(c: Constraint)
    requires Fits(Int, c)
    ensures (forall i :: Satisfies(IntNorm(c), Scalar(IntAtom(i))) <==> Satisfies(c, Scalar(IntAtom(i)))) <==>
      c.enum.None?
  {
    if c.enum.Some? {
      var last := c.enum.value[|c.enum.value| - 1];
      assert KindOf(last) == IntKind;
      var above := IntAtom(last.i + 1);
      forall k | 0 <= k < |c.enum.value| ensures CompareAtoms(above, c.enum.value[k]) != 0 {
        assert KindOf(c.enum.value[k]) == IntKind;
        if k < |c.enum.value| - 1 { assert CompareAtoms(c.enum.value[k], last) < 0; }
      }
      assert !Satisfies(c, Scalar(IntAtom(last.i + 1)));
      assert Satisfies(IntNorm(c), Scalar(IntAtom(last.i + 1)));
    }
  }

  /** Whether the referenced type's own constraint survives further refinement. */
  predicate Inheritable(t: Type) {
    t.Refined? && t.base.Int? ==> t.con.enum.None?
  }

  /** What a further refinement starts from: an integer type without its enum, any other type as it is. */
  function Inherited(t: Type): Type {
    if Inheritable(t) then t else Int
  }

  /** A further refinement starts from all the referenced type says exactly when that is not an integer enum. */
  lemma InheritedExact(t: Type)
    requires WellFormed(t)
    ensures (forall v :: Accepts(Inherited(t), v) <==> Accepts(t, v)) <==> Inheritable(t)
  {
    if !Inheritable(t) {
      IntInheritance(t.con);
      var i :| Satisfies(IntNorm(t.con), Scalar(IntAtom(i))) != Satisfies(t.con, Scalar(IntAtom(i)));
      assert Accepts(Int, Lit(IntAtom(i))) && !Accepts(t, Lit(IntAtom(i)));
    }
  }

  /** The base and the inherited constraint of a schema over the type `t`; None if the clauses cannot be
    * merged with the constraint `t` has. */
  function Inherit(t: Type, hasClauses: bool): Option<(Type, Constraint)> {
    if !t.Refined? then Some((t, UNCONSTRAINED))
    else if t.base.Int? then Some((t.base, IntNorm(t.con)))
    else if t.base.Real? then Some((t.base, RealNorm(t.con)))
    else if t.con == UNCONSTRAINED then Some((t.base, UNCONSTRAINED))
    else if hasClauses then None
    else Some((t, UNCONSTRAINED))
  }

  lemma InheritShaped(t: Type, hasClauses: bool)
    requires WellFormed(t) && Inherit(t, hasClauses).Some?
    ensures var (base, initial) := Inherit(t, hasClauses).value; Shaped(Kernel(base), initial)
  {
    if t.Refined? && t.base.Real? && t.con.enum.Some? {
      forall a | a in t.con.enum.value ensures OwnAtom(Real, a) {
        var i :| 0 <= i < |t.con.enum.value| && t.con.enum.value[i] == a;
        assert KindOf(t.con.enum.value[i]) == RealKind;
      }
    }
  }

  lemma InheritMeaning(t: Type, hasClauses: bool, v: Type)
    requires WellFormed(t) && Inherit(t, hasClauses).Some? && !v.Refined?
    ensures var (base, initial) := Inherit(t, hasClauses).value;
      Accepts(Inherited(t), v) <==> Accepts(base, v) && Satisfies(initial, SubjectOf(v))
  {
  }

  /** A value whose length Go can count. */
  predicate Countable(v: Type) {
    var s := LengthOf(SubjectOf(LiteralBase(v)));
    s.Some? ==> s.value <= MAX_INT64
  }

  /** What a compiled schema must say about one value. */
  predicate Refines(t: Type, clauses: seq<Expr>, r: Type, v: Type) {
    Countable(v) ==>
      (Accepts(r, v) <==> Accepts(Inherited(t), v) && AllSat(clauses, |clauses|, LiteralBase(v)))
  }

  /** Over `any`, of all clauses: what the combined enum leaves of the reference. */
  predicate RefinesAny(t: Type, e: Option<seq<Atom>>, r: Type, v: Type) {
    Accepts(r, v) <==> Accepts(t, v) && Admits(e, LiteralBase(v))
  }

  /** Types over `any` outside the well-formed ones: it only carries metadata, or a single integer. */
  predicate BareAny(t: Type) {
    t.Refined? && t.base.Any? && (t.con == UNCONSTRAINED || SingleIntEnum(t.base, t.con))
  }

  /** `schema`, without field optionality: the type that a reference and its constraint clauses denote.
    * `meta` is the merged metadata of the reference and the clauses. */
  method CompileSchema(t: Type, clauses: seq<Expr>, meta: nat) returns (r: Option<Type>)
    requires WellFormed(t)
    ensures r.None? <==> Refused(t, clauses)
    ensures r.Some? && r.value != Never && (meta != 0 || NameOf(t) != "") ==>
      r.value.Refined? && r.value.meta == meta && r.value.name == NameOf(t)
    ensures r.Some? && (Kernel(t).Any? ==> EnumsMeet(clauses)) ==> forall v :: Refines(t, clauses, r.value, v)
    ensures r.Some? && (Kernel(t).Any? ==> EnumsMeet(clauses)) && Refinable(t, clauses) ==>
      WellFormed(r.value) || BareAny(r.value)
    ensures r.Some? && Kernel(t).Any? ==>
      EnumAfter(clauses, |clauses|).Some? && forall v :: RefinesAny(t, EnumAfter(clauses, |clauses|).value, r.value, v)
  {
    var inherited := Inherit(t, clauses != []);
    if inherited.None? {
      return None;
    }
    InheritShaped(t, clauses != []);
    var (base, initial) := inherited.value;
    if base.Sum? && clauses != [] {
      return None;
    }
    var ok, c, n, impossible := ExtendNormalize(base, initial, clauses);
    if !ok {
      return None;
    }
    var result := Wrap(base, c, meta, if t.Refined? then t.name else "");
    InheritKernel(t, clauses != []);
    if Kernel(t).Any? ==> EnumsMeet(clauses) {
      forall v ensures Refines(t, clauses, result, v) {
        assert Normalizes(base, initial, clauses, c, LiteralBase(v));
        WrapMeaning(t, base, initial, clauses, c, meta, v);
      }
      if Refinable(t, clauses) { WrapWellFormed(t, base, c, meta, clauses != []); }
    }
    if Kernel(t).Any? {
      forall v ensures RefinesAny(t, EnumAfter(clauses, |clauses|).value, result, v) {
        WrapAny(t, base, EnumAfter(clauses, |clauses|).value, c, meta, clauses, v);
      }
    }
    r := Some(result);
  }

  lemma WrapAny(t: Type, base: Type, e: Option<seq<Atom>>, c: Option<Constraint>, meta: nat, clauses: seq<Expr>, v: Type)
    requires WellFormed(t) && Kernel(t).Any? && Inherit(t, clauses != []) == Some((base, UNCONSTRAINED))
    requires c == EnumConstraint(e)
    ensures RefinesAny(t, e, Wrap(base, c, meta, if t.Refined? then t.name else ""), v)
  {
    var w := LiteralBase(v);
    InheritMeaning(t, clauses != [], w);
    AcceptsLooksThroughRefinements(t, v);
    WrapAcceptance(base, c, meta, if t.Refined? then t.name else "", v);
    EnumSatisfied(e, w);
  }

  lemma EnumSatisfied(e: Option<seq<Atom>>, w: Type)
    ensures match EnumConstraint(e)
      case None => !Admits(e, w)
      case Some(c) => Satisfies(c, SubjectOf(w)) <==> Admits(e, w)
  {
  }

  function NameOf(t: Type): string {
    if t.Refined? then t.name else ""
  }

  /** What makes a schema an error: constraints on a union, on a constrained type that is not a number, or of a form
    * the base does not take. */
  predicate Refused(t: Type, clauses: seq<Expr>) {
    clauses != [] &&
    (|| t.Sum? || (t.Wrapper() && t.base.Sum?)
     || (t.Constrained() && !t.base.Int? && !t.base.Real?)
     || !TakesAll(Kernel(t), clauses))
  }

  /** There is a value to refine, and no constraint lands on a second layer of metadata. */
  predicate Refinable(t: Type, clauses: seq<Expr>) {
    !Kernel(t).Never? && (t.Wrapper() && t.base.Refined? ==> clauses == [])
  }

  /** `internRefinedNamed` on the outcome of normalisation. */
  function Wrap(base: Type, c: Option<Constraint>, meta: nat, name: string): Type {
    if c.None? then Never
    else if c.value == UNCONSTRAINED && meta == 0 && name == "" then base
    else Refined(base, c.value, meta, name)
  }

  lemma InheritKernel(t: Type, hasClauses: bool)
    requires WellFormed(t) && Inherit(t, hasClauses).Some?
    ensures var (base, initial) := Inherit(t, hasClauses).value;
      Kernel(base) == Kernel(t) && (Kernel(t).Any? ==> initial == UNCONSTRAINED)
  {
  }

  lemma WrapMeaning(t: Type, base: Type, initial: Constraint, clauses: seq<Expr>, c: Option<Constraint>,
                    meta: nat, v: Type)
    requires WellFormed(t) && Inherit(t, clauses != []) == Some((base, initial))
    requires Normalizes(base, initial, clauses, c, LiteralBase(v))
    ensures Refines(t, clauses, Wrap(base, c, meta, if t.Refined? then t.name else ""), v)
  {
    var w := LiteralBase(v);
    var r := Wrap(base, c, meta, if t.Refined? then t.name else "");
    InheritMeaning(t, clauses != [], w);
    AcceptsLooksThroughRefinements(Inherited(t), v);
    WrapAcceptance(base, c, meta, if t.Refined? then t.name else "", v);
    assert Accepts(base, w) && Countable(v) ==> Admissible(base, w);
  }

  lemma WrapAcceptance(base: Type, c: Option<Constraint>, meta: nat, name: string, v: Type)
    ensures Accepts(Wrap(base, c, meta, name), v) <==>
      c.Some? && Accepts(base, LiteralBase(v)) && Satisfies(c.value, SubjectOf(LiteralBase(v)))
  {
    AcceptsLooksThroughRefinements(base, v);
  }

  lemma WrapWellFormed(t: Type, base: Type, c: Option<Constraint>, meta: nat, hasClauses: bool)
    requires WellFormed(t) && Inherit(t, hasClauses).Some? && Inherit(t, hasClauses).value.0 == base
    requires !hasClauses || !base.Sum?
    requires Plain(base) && c.Some? ==> c.value == UNCONSTRAINED || Fits(base, c.value) || SingleIntEnum(base, c.value)
    requires !hasClauses && !Plain(base) ==> c == Some(UNCONSTRAINED)
    requires !Kernel(t).Never? && (t.Wrapper() && t.base.Refined? ==> !hasClauses)
    ensures var r := Wrap(base, c, meta, if t.Refined? then t.name else ""); WellFormed(r) || BareAny(r)
  {
  }
}
