/** Finished constraints: what they accept and when one is inside another
  * (internal/compiled/constraint.go, order.go, float.go). */
module Constraints {
  import opened Wrappers
  import opened Atoms

  /** Inclusive integer bounds, for the value of an integer or for a length. */
  datatype IntBounds = IntBounds(min: Option<int>, max: Option<int>)

  datatype Limit = Limit(v: real, inclusive: bool)

  datatype RealBounds = RealBounds(min: Option<Limit>, max: Option<Limit>)

  datatype FloatFormat = NoFormat | F32 | F64

  /** The empty constraint stands for constraint ID zero. */
  datatype Constraint = Constraint(
    ints: IntBounds,
    reals: RealBounds,
    format: FloatFormat,
    length: IntBounds,
    enum: Option<seq<Atom>>)

  const NO_INTS := IntBounds(None, None)
  const NO_REALS := RealBounds(None, None)
  const UNCONSTRAINED := Constraint(NO_INTS, NO_REALS, NoFormat, NO_INTS, None)

  // A decimal converts to a finite binary32 (binary64) value exactly when its magnitude is below the
  // largest finite value plus half a unit in the last place: (2^25 - 1) * 2^103 and (2^54 - 1) * 2^970.
  const F32_LIMIT: real := 340282356779733661637539395458142568448.0
  const F64_LIMIT: real := 179769313486231580793728971405303415079934132710037826936173778980444968292764750946649017977587207096330286416692887910946555547851940402630657488671505820681908902000708383676273854845817711531764475730270069855571366959622842914819860834936475292719074168444365510704342711559699508093042880177904174497792.0

  /** What a constraint looks at in a concrete value. */
  datatype Subject = Scalar(a: Atom) | Sized(n: nat) | Other

  predicate InInts(b: IntBounds, i: int) {
    && (b.min.Some? ==> b.min.value <= i)
    && (b.max.Some? ==> i <= b.max.value)
  }

  predicate InReals(b: RealBounds, r: real) {
    && (b.min.Some? ==> b.min.value.v < r || (b.min.value.v == r && b.min.value.inclusive))
    && (b.max.Some? ==> r < b.max.value.v || (r == b.max.value.v && b.max.value.inclusive))
  }

  predicate CanBeFloat(r: real, f: FloatFormat) {
    match f
    case NoFormat => false
    case F32 => -F32_LIMIT < r < F32_LIMIT
    case F64 => -F64_LIMIT < r < F64_LIMIT
  }

  /** The length a length bound is checked against: code points of a string, entries of a container. */
  function LengthOf(s: Subject): Option<nat> {
    match s
    case Scalar(StringAtom(text)) => Some(|text|)
    case Sized(n) => Some(n)
    case _ => None
  }

  predicate InEnum(e: seq<Atom>, a: Atom) {
    exists i :: 0 <= i < |e| && CompareAtoms(a, e[i]) == 0
  }

  predicate Satisfies(c: Constraint, s: Subject) {
    && (c.ints != NO_INTS ==> s.Scalar? && s.a.IntAtom? && InInts(c.ints, s.a.i))
    && (c.reals != NO_REALS ==> s.Scalar? && s.a.Numeric() && InReals(c.reals, NumVal(s.a)))
    && (c.format != NoFormat ==> s.Scalar? && s.a.Numeric() && CanBeFloat(NumVal(s.a), c.format))
    && (c.length != NO_INTS ==> LengthOf(s).Some? && InInts(c.length, LengthOf(s).value))
    && (c.enum.Some? ==> s.Scalar? && InEnum(c.enum.value, s.a))
  }

  predicate LengthOnly(c: Constraint) {
    c.length != NO_INTS && c == UNCONSTRAINED.(length := c.length)
  }

  predicate EnumOnly(c: Constraint) {
    c.enum.Some? && c == UNCONSTRAINED.(enum := c.enum)
  }

  // ----- the subset test of order.go

  predicate LowerStronger(a: IntBounds, b: IntBounds) {
    b.min.None? || (a.min.Some? && a.min.value >= b.min.value)
  }

  predicate UpperStronger(a: IntBounds, b: IntBounds) {
    b.max.None? || (a.max.Some? && a.max.value <= b.max.value)
  }

  predicate IntsSubset(a: IntBounds, b: IntBounds) {
    LowerStronger(a, b) && UpperStronger(a, b)
  }

  predicate RealsSubset(a: RealBounds, b: RealBounds) {
    && (b.min.Some? ==>
          && a.min.Some?
          && !(a.min.value.v < b.min.value.v)
          && !(a.min.value.v == b.min.value.v && !b.min.value.inclusive && a.min.value.inclusive))
    && (b.max.Some? ==>
          && a.max.Some?
          && !(a.max.value.v > b.max.value.v)
          && !(a.max.value.v == b.max.value.v && !b.max.value.inclusive && a.max.value.inclusive))
  }

  predicate FormatSubset(a: FloatFormat, b: FloatFormat) {
    b == NoFormat || (a != NoFormat && (a == b || (a == F32 && b == F64)))
  }

  predicate Subset(a: Constraint, b: Constraint) {
    if b == UNCONSTRAINED then true
    else if a == UNCONSTRAINED then false
    else if a.enum.Some? then
      forall i :: 0 <= i < |a.enum.value| ==> Satisfies(b, Scalar(a.enum.value[i]))
    else if b.enum.Some? then false
    else
      && (b.ints != NO_INTS ==> a.ints != NO_INTS && IntsSubset(a.ints, b.ints))
      && (b.reals != NO_REALS ==> a.reals != NO_REALS && RealsSubset(a.reals, b.reals))
      && (b.format != NoFormat ==> a.format != NoFormat && FormatSubset(a.format, b.format))
      && (b.length != NO_INTS ==> a.length != NO_INTS && IntsSubset(a.length, b.length))
  }

  // ----- normal forms

  predicate AllOfKind(e: seq<Atom>, k: AtomKind) {
    forall i :: 0 <= i < |e| ==> KindOf(e[i]) == k
  }

  predicate Ascending(e: seq<Atom>) {
    forall i, j :: 0 <= i < j < |e| ==> CompareAtoms(e[i], e[j]) < 0
  }

  /** What dropping runs of equal atoms leaves, whatever the order of the list. */
  predicate NeighboursDiffer(e: seq<Atom>) {
    forall i :: 0 <= i < |e| - 1 ==> CompareAtoms(e[i], e[i + 1]) != 0
  }

  predicate NormalEnum(e: seq<Atom>) {
    |e| > 0 && Ascending(e)
  }
}
