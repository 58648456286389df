/** Exactness of the subset test, uniqueness of normal forms, and exactness of the emptiness test
  * (internal/compiled/constraint.go:535-654, internal/compiled/order.go:302-361). */
module NormalFormLaws {
  import opened Wrappers
  import opened MachineInts
  import opened Atoms
  import opened Constraints
  import opened Types
  import opened Clauses
  import opened Syntax
  import opened NormalForms
  import opened Normalizer
  import opened Refinements

  // ----- integer bounds: discreteness

  lemma IntsWitness(a: IntBounds) returns (p: int)
    requires !ImpossibleInts(a)
    ensures InInts(a, p)
  {
    p := if a.min.Some? then a.min.value else if a.max.Some? then a.max.value else 0;
  }

  /** On a non-empty interval the subset test is set inclusion. */
  lemma IntsSubsetExact(a: IntBounds, b: IntBounds)
    requires !ImpossibleInts(a)
    ensures IntsSubset(a, b) <==> forall i :: InInts(a, i) ==> InInts(b, i)
  {
    var p := IntsWitness(a);
    if !IntsSubset(a, b) {
      var out :=
        if !LowerStronger(a, b) then
          if a.min.Some? then a.min.value else if b.min.value - 1 < p then b.min.value - 1 else p
        else
          if a.max.Some? then a.max.value else if b.max.value + 1 > p then b.max.value + 1 else p;
      var far :=
        if !LowerStronger(a, b) then (if a.min.None? && p < out then p else out)
        else (if a.max.None? && p > out then p else out);
      assert InInts(a, far) && !InInts(b, far);
    }
  }

  lemma ImpossibleIntsExact(a: IntBounds)
    ensures ImpossibleInts(a) <==> forall i :: !InInts(a, i)
  {
    if !ImpossibleInts(a) { var p := IntsWitness(a); }
  }

  // ----- real bounds: density

  lemma RealsWitness(a: RealBounds) returns (p: real)
    requires !ImpossibleReals(a)
    ensures InReals(a, p)
  {
    p := if a.min.Some? then
           if a.max.Some? then (a.min.value.v + a.max.value.v) / 2.0 else a.min.value.v + 1.0
         else if a.max.Some? then a.max.value.v - 1.0 else 0.0;
  }

  /** A point of the interval below (above) any point that is not its least (greatest). */
  lemma RealsPointBelow(a: RealBounds, p: real, limit: Limit) returns (q: real)
    requires InReals(a, p)
    requires a.min.Some? ==>
      a.min.value.v < limit.v || (a.min.value.v == limit.v && !limit.inclusive && a.min.value.inclusive)
    ensures InReals(a, q) && (q < limit.v || (q == limit.v && !limit.inclusive))
  {
    var top := if p < limit.v then p else limit.v;
    if p < limit.v {
      q := p;
    } else if a.min.None? {
      q := limit.v - 1.0;
    } else if a.min.value.v < limit.v {
      q := (a.min.value.v + limit.v) / 2.0;
    } else {
      q := limit.v;
    }
  }

  lemma RealsPointAbove(a: RealBounds, p: real, limit: Limit) returns (q: real)
    requires InReals(a, p)
    requires a.max.Some? ==>
      a.max.value.v > limit.v || (a.max.value.v == limit.v && !limit.inclusive && a.max.value.inclusive)
    ensures InReals(a, q) && (q > limit.v || (q == limit.v && !limit.inclusive))
  {
    if p > limit.v {
      q := p;
    } else if a.max.None? {
      q := limit.v + 1.0;
    } else if a.max.value.v > limit.v {
      q := (a.max.value.v + limit.v) / 2.0;
    } else {
      q := limit.v;
    }
  }

  lemma RealsSubsetExact(a: RealBounds, b: RealBounds)
    requires !ImpossibleReals(a)
    ensures RealsSubset(a, b) <==> forall r :: InReals(a, r) ==> InReals(b, r)
  {
    var p := RealsWitness(a);
    if !RealsSubset(a, b) {
      if b.min.Some? && (a.min.None? || a.min.value.v < b.min.value.v ||
                         (a.min.value.v == b.min.value.v && !b.min.value.inclusive && a.min.value.inclusive)) {
        var q := RealsPointBelow(a, p, b.min.value);
        assert !InReals(b, q);
      } else {
        var q := RealsPointAbove(a, p, b.max.value);
        assert !InReals(b, q);
      }
    }
  }

  lemma ImpossibleRealsExact(a: RealBounds)
    ensures ImpossibleReals(a) <==> forall r :: !InReals(a, r)
  {
    if !ImpossibleReals(a) { var p := RealsWitness(a); }
  }

  // ----- float formats: an open interval

  function Range(f: FloatFormat): RealBounds {
    match f
    case NoFormat => NO_REALS
    case F32 => RealBounds(Some(Limit(-F32_LIMIT, false)), Some(Limit(F32_LIMIT, false)))
    case F64 => RealBounds(Some(Limit(-F64_LIMIT, false)), Some(Limit(F64_LIMIT, false)))
  }

  /** The higher of two lower limits and the lower of two upper limits; at an equal value the open one. */
  function Meet(a: RealBounds, b: RealBounds): RealBounds {
    RealBounds(
      if RealsSubset(RealBounds(a.min, None), RealBounds(b.min, None)) then a.min else b.min,
      if RealsSubset(RealBounds(None, a.max), RealBounds(None, b.max)) then a.max else b.max)
  }

  lemma MeetMeaning(a: RealBounds, b: RealBounds, r: real)
    ensures InReals(Meet(a, b), r) <==> InReals(a, r) && InReals(b, r)
  {
  }

  lemma RangeMeaning(f: FloatFormat, r: real)
    ensures InReals(Range(f), r) <==> f == NoFormat || CanBeFloat(r, f)
  {
  }

  /** What an enum-free real constraint admits, as one interval. */
  function Interval(c: Constraint): RealBounds {
    Meet(c.reals, Range(c.format))
  }

  lemma IntervalMeaning(c: Constraint, r: real)
    requires c == UNCONSTRAINED.(reals := c.reals, format := c.format)
    ensures Satisfies(c, Scalar(RealAtom(r))) <==> InReals(Interval(c), r)
    ensures c.format == NoFormat ==> Interval(c) == c.reals
  {
    MeetMeaning(c.reals, Range(c.format), r);
    RangeMeaning(c.format, r);
  }

  // ----- intervals against lists

  /** Some integer beyond all that are listed. */
  lemma IntBeyond(e: seq<Atom>, p: int) returns (lo: int, hi: int)
    requires Ascending(e) && AllOfKind(e, IntKind)
    ensures lo <= p <= hi && !InEnum(e, IntAtom(lo)) && !InEnum(e, IntAtom(hi))
  {
    lo, hi := p, p;
    if e != [] {
      var (first, last) := (e[0], e[|e| - 1]);
      assert KindOf(first) == IntKind && KindOf(last) == IntKind;
      lo := if p < first.i then p else first.i - 1;
      hi := if p > last.i then p else last.i + 1;
      forall k | 0 <= k < |e| ensures CompareAtoms(IntAtom(lo), e[k]) != 0 && CompareAtoms(IntAtom(hi), e[k]) != 0 {
        assert KindOf(e[k]) == IntKind;
        if k > 0 { assert CompareAtoms(first, e[k]) < 0; }
        if k < |e| - 1 { assert CompareAtoms(e[k], last) < 0; }
      }
    }
  }

  /** Between two reals there is one that is not listed. */
  lemma {:induction false} RealBetween(lo: real, hi: real, e: seq<Atom>) returns (r: real)
    requires lo < hi
    ensures lo < r < hi && RealAtom(r) !in e
    decreases e
  {
    if e == [] {
      r := (lo + hi) / 2.0;
    } else {
      var x := if e[0].RealAtom? && lo < e[0].r < hi then e[0].r else hi;
      r := RealBetween(lo, x, e[1..]);
      assert e == [e[0]] + e[1..];
    }
  }

  /** An interval of more than one point has room inside. */
  lemma RealsInside(a: RealBounds) returns (lo: real, hi: real)
    requires !ImpossibleReals(a) && !SingleReal(a)
    ensures lo < hi && forall r :: lo < r < hi ==> InReals(a, r)
  {
    lo := if a.min.Some? then a.min.value.v else if a.max.Some? then a.max.value.v - 1.0 else 0.0;
    hi := if a.max.Some? then a.max.value.v else lo + 1.0;
  }

  // ----- the subset test on whole constraints

  ghost predicate IntsIncluded(a: Constraint, b: Constraint) {
    forall i :: Satisfies(a, Scalar(IntAtom(i))) ==> Satisfies(b, Scalar(IntAtom(i)))
  }

  ghost predicate RealsIncluded(a: Constraint, b: Constraint) {
    forall r :: Satisfies(a, Scalar(RealAtom(r))) ==> Satisfies(b, Scalar(RealAtom(r)))
  }

  /** Bounds on both ends, and every integer between them in the list. */
  predicate EveryListed(a: IntBounds, e: seq<Atom>) {
    && a.min.Some? && a.max.Some?
    && forall i :: a.min.value <= i <= a.max.value ==> InEnum(e, IntAtom(i))
  }

  /** Over `int` the test is set inclusion, except for bounds against an enum that lists every integer between them:
    * it never finds bounds inside an enum. */
  lemma IntSubsetExact(a: Constraint, b: Constraint)
    requires Fits(Int, a) && Fits(Int, b) && !ImpossibleInts(a.ints)
    ensures (Subset(a, b) <==> IntsIncluded(a, b)) <==>
      !(a.enum.None? && b.enum.Some? && EveryListed(a.ints, b.enum.value))
  {
    if a.enum.Some? {
      EnumSubsetExact(Int, a, b);
      forall k | 0 <= k < |a.enum.value| ensures a.enum.value[k].IntAtom? {
        assert KindOf(a.enum.value[k]) == IntKind;
      }
    } else {
      forall i ensures InInts(a.ints, i) == Satisfies(a, Scalar(IntAtom(i))) {}
      if b.enum.None? {
        IntsSubsetExact(a.ints, b.ints);
        forall i ensures InInts(b.ints, i) == Satisfies(b, Scalar(IntAtom(i))) {}
        assert Subset(a, b) == IntsSubset(a.ints, b.ints);
      } else {
        IntBoundsBelowEnum(a, b);
      }
    }
  }

  lemma IntBoundsBelowEnum(a: Constraint, b: Constraint)
    requires Fits(Int, a) && Fits(Int, b) && !ImpossibleInts(a.ints) && a.enum.None? && b.enum.Some?
    ensures !Subset(a, b) && (IntsIncluded(a, b) <==> EveryListed(a.ints, b.enum.value))
  {
    var e := b.enum.value;
    forall i ensures Satisfies(a, Scalar(IntAtom(i))) == InInts(a.ints, i) {}
    forall i ensures Satisfies(b, Scalar(IntAtom(i))) == InEnum(e, IntAtom(i)) {}
    if a.ints.min.None? || a.ints.max.None? {
      var p := IntsWitness(a.ints);
      var lo, hi := IntBeyond(e, p);
      var far := if a.ints.min.None? then lo else hi;
      assert Satisfies(a, Scalar(IntAtom(far))) && !Satisfies(b, Scalar(IntAtom(far)));
    }
  }

  /** The right side has a float format that the left one is not known to have. */
  predicate FormatMissing(a: Constraint, b: Constraint) {
    b.format != NoFormat && !FormatSubset(a.format, b.format)
  }

  /** The right side's lower (upper) limit lies outside the left one's format, which keeps to it without saying so. */
  predicate LowerCutOff(a: Constraint, b: Constraint) {
    && a.format != NoFormat && b.reals.min.Some? && b.reals.min.value.v <= Range(a.format).min.value.v
    && !RealsSubset(RealBounds(a.reals.min, None), RealBounds(b.reals.min, None))
  }

  predicate UpperCutOff(a: Constraint, b: Constraint) {
    && a.format != NoFormat && b.reals.max.Some? && b.reals.max.value.v >= Range(a.format).max.value.v
    && !RealsSubset(RealBounds(None, a.reals.max), RealBounds(None, b.reals.max))
  }

  /** Where the test over `real` misses that one interval is inside the other side: for an unfinished point against an
    * enum that lists it, and where a float format alone keeps it inside.  An empty interval, which finishing may leave,
    * is missed unless its own limits and format are inside. */
  predicate InclusionMissed(a: Constraint, b: Constraint) {
    if ImpossibleReals(Interval(a)) then b.enum.Some? || FormatMissing(a, b) || !RealsSubset(a.reals, b.reals)
    else if b.enum.Some? then SingleReal(a.reals) && InEnum(b.enum.value, RealAtom(a.reals.min.value.v))
    else RealsSubset(Interval(a), Interval(b)) && (FormatMissing(a, b) || LowerCutOff(a, b) || UpperCutOff(a, b))
  }

  /** Over `real`, with open and closed end points and with float formats. */
  lemma RealSubsetExact(a: Constraint, b: Constraint)
    requires Fits(Real, a) && Fits(Real, b)
    ensures (Subset(a, b) <==> RealsIncluded(a, b)) <==> !(a.enum.None? && InclusionMissed(a, b))
  {
    if a.enum.Some? {
      EnumSubsetExact(Real, a, b);
      forall k | 0 <= k < |a.enum.value| ensures a.enum.value[k].RealAtom? {
        assert KindOf(a.enum.value[k]) == RealKind;
      }
    } else {
      IncludedIntervals(a, b);
      if b.enum.None? {
        SubsetOfBounds(a, b);
        if !ImpossibleReals(Interval(a)) { CutOffExact(a, b); }
      } else if !ImpossibleReals(Interval(a)) {
        RealBoundsBelowEnum(a, b);
      }
    }
  }

  lemma IncludedIntervals(a: Constraint, b: Constraint)
    requires Fits(Real, a) && Fits(Real, b) && a.enum.None?
    ensures ImpossibleReals(Interval(a)) ==> RealsIncluded(a, b)
    ensures b.enum.None? && !ImpossibleReals(Interval(a)) ==>
      (RealsIncluded(a, b) <==> RealsSubset(Interval(a), Interval(b)))
  {
    forall r ensures Satisfies(a, Scalar(RealAtom(r))) == InReals(Interval(a), r) { IntervalMeaning(a, r); }
    ImpossibleRealsExact(Interval(a));
    if b.enum.None? && !ImpossibleReals(Interval(a)) {
      forall r ensures Satisfies(b, Scalar(RealAtom(r))) == InReals(Interval(b), r) { IntervalMeaning(b, r); }
      RealsSubsetExact(Interval(a), Interval(b));
    }
  }

  lemma SubsetOfBounds(a: Constraint, b: Constraint)
    requires Fits(Real, a) && Fits(Real, b) && a.enum.None? && b.enum.None?
    ensures Subset(a, b) <==> RealsSubset(a.reals, b.reals) && !FormatMissing(a, b)
  {
  }

  /** Among intervals inside each other the test fails on exactly the three. */
  lemma CutOffExact(a: Constraint, b: Constraint)
    requires Fits(Real, a) && Fits(Real, b) && a.enum.None? && b.enum.None? && !ImpossibleReals(Interval(a))
    ensures RealsSubset(a.reals, b.reals) && !FormatMissing(a, b) ==> RealsSubset(Interval(a), Interval(b))
    ensures RealsSubset(Interval(a), Interval(b)) && !FormatMissing(a, b) && !LowerCutOff(a, b) && !UpperCutOff(a, b) ==>
      RealsSubset(a.reals, b.reals)
  {
  }

  /** Without float formats, and with one format whose numbers all limits are, the test is inclusion. */
  lemma OneFormatSubsetExact(a: Constraint, b: Constraint)
    requires Fits(Real, a) && Fits(Real, b) && a.enum.None? && b.enum.None? && a.format == b.format
    requires WithinFormat(a.reals, a.format) && WithinFormat(b.reals, b.format) && !ImpossibleReals(a.reals)
    ensures Subset(a, b) <==> RealsIncluded(a, b)
  {
    RealSubsetExact(a, b);
    MeetWithin(a.reals, a.format);
  }

  /** Against an enum only a single point can be included. */
  lemma RealBoundsBelowEnum(a: Constraint, b: Constraint)
    requires Fits(Real, a) && Fits(Real, b) && a.enum.None? && b.enum.Some? && !ImpossibleReals(Interval(a))
    ensures !Subset(a, b) && (RealsIncluded(a, b) <==> InclusionMissed(a, b))
  {
    var e := b.enum.value;
    forall r ensures Satisfies(a, Scalar(RealAtom(r))) == InReals(Interval(a), r) { IntervalMeaning(a, r); }
    if SingleReal(Interval(a)) {
      var v := Interval(a).min.value.v;
      assert SingleReal(a.reals) && a.reals.min.value.v == v;
      assert forall r :: InReals(Interval(a), r) <==> r == v;
    } else {
      var lo, hi := RealsInside(Interval(a));
      var r := RealBetween(lo, hi, e);
      NotListed(b, r);
      if SingleReal(a.reals) { SingleInterval(a); }
    }
  }

  lemma NotListed(b: Constraint, r: real)
    requires Fits(Real, b) && b.enum.Some? && RealAtom(r) !in b.enum.value
    ensures !Satisfies(b, Scalar(RealAtom(r)))
  {
    if Satisfies(b, Scalar(RealAtom(r))) { var k := EnumAtomIsListed(Real, b, RealAtom(r)); }
  }

  lemma SingleInterval(a: Constraint)
    requires a == UNCONSTRAINED.(reals := a.reals, format := a.format)
    requires SingleReal(a.reals) && !ImpossibleReals(Interval(a))
    ensures SingleReal(Interval(a))
  {
    var p := RealsWitness(Interval(a));
    MeetMeaning(a.reals, Range(a.format), p);
  }

  lemma OwnEnumAtom(base: Type, a: Constraint, k: nat)
    requires (base.Int? || base.Real?) && Fits(base, a) && a.enum.Some? && k < |a.enum.value|
    ensures OwnAtom(base, a.enum.value[k]) && Satisfies(a, Scalar(a.enum.value[k]))
  {
    var e := a.enum.value;
    assert KindOf(e[k]) == if base.Int? then IntKind else RealKind;
    CompareDecidesValue(e[k], e[k]);
    assert InEnum(e, e[k]);
  }

  lemma EnumAtomIsListed(base: Type, a: Constraint, x: Atom) returns (k: nat)
    requires (base.Int? || base.Real?) && Fits(base, a) && a.enum.Some?
    requires OwnAtom(base, x) && Satisfies(a, Scalar(x))
    ensures k < |a.enum.value| && a.enum.value[k] == x
  {
    var e := a.enum.value;
    k :| 0 <= k < |e| && CompareAtoms(x, e[k]) == 0;
    OwnEnumAtom(base, a, k);
    CompareDecidesValue(x, e[k]);
  }

  lemma EnumSubsetExact(base: Type, a: Constraint, b: Constraint)
    requires (base.Int? || base.Real?) && Fits(base, a) && Fits(base, b) && a.enum.Some?
    ensures Subset(a, b) <==>
      forall x :: OwnAtom(base, x) && Satisfies(a, Scalar(x)) ==> Satisfies(b, Scalar(x))
  {
    if Subset(a, b) {
      forall x | OwnAtom(base, x) && Satisfies(a, Scalar(x)) ensures Satisfies(b, Scalar(x)) {
        var k := EnumAtomIsListed(base, a, x);
      }
    } else {
      var k :| 0 <= k < |a.enum.value| && !Satisfies(b, Scalar(a.enum.value[k]));
      OwnEnumAtom(base, a, k);
    }
  }

  /** The least example over `int`: 1 <= x <= 2 is not found inside x in [1, 2]. */
  lemma BoundsBelowEnumInexact()
    ensures var (a, b) := (UNCONSTRAINED.(ints := IntBounds(Some(1), Some(2))),
                           UNCONSTRAINED.(enum := Some([IntAtom(1), IntAtom(2)])));
      Fits(Int, a) && Fits(Int, b) && !Subset(a, b) && IntsIncluded(a, b)
  {
    var e := [IntAtom(1), IntAtom(2)];
    forall i | 1 <= i <= 2 ensures InEnum(e, IntAtom(i)) {
      assert CompareAtoms(IntAtom(i), e[i - 1]) == 0;
    }
  }

  /** And over `real` with a float format: every binary32 number is at most the limit, but the test does not know. */
  lemma FormatBelowBoundsInexact()
    ensures var (a, b) := (UNCONSTRAINED.(format := F32),
                           UNCONSTRAINED.(reals := RealBounds(None, Some(Limit(F32_LIMIT, true)))));
      Fits(Real, a) && Fits(Real, b) && !Subset(a, b) && RealsIncluded(a, b)
  {
  }

  // ----- uniqueness

  /** Two enum-free integer records finish to the same thing exactly when they hold the same integers:
    * the same bounds, the same singleton, or both impossible. */
  lemma IntNormalFormsUnique(a: IntBounds, b: IntBounds)
    ensures Finished(Int, UNCONSTRAINED.(ints := a), false) == Finished(Int, UNCONSTRAINED.(ints := b), false)
      <==> forall i :: InInts(a, i) <==> InInts(b, i)
  {
    ImpossibleIntsExact(a);
    ImpossibleIntsExact(b);
    if !ImpossibleInts(a) && !ImpossibleInts(b) {
      IntsSubsetExact(a, b);
      IntsSubsetExact(b, a);
      FinishedInts(a);
      FinishedInts(b);
      if forall i :: InInts(a, i) <==> InInts(b, i) {
        assert a == b;
      }
    }
  }

  lemma FinishedInts(a: IntBounds)
    requires !ImpossibleInts(a)
    ensures Finished(Int, UNCONSTRAINED.(ints := a), false) ==
      Some(if SingleInt(a) then UNCONSTRAINED.(enum := Some([IntAtom(a.min.value)])) else UNCONSTRAINED.(ints := a))
  {
    if SingleInt(a) {
      var only := [IntAtom(a.min.value)];
      var m := SinglesToEnum(Int, UNCONSTRAINED.(ints := a));
      assert m.(enum := None) == UNCONSTRAINED && m.enum.value == only;
      assert only[1..] == [];
      assert Filter(UNCONSTRAINED, only) == only;
    }
  }

  function RealRecord(a: RealBounds, f: FloatFormat): Constraint {
    UNCONSTRAINED.(reals := a, format := f)
  }

  lemma FinishedReals(a: RealBounds, f: FloatFormat)
    requires !ImpossibleReals(a)
    ensures Finished(Real, RealRecord(a, f), false) ==
      if !SingleReal(a) then Some(RealRecord(a, f))
      else if InReals(Range(f), a.min.value.v) then Some(UNCONSTRAINED.(enum := Some([RealAtom(a.min.value.v)])))
      else None
  {
    if SingleReal(a) {
      var only := [RealAtom(a.min.value.v)];
      var m := SinglesToEnum(Real, RealRecord(a, f));
      assert m.(enum := None) == UNCONSTRAINED.(format := f) && m.enum.value == only;
      assert only[1..] == [];
      RangeMeaning(f, a.min.value.v);
      assert Filter(UNCONSTRAINED.(format := f), only) == if InReals(Range(f), a.min.value.v) then only else [];
    }
  }

  /** Among the numbers of the format the two records hold the same ones. */
  ghost predicate SameNumbers(a: RealBounds, b: RealBounds, f: FloatFormat) {
    forall r :: InReals(Range(f), r) ==> (InReals(a, r) <==> InReals(b, r))
  }

  lemma MutualRealsEqual(x: RealBounds, y: RealBounds)
    requires RealsSubset(x, y) && RealsSubset(y, x)
    ensures x == y
  {
  }

  /** The record without the limits that are not inside its format. */
  function Clip(a: RealBounds, f: FloatFormat): RealBounds {
    if f == NoFormat then a
    else
      RealBounds(
        if a.min.Some? && a.min.value.v <= Range(f).min.value.v then None else a.min,
        if a.max.Some? && a.max.value.v >= Range(f).max.value.v then None else a.max)
  }

  lemma ClipMeets(a: RealBounds, f: FloatFormat)
    ensures var m := Meet(a, Range(f));
      && m.min == (if Clip(a, f).min.Some? then Clip(a, f).min else Range(f).min)
      && m.max == (if Clip(a, f).max.Some? then Clip(a, f).max else Range(f).max)
  {
  }

  /** No number of the format is in the record. */
  predicate Vacant(a: RealBounds, f: FloatFormat) {
    ImpossibleReals(Meet(a, Range(f)))
  }

  /** What makes finishing see that: crossed limits, or a single point outside the format. */
  predicate Noticed(a: RealBounds, f: FloatFormat) {
    ImpossibleReals(a) || (SingleReal(a) && !InReals(Range(f), a.min.value.v))
  }

  /** Different records of the same numbers that finish differently: beyond the format only the numbers that it has
    * can tell limits apart, and not every vacant record is seen to be vacant. */
  predicate KeptApart(a: RealBounds, b: RealBounds, f: FloatFormat) {
    a != b &&
    if Vacant(a, f) && Vacant(b, f) then !(Noticed(a, f) && Noticed(b, f))
    else !Vacant(a, f) && !Vacant(b, f) && Clip(a, f) == Clip(b, f)
  }

  lemma SameNumbersExact(a: RealBounds, b: RealBounds, f: FloatFormat)
    ensures SameNumbers(a, b, f) <==>
      if Vacant(a, f) || Vacant(b, f) then Vacant(a, f) && Vacant(b, f) else Clip(a, f) == Clip(b, f)
  {
    var (x, y) := (Meet(a, Range(f)), Meet(b, Range(f)));
    forall r ensures InReals(x, r) <==> InReals(a, r) && InReals(Range(f), r) { MeetMeaning(a, Range(f), r); }
    forall r ensures InReals(y, r) <==> InReals(b, r) && InReals(Range(f), r) { MeetMeaning(b, Range(f), r); }
    ImpossibleRealsExact(x);
    ImpossibleRealsExact(y);
    if !Vacant(a, f) && !Vacant(b, f) {
      ClipMeets(a, f);
      ClipMeets(b, f);
      RealsSubsetExact(x, y);
      RealsSubsetExact(y, x);
      if SameNumbers(a, b, f) {
        MutualRealsEqual(x, y);
        ClipDetermined(a, b, f);
      }
    }
  }

  lemma ClipDetermined(a: RealBounds, b: RealBounds, f: FloatFormat)
    requires Meet(a, Range(f)) == Meet(b, Range(f))
    ensures Clip(a, f) == Clip(b, f)
  {
    ClipMeets(a, f);
    ClipMeets(b, f);
  }

  lemma FinishedAlike(a: RealBounds, b: RealBounds, f: FloatFormat)
    ensures Finished(Real, RealRecord(a, f), false) == Finished(Real, RealRecord(b, f), false) <==>
      a == b || (Noticed(a, f) && Noticed(b, f))
  {
    if !ImpossibleReals(a) { FinishedReals(a, f); }
    if !ImpossibleReals(b) { FinishedReals(b, f); }
  }

  lemma NoticedIsVacant(a: RealBounds, f: FloatFormat)
    requires Noticed(a, f)
    ensures Vacant(a, f)
  {
    if !Vacant(a, f) {
      var p := RealsWitness(Meet(a, Range(f)));
      MeetMeaning(a, Range(f), p);
    }
  }

  /** Two enum-free real records of one float format, or of none, finish to the same thing exactly when they hold the
    * same numbers of the format; except exactly for those kept apart. */
  lemma RealNormalFormsUnique(a: RealBounds, b: RealBounds, f: FloatFormat)
    ensures (Finished(Real, RealRecord(a, f), false) == Finished(Real, RealRecord(b, f), false) <==>
             SameNumbers(a, b, f)) <==> !KeptApart(a, b, f)
  {
    FinishedAlike(a, b, f);
    SameNumbersExact(a, b, f);
    if Noticed(a, f) { NoticedIsVacant(a, f); }
    if Noticed(b, f) { NoticedIsVacant(b, f); }
  }

  /** The limits of the record are among the numbers of its format. */
  predicate WithinFormat(a: RealBounds, f: FloatFormat) {
    && (a.min.Some? ==> InReals(Range(f), a.min.value.v))
    && (a.max.Some? ==> InReals(Range(f), a.max.value.v))
  }

  /** Without a format, and with limits inside it, no records are kept apart. */
  lemma WithinUnique(a: RealBounds, b: RealBounds, f: FloatFormat)
    requires WithinFormat(a, f) && WithinFormat(b, f)
    ensures !KeptApart(a, b, f)
  {
    MeetWithin(a, f);
    MeetWithin(b, f);
  }

  lemma MeetWithin(a: RealBounds, f: FloatFormat)
    requires WithinFormat(a, f)
    ensures Clip(a, f) == a && (ImpossibleReals(Meet(a, Range(f))) <==> ImpossibleReals(a))
  {
    ClipMeets(a, f);
  }

  /** The case, for two limits beyond binary32: x <= w and x <= w + 1 hold the same binary32 numbers. */
  lemma FormatRecordsKeptApart()
    ensures var (a, b) := (RealBounds(None, Some(Limit(F32_LIMIT, true))), RealBounds(None, Some(Limit(F32_LIMIT + 1.0, true))));
      && SameNumbers(a, b, F32)
      && Finished(Real, RealRecord(a, F32), false) != Finished(Real, RealRecord(b, F32), false)
  {
    var (a, b) := (RealBounds(None, Some(Limit(F32_LIMIT, true))), RealBounds(None, Some(Limit(F32_LIMIT + 1.0, true))));
    FinishedReals(a, F32);
    FinishedReals(b, F32);
  }

  /** Two lists of comparisons over an integer type with bounds or none finish to the same constraint exactly when
    * they mean the same for its integers. */
  lemma EquivalentIntClauses(start: IntBounds, c: seq<Expr>, d: seq<Expr>, n: Constraint, m: Constraint)
    requires n == UNCONSTRAINED.(ints := n.ints) && m == UNCONSTRAINED.(ints := m.ints)
    requires Consumed(Int, UNCONSTRAINED.(ints := start), c, |c|, n, false)
    requires Consumed(Int, UNCONSTRAINED.(ints := start), d, |d|, m, false)
    ensures Finished(Int, n, false) == Finished(Int, m, false) <==>
      forall i :: InInts(start, i) ==> (AllSat(c, |c|, Lit(IntAtom(i))) <==> AllSat(d, |d|, Lit(IntAtom(i))))
  {
    IntNormalFormsUnique(n.ints, m.ints);
    forall i
      ensures InInts(n.ints, i) <==> InInts(start, i) && AllSat(c, |c|, Lit(IntAtom(i)))
      ensures InInts(m.ints, i) <==> InInts(start, i) && AllSat(d, |d|, Lit(IntAtom(i)))
    {
      IntRecordMeans(start, c, n, i);
      IntRecordMeans(start, d, m, i);
    }
  }

  lemma IntRecordMeans(start: IntBounds, c: seq<Expr>, n: Constraint, i: int)
    requires n == UNCONSTRAINED.(ints := n.ints)
    requires Consumed(Int, UNCONSTRAINED.(ints := start), c, |c|, n, false)
    ensures InInts(n.ints, i) <==> InInts(start, i) && AllSat(c, |c|, Lit(IntAtom(i)))
  {
    assert Narrows(Int, UNCONSTRAINED.(ints := start), false, n, false, v => AllSat(c, |c|, v), Lit(IntAtom(i)));
  }

  /** The two lists mean the same for the numbers of a format between the given limits. */
  ghost predicate SameRealMeaning(start: RealBounds, c: seq<Expr>, d: seq<Expr>, f: FloatFormat) {
    forall r :: InReals(Range(f), r) && InReals(start, r) ==>
      (AllSat(c, |c|, Lit(RealAtom(r))) <==> AllSat(d, |d|, Lit(RealAtom(r))))
  }

  /** The same for comparisons over a real type with limits or none and of any float format, except exactly for
    * records that are kept apart. */
  lemma EquivalentRealClauses(start: RealBounds, c: seq<Expr>, d: seq<Expr>, n: Constraint, m: Constraint, f: FloatFormat)
    requires n == RealRecord(n.reals, f) && m == RealRecord(m.reals, f)
    requires Consumed(Real, RealRecord(start, f), c, |c|, n, false)
    requires Consumed(Real, RealRecord(start, f), d, |d|, m, false)
    ensures (Finished(Real, n, false) == Finished(Real, m, false) <==> SameRealMeaning(start, c, d, f)) <==>
      !KeptApart(n.reals, m.reals, f)
  {
    RealNormalFormsUnique(n.reals, m.reals, f);
    forall r | InReals(Range(f), r)
      ensures InReals(n.reals, r) <==> InReals(start, r) && AllSat(c, |c|, Lit(RealAtom(r)))
      ensures InReals(m.reals, r) <==> InReals(start, r) && AllSat(d, |d|, Lit(RealAtom(r)))
    {
      RealRecordMeans(start, c, n, f, r);
      RealRecordMeans(start, d, m, f, r);
    }
  }

  lemma RealRecordMeans(start: RealBounds, c: seq<Expr>, n: Constraint, f: FloatFormat, r: real)
    requires n == RealRecord(n.reals, f) && InReals(Range(f), r)
    requires Consumed(Real, RealRecord(start, f), c, |c|, n, false)
    ensures InReals(n.reals, r) <==> InReals(start, r) && AllSat(c, |c|, Lit(RealAtom(r)))
  {
    RangeMeaning(f, r);
    assert Narrows(Real, RealRecord(start, f), false, n, false, v => AllSat(c, |c|, v), Lit(RealAtom(r)));
  }
}
