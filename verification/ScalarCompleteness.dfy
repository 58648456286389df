/** Completeness of the order on scalar types, with its exact exceptions (internal/compiled/order.go:65-105, 302-361). */
module ScalarCompleteness {
  import opened Wrappers
  import opened Atoms
  import opened Constraints
  import opened Types
  import opened Order
  import opened OrderLaws
  import opened Transitivity
  import opened Soundness
  import opened NormalForms
  import opened NormalFormLaws
  import opened Emptiness

  /** Every concrete value that the left type admits, the right one admits. */
  ghost predicate Included(a: Type, b: Type) {
    forall v :: IsMember(a, v) ==> Accepts(b, v)
  }

  lemma BelowIncluded(a: Type, b: Type)
    requires WellFormed(a) && WellFormed(b) && Below(a, b)
    ensures Included(a, b)
  {
    forall v | IsMember(a, v) ensures Accepts(b, v) { SubtypeSound(a, b, v); }
  }

  lemma ValueIsOwnMember(v: Type)
    requires WellFormed(v) && IsValue(v)
    ensures IsMember(v, v)
  {
    BelowReflexive(v);
    ValueBelowIffAccepted(v, v);
  }

  /** On values there is no exception. */
  lemma ValueComplete(a: Type, b: Type)
    requires WellFormed(a) && WellFormed(b) && IsValue(a)
    ensures Below(a, b) <==> Included(a, b)
  {
    ValueIsOwnMember(a);
    ValueBelowIffAccepted(a, b);
    if Below(a, b) { BelowIncluded(a, b); }
  }

  // ----- scalar types

  /** A scalar, a literal, or a constrained one; names, metadata and unions taken off. */
  predicate ScalarType(t: Type) {
    t.Bool? || t.Int? || t.Real? || t.String? || t.Lit? || (t.Constrained() && ScalarBase(t.base))
  }

  function Own(t: Type): (b: Type)
    ensures Size(b) <= Size(t)
  {
    if t.Refined? then t.base else t
  }

  function Con(t: Type): Constraint {
    if t.Refined? then t.con else UNCONSTRAINED
  }

  /** The lengths of the strings within these bounds. */
  function StringLengths(bounds: IntBounds): IntBounds {
    MeetInts(IntBounds(Some(0), None), bounds)
  }

  /** Bounds do not cross; for reals, also not within the float format. */
  predicate HasAtoms(t: Type) {
    var c := Con(t);
    c.enum.None? ==>
      !ImpossibleInts(c.ints) && !ImpossibleReals(Interval(c)) && !ImpossibleInts(StringLengths(c.length))
  }

  /** A literal or an enum. */
  predicate Lists(t: Type) {
    t.Lit? || Con(t).enum.Some?
  }

  function ListedAtoms(t: Type): seq<Atom>
    requires Lists(t)
  {
    if t.Lit? then [t.atom] else Con(t).enum.value
  }

  ghost predicate AtomsIncluded(a: Type, b: Type) {
    forall x :: Accepts(a, Lit(x)) ==> Accepts(b, Lit(x))
  }

  lemma ScalarIncluded(a: Type, b: Type)
    requires WellFormed(a) && ScalarType(a)
    ensures Included(a, b) <==> AtomsIncluded(a, b)
  {
    if Included(a, b) {
      forall x | Accepts(a, Lit(x)) ensures Accepts(b, Lit(x)) { assert IsMember(a, Lit(x)); }
    }
    if AtomsIncluded(a, b) {
      forall v | IsMember(a, v) ensures Accepts(b, v) {
        ScalarMember(a, v);
        AcceptsLooksThroughRefinements(b, v);
      }
    }
  }

  lemma ScalarMember(a: Type, v: Type)
    requires WellFormed(a) && ScalarType(a) && Accepts(a, v)
    ensures LiteralBase(v).Lit? && Accepts(a, LiteralBase(v))
  {
    AcceptsLooksThroughRefinements(a, v);
  }

  // ----- where the order does not see an inclusion

  /** The atoms of a list, and the decimals of the integers listed over `any`, which stand for both. */
  predicate EveryAtomAccepted(a: Type, b: Type)
    requires Lists(a)
  {
    var e := ListedAtoms(a);
    forall i :: 0 <= i < |e| ==>
      && Accepts(b, Lit(e[i]))
      && (Own(a).Any? && e[i].IntAtom? ==> Accepts(b, Lit(RealAtom(e[i].i as real))))
  }

  /** A list over one base is not compared with a refinement of another, and over `any` with no type at all. */
  predicate ListMissed(a: Type, b: Type)
    requires Lists(a)
  {
    EveryAtomAccepted(a, b) && if b.Refined? then Own(a) != b.base else Own(a).Any?
  }

  function AsReals(a: IntBounds): RealBounds {
    RealBounds(
      if a.min.Some? then Some(Limit(a.min.value as real, true)) else None,
      if a.max.Some? then Some(Limit(a.max.value as real, true)) else None)
  }

  /** Bounded integers: inside a list that has them all, or inside bounds over `real`. */
  predicate IntsMissed(a: IntBounds, b: Type) {
    if Lists(b) then
      && a.min.Some? && a.max.Some?
      && forall i :: a.min.value <= i <= a.max.value ==> Accepts(b, Lit(IntAtom(i)))
    else b.Refined? && b.base.Real? && RealsSubset(AsReals(a), Interval(b.con))
  }

  /** Bounded reals: a single point that is listed, or the cases of the subset test over `real`. */
  predicate RealsMissed(a: Constraint, b: Type) {
    if Lists(b) then SingleReal(a.reals) && Accepts(b, Lit(RealAtom(a.reals.min.value.v)))
    else b.Refined? && b.base.Real? && InclusionMissed(a, b.con)
  }

  /** Bounded strings: inside a list that has them all, or inside bounds whose least length says nothing. */
  ghost predicate StringsMissed(a: IntBounds, b: Type) {
    if Lists(b) then
      a.max.Some? && forall s: string :: InInts(a, |s|) ==> Accepts(b, Lit(StringAtom(s)))
    else
      && b.Refined? && b.base.String? && b.con.length.min.Some? && b.con.length.min.value <= 0
      && !LowerStronger(a, b.con.length) && UpperStronger(a, b.con.length)
  }

  /** All inclusions between two scalar types that the order answers `false` for. */
  ghost predicate Missed(a: Type, b: Type) {
    Literal(a).None? &&
    if Lists(a) then ListMissed(a, b)
    else match Own(a)
      case Bool => b.Refined? && Accepts(b, Lit(BoolAtom(false))) && Accepts(b, Lit(BoolAtom(true)))
      case Int => IntsMissed(Con(a).ints, b)
      case Real => RealsMissed(Con(a), b)
      case String => StringsMissed(Con(a).length, b)
      case _ => false
  }

  lemma EquivalentBases(x: Type, y: Type)
    requires ScalarBase(x) && ScalarBase(y)
    ensures Below(x, y) && Below(y, x) <==> x == y
  {
    if x == y { BelowReflexive(x); }
    if Below(x, y) && Below(y, x) { ScalarBasesAntisymmetric(x, y); }
  }

  /** A refinement that is no literal is compared with refinements of its own base, and otherwise its base decides. */
  lemma RefinementBelow(a: Type, b: Type)
    requires WellFormed(a) && WellFormed(b) && ScalarType(b) && Literal(a).None?
    requires a.Constrained() && ScalarBase(a.base) && a.base != Lit(NullAtom)
    ensures Below(a, b) <==> if b.Refined? then a.base == b.base && Subset(a.con, b.con) else Below(a.base, b)
  {
    ConstrainedBase(a);
    UnfoldRefinedLeft(a, b);
    if b.Refined? {
      EquivalentBases(a.base, b.base);
      BaseNotBelowRefinement(a.base, b);
    }
  }

  // ----- atoms beyond a list

  lemma ListedAccept(b: Type, x: Atom)
    requires Lists(b) && Accepts(b, Lit(x))
    ensures InEnum(ListedAtoms(b), x)
  {
    CompareDecidesValue(NullAtom, NullAtom);
    if b.Lit? { assert CompareAtoms(x, ListedAtoms(b)[0]) == 0; }
  }

  predicate Beyond(e: seq<Atom>, i: int) {
    !InEnum(e, IntAtom(i))
  }

  lemma {:induction false} NumbersBeyond(e: seq<Atom>, p: nat) returns (n: int)
    ensures n >= p && forall i :: i >= n || i <= -n ==> Beyond(e, i)
  {
    n := p;
    if e != [] {
      var x := e[0];
      var r := if x.Numeric() then NumVal(x).Floor else 0;
      var q := if r >= 0 then r + 1 else -r + 1;
      n := NumbersBeyond(e[1..], p + q);
      forall i | i >= n || i <= -n ensures Beyond(e, i) {
        assert CompareAtoms(IntAtom(i), x) != 0;
        BeyondBoth(e, i);
      }
    }
  }

  lemma BeyondBoth(e: seq<Atom>, i: int)
    requires e != [] && Beyond(e[1..], i) && CompareAtoms(IntAtom(i), e[0]) != 0
    ensures Beyond(e, i)
  {
    forall k | 0 < k < |e| ensures CompareAtoms(IntAtom(i), e[k]) != 0 { assert e[1..][k - 1] == e[k]; }
  }

  lemma {:induction false} LongerThanListed(e: seq<Atom>, p: nat) returns (n: nat)
    ensures n >= p && forall i :: 0 <= i < |e| && e[i].StringAtom? ==> |e[i].s| < n
  {
    n := p;
    if e != [] {
      n := LongerThanListed(e[1..], if e[0].StringAtom? then p + |e[0].s| + 1 else p);
      assert forall i :: 0 < i < |e| ==> e[i] == e[1..][i - 1];
    }
  }

  lemma NotListedString(b: Type, s: string)
    requires Lists(b) && forall i :: 0 <= i < |ListedAtoms(b)| && ListedAtoms(b)[i].StringAtom? ==> |ListedAtoms(b)[i].s| < |s|
    ensures !Accepts(b, Lit(StringAtom(s)))
  {
    var e := ListedAtoms(b);
    forall i | 0 <= i < |e| ensures CompareAtoms(StringAtom(s), e[i]) != 0 { CompareDecidesValue(StringAtom(s), e[i]); }
    if Accepts(b, Lit(StringAtom(s))) { ListedAccept(b, StringAtom(s)); }
  }

  function AsDecimals(e: seq<Atom>): (d: seq<Atom>)
    ensures |d| == |e| && forall i :: 0 <= i < |e| ==> d[i] == if e[i].IntAtom? then RealAtom(e[i].i as real) else e[i]
  {
    seq(|e|, i requires 0 <= i < |e| => if e[i].IntAtom? then RealAtom(e[i].i as real) else e[i])
  }

  /** A type that admits a decimal admits the integer of the same value. */
  lemma DecimalOrInteger(b: Type, i: int)
    requires WellFormed(b) && ScalarType(b) && Accepts(b, Lit(RealAtom(i as real)))
    ensures Accepts(b, Lit(IntAtom(i)))
  {
    if b.Refined? {
      if b.con.enum.Some? {
        var e := b.con.enum.value;
        var k :| 0 <= k < |e| && CompareAtoms(RealAtom(i as real), e[k]) == 0;
        assert CompareAtoms(IntAtom(i), e[k]) == 0;
      }
    }
  }

  // ----- bounded integers

  ghost predicate IntsAccepted(a: IntBounds, b: Type) {
    forall i :: InInts(a, i) ==> Accepts(b, Lit(IntAtom(i)))
  }

  predicate IntsType(a: Type) {
    Own(a).Int? && Con(a).enum.None?
  }

  lemma IntsBelow(a: Type, b: Type)
    requires WellFormed(a) && WellFormed(b) && ScalarType(a) && ScalarType(b) && IntsType(a)
    ensures Below(a, b) <==>
      b.Int? || b.Real? || (b.Refined? && b.base.Int? && b.con.enum.None? && IntsSubset(Con(a).ints, b.con.ints))
  {
    if a.Refined? {
      RefinementBelow(a, b);
    } else if b.Refined? {
      BaseNotBelowRefinement(Int, b);
    }
    if !b.Refined? { UnfoldShape(Int, b); }
  }

  lemma IntsIncludedAtoms(a: Type, b: Type)
    requires WellFormed(a) && ScalarType(a) && IntsType(a)
    ensures AtomsIncluded(a, b) <==> IntsAccepted(Con(a).ints, b)
  {
    forall x ensures Accepts(a, Lit(x)) <==> x.IntAtom? && InInts(Con(a).ints, x.i) {}
    if AtomsIncluded(a, b) {
      forall i | InInts(Con(a).ints, i) ensures Accepts(b, Lit(IntAtom(i))) { assert Accepts(a, Lit(IntAtom(i))); }
    }
  }

  lemma IntsInList(a: IntBounds, b: Type)
    requires Lists(b) && !ImpossibleInts(a)
    ensures IntsAccepted(a, b) <==> IntsMissed(a, b)
  {
    if a.min.None? || a.max.None? {
      var p := IntsWitness(a);
      var n := NumbersBeyond(ListedAtoms(b), if p < 0 then -p else p);
      var far: int := if a.min.None? then -n else n;
      assert Beyond(ListedAtoms(b), far);
      if Accepts(b, Lit(IntAtom(far))) { ListedAccept(b, IntAtom(far)); }
      assert InInts(a, far);
    }
  }

  /** A real interval holds all integers of an interval exactly when it holds the ends. */
  lemma IntsInReals(a: IntBounds, r: RealBounds)
    requires !ImpossibleInts(a)
    ensures RealsSubset(AsReals(a), r) <==> forall i: int :: InInts(a, i) ==> InReals(r, i as real)
  {
    if !RealsSubset(AsReals(a), r) {
      var p := IntsWitness(a);
      if r.min.Some? && !RealsSubset(AsReals(a), RealBounds(r.min, None)) {
        var q := r.min.value.v.Floor - 1;
        var out := if a.min.Some? then a.min.value else if q < p then q else p;
        assert InInts(a, out) && !InReals(r, out as real);
      } else {
        var q := r.max.value.v.Floor + 1;
        var out := if a.max.Some? then a.max.value else if q > p then q else p;
        assert InInts(a, out) && !InReals(r, out as real);
      }
    }
  }

  lemma IntsInRealBounds(a: IntBounds, b: Type)
    requires WellFormed(b) && b.Constrained() && b.base.Real? && b.con.enum.None? && !ImpossibleInts(a)
    ensures IntsAccepted(a, b) <==> IntsMissed(a, b)
  {
    forall i: int ensures Accepts(b, Lit(IntAtom(i))) == InReals(Interval(b.con), i as real) {
      IntervalMeaning(b.con, i as real);
      assert Accepts(b, Lit(IntAtom(i))) == Satisfies(b.con, Scalar(RealAtom(i as real)));
    }
    IntsInReals(a, Interval(b.con));
  }

  lemma IntsExact(a: Type, b: Type)
    requires WellFormed(a) && WellFormed(b) && ScalarType(a) && ScalarType(b) && IntsType(a) && HasAtoms(a)
    ensures (Below(a, b) <==> AtomsIncluded(a, b)) <==> !IntsMissed(Con(a).ints, b)
  {
    var ints := Con(a).ints;
    IntsBelow(a, b);
    IntsIncludedAtoms(a, b);
    if Lists(b) {
      IntsInList(ints, b);
    } else if b.Refined? && b.base.Real? {
      IntsInRealBounds(ints, b);
    } else {
      IntsInOther(ints, b);
    }
  }

  lemma IntsInOther(a: IntBounds, b: Type)
    requires WellFormed(b) && ScalarType(b) && !Lists(b) && !(b.Refined? && b.base.Real?) && !ImpossibleInts(a)
    ensures IntsAccepted(a, b) <==> b.Int? || b.Real? || (b.Refined? && b.base.Int? && IntsSubset(a, b.con.ints))
  {
    var p := IntsWitness(a);
    if b.Refined? && b.base.Int? {
      forall i ensures Accepts(b, Lit(IntAtom(i))) == InInts(b.con.ints, i) {}
      IntsSubsetExact(a, b.con.ints);
    } else {
      assert Accepts(b, Lit(IntAtom(p))) <==> b.Int? || b.Real?;
    }
  }

  // ----- bounded reals

  predicate RealsType(a: Type) {
    Own(a).Real? && Con(a).enum.None?
  }

  ghost predicate RealsAccepted(a: Constraint, b: Type) {
    forall r :: InReals(Interval(a), r) ==> Accepts(b, Lit(RealAtom(r)))
  }

  lemma RealsBelow(a: Type, b: Type)
    requires WellFormed(a) && WellFormed(b) && ScalarType(a) && ScalarType(b) && RealsType(a)
    ensures Below(a, b) <==> b.Real? || (a.Refined? && b.Refined? && b.base.Real? && Subset(a.con, b.con))
  {
    if a.Refined? {
      RefinementBelow(a, b);
    } else if b.Refined? {
      BaseNotBelowRefinement(Real, b);
    }
    if !b.Refined? { UnfoldShape(Real, b); }
  }

  lemma RealsIncludedAtoms(a: Type, b: Type)
    requires WellFormed(a) && ScalarType(a) && RealsType(a) && WellFormed(b) && ScalarType(b)
    ensures AtomsIncluded(a, b) <==> RealsAccepted(Con(a), b)
  {
    RealsMembers(a);
    if AtomsIncluded(a, b) {
      forall r | InReals(Interval(Con(a)), r) ensures Accepts(b, Lit(RealAtom(r))) { assert Accepts(a, Lit(RealAtom(r))); }
    } else {
      var x :| Accepts(a, Lit(x)) && !Accepts(b, Lit(x));
      if x.IntAtom? && Accepts(b, Lit(RealAtom(x.i as real))) { DecimalOrInteger(b, x.i); }
      assert !Accepts(b, Lit(RealAtom(NumVal(x))));
    }
  }

  lemma RealsMembers(a: Type)
    requires WellFormed(a) && ScalarType(a) && RealsType(a)
    ensures forall x :: Accepts(a, Lit(x)) <==> x.Numeric() && InReals(Interval(Con(a)), NumVal(x))
  {
    forall x ensures Accepts(a, Lit(x)) <==> x.Numeric() && InReals(Interval(Con(a)), NumVal(x)) {
      if x.Numeric() { IntervalMeaning(Con(a), NumVal(x)); }
    }
  }

  lemma RealsInList(a: Constraint, b: Type)
    requires a == UNCONSTRAINED.(reals := a.reals, format := a.format)
    requires Lists(b) && !ImpossibleReals(Interval(a))
    ensures RealsAccepted(a, b) <==> RealsMissed(a, b)
  {
    if SingleReal(Interval(a)) {
      var v := Interval(a).min.value.v;
      assert SingleReal(a.reals) && a.reals.min.value.v == v;
      assert forall r :: InReals(Interval(a), r) <==> r == v;
    } else {
      var lo, hi := RealsInside(Interval(a));
      var r := RealBetween(lo, hi, AsDecimals(ListedAtoms(b)));
      RealNotListed(b, r);
      if SingleReal(a.reals) { SingleInterval(a); }
    }
  }

  lemma RealNotListed(b: Type, r: real)
    requires Lists(b) && RealAtom(r) !in AsDecimals(ListedAtoms(b))
    ensures !Accepts(b, Lit(RealAtom(r)))
  {
    var e := ListedAtoms(b);
    forall i | 0 <= i < |e| ensures CompareAtoms(RealAtom(r), e[i]) != 0 {
      CompareDecidesValue(RealAtom(r), e[i]);
      assert AsDecimals(e)[i] != RealAtom(r);
    }
    if Accepts(b, Lit(RealAtom(r))) { ListedAccept(b, RealAtom(r)); }
  }

  lemma RealsInBounds(a: Type, b: Type)
    requires WellFormed(a) && WellFormed(b) && ScalarType(a) && RealsType(a) && HasAtoms(a)
    requires b.Constrained() && b.base.Real? && b.con.enum.None?
    ensures a.Refined? ==> (RealsAccepted(a.con, b) <==> RealsIncluded(a.con, b.con))
    ensures !a.Refined? ==> !RealsAccepted(UNCONSTRAINED, b) && !InclusionMissed(UNCONSTRAINED, b.con)
  {
    forall r ensures Accepts(b, Lit(RealAtom(r))) == Satisfies(b.con, Scalar(RealAtom(r))) {}
    if a.Refined? {
      forall r ensures Satisfies(a.con, Scalar(RealAtom(r))) == InReals(Interval(a.con), r) { IntervalMeaning(a.con, r); }
    } else {
      forall r ensures Accepts(b, Lit(RealAtom(r))) == InReals(Interval(b.con), r) { IntervalMeaning(b.con, r); }
      RealsSubsetExact(NO_REALS, Interval(b.con));
      assert Interval(UNCONSTRAINED) == NO_REALS;
    }
  }

  lemma RealsExact(a: Type, b: Type)
    requires WellFormed(a) && WellFormed(b) && ScalarType(a) && ScalarType(b) && RealsType(a) && HasAtoms(a)
    ensures (Below(a, b) <==> AtomsIncluded(a, b)) <==> !RealsMissed(Con(a), b)
  {
    var c := Con(a);
    RealsBelow(a, b);
    RealsIncludedAtoms(a, b);
    if Lists(b) {
      RealsInList(c, b);
    } else if b.Refined? && b.base.Real? {
      RealsInBounds(a, b);
      if a.Refined? { RealSubsetExact(a.con, b.con); }
    } else {
      var p := RealsWitness(Interval(c));
      assert Accepts(b, Lit(RealAtom(p))) <==> b.Real?;
    }
  }

  // ----- bounded strings

  predicate StringsType(a: Type) {
    Own(a).String? && Con(a).enum.None?
  }

  ghost predicate StringsAccepted(a: IntBounds, b: Type) {
    forall s: string :: InInts(a, |s|) ==> Accepts(b, Lit(StringAtom(s)))
  }

  lemma StringsBelow(a: Type, b: Type)
    requires WellFormed(a) && WellFormed(b) && ScalarType(a) && ScalarType(b) && StringsType(a)
    ensures Below(a, b) <==>
      b.String? || (b.Refined? && b.base.String? && b.con.enum.None? && IntsSubset(Con(a).length, b.con.length))
  {
    if a.Refined? {
      RefinementBelow(a, b);
    } else if b.Refined? {
      BaseNotBelowRefinement(String, b);
    }
    if !b.Refined? { UnfoldShape(String, b); }
  }

  lemma StringsIncludedAtoms(a: Type, b: Type)
    requires WellFormed(a) && ScalarType(a) && StringsType(a)
    ensures AtomsIncluded(a, b) <==> StringsAccepted(Con(a).length, b)
  {
    forall x ensures Accepts(a, Lit(x)) <==> x.StringAtom? && InInts(Con(a).length, |x.s|) {}
    if AtomsIncluded(a, b) {
      forall s: string | InInts(Con(a).length, |s|) ensures Accepts(b, Lit(StringAtom(s))) {
        assert Accepts(a, Lit(StringAtom(s)));
      }
    }
  }

  lemma StringsInList(a: IntBounds, b: Type)
    requires Lists(b) && !ImpossibleInts(StringLengths(a))
    ensures StringsAccepted(a, b) <==> StringsMissed(a, b)
  {
    if a.max.None? {
      var n := LongerThanListed(ListedAtoms(b), if a.min.Some? && a.min.value > 0 then a.min.value else 0);
      var s: string := seq(n, _ => 'a');
      NotListedString(b, s);
      assert InInts(a, |s|);
    }
  }

  lemma StringsInBounds(a: IntBounds, b: Type)
    requires WellFormed(b) && b.Constrained() && b.base.String? && b.con.enum.None? && !ImpossibleInts(StringLengths(a))
    ensures (IntsSubset(a, b.con.length) <==> StringsAccepted(a, b)) <==> !StringsMissed(a, b)
  {
    StringsAcceptedLengths(a, b);
    IntsSubsetExact(StringLengths(a), b.con.length);
  }

  lemma StringsAcceptedLengths(a: IntBounds, b: Type)
    requires WellFormed(b) && b.Constrained() && b.base.String? && b.con.enum.None?
    ensures StringsAccepted(a, b) <==> forall i :: InInts(StringLengths(a), i) ==> InInts(b.con.length, i)
  {
    var (own, d) := (StringLengths(a), b.con.length);
    forall s: string ensures Accepts(b, Lit(StringAtom(s))) == InInts(d, |s|) {}
    if StringsAccepted(a, b) {
      forall i | InInts(own, i) ensures InInts(d, i) {
        var s: string := seq(i, _ => 'a');
        assert InInts(a, |s|);
      }
    } else {
      var s: string :| InInts(a, |s|) && !Accepts(b, Lit(StringAtom(s)));
      assert InInts(own, |s|);
    }
  }

  lemma StringsExact(a: Type, b: Type)
    requires WellFormed(a) && WellFormed(b) && ScalarType(a) && ScalarType(b) && StringsType(a) && HasAtoms(a)
    ensures (Below(a, b) <==> AtomsIncluded(a, b)) <==> !StringsMissed(Con(a).length, b)
  {
    var bounds := Con(a).length;
    StringsBelow(a, b);
    StringsIncludedAtoms(a, b);
    if Lists(b) {
      StringsInList(bounds, b);
    } else if b.Refined? && b.base.String? {
      StringsInBounds(bounds, b);
    } else {
      StringsInOther(bounds, b);
    }
  }

  lemma StringsInOther(a: IntBounds, b: Type)
    requires WellFormed(b) && ScalarType(b) && !Lists(b) && !(b.Refined? && b.base.String?)
    requires !ImpossibleInts(StringLengths(a))
    ensures StringsAccepted(a, b) <==> b.String?
  {
    var s: string := seq(StringLengths(a).min.value, _ => 'a');
    assert InInts(a, |s|);
    assert Accepts(b, Lit(StringAtom(s))) <==> b.String?;
  }

  // ----- booleans and lists

  lemma BoolsIncludedAtoms(b: Type)
    ensures AtomsIncluded(Bool, b) <==> Accepts(b, Lit(BoolAtom(false))) && Accepts(b, Lit(BoolAtom(true)))
  {
    assert Accepts(Bool, Lit(BoolAtom(false))) && Accepts(Bool, Lit(BoolAtom(true)));
    forall x | Accepts(Bool, Lit(x)) ensures x == BoolAtom(false) || x == BoolAtom(true) {}
  }

  lemma BoolsBelow(b: Type)
    requires WellFormed(b) && ScalarType(b)
    ensures Below(Bool, b) <==> b.Bool?
  {
    if b.Refined? { BaseNotBelowRefinement(Bool, b); } else { UnfoldShape(Bool, b); }
  }

  lemma BoolsExact(b: Type)
    requires WellFormed(b) && ScalarType(b)
    ensures (Below(Bool, b) <==> AtomsIncluded(Bool, b)) <==>
      !(b.Refined? && Accepts(b, Lit(BoolAtom(false))) && Accepts(b, Lit(BoolAtom(true))))
  {
    BoolsBelow(b);
    BoolsIncludedAtoms(b);
    if b.Lit? && AtomsIncluded(Bool, b) {
      LiteralAccepts(b.atom, BoolAtom(false));
      LiteralAccepts(b.atom, BoolAtom(true));
    }
  }

  predicate EnumOf(a: Type) {
    a.Constrained() && a.con.enum.Some? && ScalarBase(a.base) && Literal(a).None?
  }

  /** Two atoms of different values. */
  lemma EnumHasTwo(a: Type)
    requires WellFormed(a) && EnumOf(a)
    ensures var e := a.con.enum.value; |e| >= 2 && !SameValue(e[0], e[1]) && a.base != Lit(NullAtom)
  {
    var e := a.con.enum.value;
    LiteralOfEnum(a);
    assert |e| >= 2;
    CompareDecidesValue(e[0], e[1]);
    if a.base == Lit(NullAtom) { NullsDoNotAscend(e); }
  }

  lemma EnumIncludedAtoms(a: Type, b: Type)
    requires WellFormed(a) && WellFormed(b) && ScalarType(b) && EnumOf(a)
    ensures AtomsIncluded(a, b) <==> EveryAtomAccepted(a, b)
  {
    var e := a.con.enum.value;
    if AtomsIncluded(a, b) {
      forall i | 0 <= i < |e|
        ensures Accepts(b, Lit(e[i])) && (a.base.Any? && e[i].IntAtom? ==> Accepts(b, Lit(RealAtom(e[i].i as real))))
      {
        OwnAtomAccepted(a, i);
      }
    }
    if EveryAtomAccepted(a, b) {
      forall x | Accepts(a, Lit(x)) ensures Accepts(b, Lit(x)) { EnumAtomAccepted(a, b, x); }
    }
  }

  lemma OwnAtomAccepted(a: Type, i: nat)
    requires WellFormed(a) && EnumOf(a) && i < |a.con.enum.value|
    ensures var x := a.con.enum.value[i];
      Accepts(a, Lit(x)) && (a.base.Any? && x.IntAtom? ==> Accepts(a, Lit(RealAtom(x.i as real))))
  {
    var e := a.con.enum.value;
    OwnAtomsBelow(a.base, a.con, i);
    AtomBelowIffAccepted(e[i], a.base);
    CompareDecidesValue(e[i], e[i]);
    assert InEnum(e, e[i]);
    if e[i].IntAtom? {
      assert CompareAtoms(RealAtom(e[i].i as real), e[i]) == 0;
      assert InEnum(e, RealAtom(e[i].i as real));
    }
  }

  lemma EnumAtomAccepted(a: Type, b: Type, x: Atom)
    requires WellFormed(a) && WellFormed(b) && ScalarType(b) && EnumOf(a) && EveryAtomAccepted(a, b) && Accepts(a, Lit(x))
    ensures Accepts(b, Lit(x))
  {
    var i := EnumAtomForm(a, x);
    var y := ListedAtoms(a)[i];
    assert Accepts(b, Lit(y));
    if x != y && x.IntAtom? {
      assert y == RealAtom(x.i as real);
      DecimalOrInteger(b, x.i);
    }
  }

  /** An admitted atom is listed, or it is the decimal or the integer of a listed one. */
  lemma EnumAtomForm(a: Type, x: Atom) returns (i: nat)
    requires WellFormed(a) && EnumOf(a) && Accepts(a, Lit(x))
    ensures i < |a.con.enum.value|
    ensures var y := a.con.enum.value[i];
      x == y || (x.IntAtom? && y == RealAtom(x.i as real)) || (a.base.Any? && y.IntAtom? && x == RealAtom(y.i as real))
  {
    var e := a.con.enum.value;
    i :| 0 <= i < |e| && CompareAtoms(x, e[i]) == 0;
    CompareDecidesValue(x, e[i]);
    OwnAtomAccepted(a, i);
    assert Accepts(a.base, Lit(x)) && Accepts(a.base, Lit(e[i]));
    if !a.base.Any? { assert KindOf(e[i]) == KindOf(e[i]); }
  }

  lemma EnumExact(a: Type, b: Type)
    requires WellFormed(a) && WellFormed(b) && ScalarType(b) && EnumOf(a)
    ensures (Below(a, b) <==> AtomsIncluded(a, b)) <==> !ListMissed(a, b)
  {
    EnumHasTwo(a);
    EnumIncludedAtoms(a, b);
    RefinementBelow(a, b);
    if b.Refined? {
      if a.base == b.base { SameBaseEnum(a, b); }
    } else if b.Lit? {
      EnumNotLiteral(a, b);
    } else {
      EnumInBase(a, b);
    }
  }

  lemma SameBaseEnum(a: Type, b: Type)
    requires WellFormed(a) && WellFormed(b) && EnumOf(a) && b.Constrained() && b.base == a.base
    ensures Subset(a.con, b.con) <==> EveryAtomAccepted(a, b)
  {
    var e := a.con.enum.value;
    forall i | 0 <= i < |e|
      ensures Accepts(b, Lit(e[i])) == Satisfies(b.con, Scalar(e[i]))
      ensures a.base.Any? && e[i].IntAtom? ==> Accepts(b, Lit(RealAtom(e[i].i as real))) == Accepts(b, Lit(e[i]))
    {
      OwnAtomAccepted(a, i);
      if a.base.Any? && e[i].IntAtom? { SameNumberListed(b.con.enum.value, e[i].i); }
    }
  }

  lemma SameNumberListed(e: seq<Atom>, i: int)
    ensures InEnum(e, RealAtom(i as real)) == InEnum(e, IntAtom(i))
  {
    forall k | 0 <= k < |e| 
      ensures CompareAtoms(RealAtom(i as real), e[k]) == 0 <==> CompareAtoms(IntAtom(i), e[k]) == 0
    {
    }
  }

  lemma EnumNotLiteral(a: Type, b: Type)
    requires WellFormed(a) && EnumOf(a) && b.Lit?
    ensures !EveryAtomAccepted(a, b) && !Below(a.base, b)
  {
    EnumHasTwo(a);
    var e := ListedAtoms(a);
    if EveryAtomAccepted(a, b) {
      assert Accepts(b, Lit(e[0])) && Accepts(b, Lit(e[1]));
      LiteralAccepts(b.atom, e[0]);
      LiteralAccepts(b.atom, e[1]);
    }
    if !a.base.Any? { UnfoldShape(a.base, b); }
  }

  lemma LiteralAccepts(x: Atom, y: Atom)
    requires Accepts(Lit(x), Lit(y))
    ensures SameValue(x, y)
  {
    CompareDecidesValue(y, x);
  }

  lemma EnumOutsideBase(a: Type, b: Type)
    requires WellFormed(a) && EnumOf(a) && !a.base.Any? && a.base != Lit(NullAtom)
    requires (b.Bool? || b.Int? || b.Real? || b.String?) && Accepts(b, Lit(ListedAtoms(a)[0]))
    ensures Below(a.base, b)
  {
    var x := ListedAtoms(a)[0];
    assert KindOf(x) == if a.base.Bool? then BoolKind else if a.base.Int? then IntKind
                        else if a.base.Real? then RealKind else StringKind;
    UnfoldShape(a.base, b);
  }

  lemma EnumInBase(a: Type, b: Type)
    requires WellFormed(a) && EnumOf(a) && a.base != Lit(NullAtom) && (b.Bool? || b.Int? || b.Real? || b.String?)
    ensures a.base.Any? ==> !Below(a.base, b)
    ensures !a.base.Any? ==> (Below(a.base, b) <==> EveryAtomAccepted(a, b))
  {
    var e := ListedAtoms(a);
    if !a.base.Any? {
      if Below(a.base, b) {
        forall i | 0 <= i < |e| ensures Accepts(b, Lit(e[i])) {
          OwnAtomsBelow(a.base, a.con, i);
          BelowTransitive(Lit(e[i]), a.base, b);
          AtomBelowIffAccepted(e[i], b);
        }
      }
      if EveryAtomAccepted(a, b) {
        assert Accepts(b, Lit(ListedAtoms(a)[0]));
        EnumOutsideBase(a, b);
      }
    }
  }

  // ----- all scalar types

  /** Between scalar types that have values the order is inclusion, apart from exactly the inclusions named above. */
  lemma ScalarsExact(a: Type, b: Type)
    requires WellFormed(a) && WellFormed(b) && ScalarType(a) && ScalarType(b) && HasAtoms(a)
    ensures (Below(a, b) <==> Included(a, b)) <==> !Missed(a, b)
  {
    ScalarIncluded(a, b);
    if Literal(a).Some? {
      ValueComplete(a, b);
    } else if Lists(a) {
      EnumExact(a, b);
    } else {
      BoundsExact(a, b);
    }
  }

  lemma NoLiteral(a: Type)
    requires WellFormed(a) && ScalarType(a) && !Lists(a)
    ensures Literal(a).None? && (a.Bool? || IntsType(a) || RealsType(a) || StringsType(a))
  {
  }

  lemma BoundsExact(a: Type, b: Type)
    requires WellFormed(a) && WellFormed(b) && ScalarType(a) && ScalarType(b) && HasAtoms(a) && !Lists(a)
    ensures (Below(a, b) <==> AtomsIncluded(a, b)) <==> !Missed(a, b)
  {
    NoLiteral(a);
    if Own(a).Int? {
      IntsExact(a, b);
    } else if Own(a).Real? {
      RealsExact(a, b);
    } else if Own(a).String? {
      StringsExact(a, b);
    } else {
      BoolsExact(b);
    }
  }
}
