/** Scalar atoms and their order (internal/compiled/nodes.go, constraint.go, order.go).
  *
  * An atom is modelled by its value: an integer of any size, an exact decimal as a real number, a
  * string as a sequence of code points.  The modules HybridInts and DecimalOrder show that the two numeric
  * representations the arena stores are determined by these values.
  */
module Atoms {

  datatype Atom =
    | NullAtom
    | BoolAtom(b: bool)
    | IntAtom(i: int)
    | RealAtom(r: real)
    | StringAtom(s: string)
  {
    predicate Numeric() {
      IntAtom? || RealAtom?
    }

    /** The position of the kind in the declaration order of nodes.go. */
    function Rank(): nat {
      match this
      case NullAtom => 3
      case BoolAtom(_) => 7
      case IntAtom(_) => 8
      case StringAtom(_) => 9
      case RealAtom(_) => 16
    }
  }

  /** The kinds of atom one scalar base owns. */
  datatype AtomKind = NullKind | BoolKind | IntKind | RealKind | StringKind

  function KindOf(a: Atom): AtomKind {
    match a
    case NullAtom => NullKind
    case BoolAtom(_) => BoolKind
    case IntAtom(_) => IntKind
    case RealAtom(_) => RealKind
    case StringAtom(_) => StringKind
  }

  function NumVal(a: Atom): real
    requires a.Numeric()
  {
    if a.IntAtom? then a.i as real else a.r
  }

  function CompareReals(x: real, y: real): int {
    if x < y then -1 else if x > y then 1 else 0
  }

  function CompareBools(x: bool, y: bool): int {
    if x == y then 0 else if y then -1 else 1
  }

  function CompareStrings(x: string, y: string): int {
    if x == [] then (if y == [] then 0 else -1)
    else if y == [] then 1
    else if x[0] < y[0] then -1
    else if x[0] > y[0] then 1
    else CompareStrings(x[1..], y[1..])
  }

  /** Numbers compare by value across the two kinds; otherwise the kind order decides first. */
  function CompareAtoms(x: Atom, y: Atom): int {
    if x.Numeric() && y.Numeric() then CompareReals(NumVal(x), NumVal(y))
    else if x.Rank() < y.Rank() then -1
    else if x.Rank() > y.Rank() then 1
    else match x
      case NullAtom => 0
      case BoolAtom(b) => CompareBools(b, y.b)
      case StringAtom(s) => CompareStrings(s, y.s)
  }

  /** What "the value x equals the literal y" means: numbers by value, the rest structurally. */
  predicate SameValue(x: Atom, y: Atom) {
    x == y || (x.Numeric() && y.Numeric() && NumVal(x) == NumVal(y))
  }

  lemma {:induction false} CompareStringsIsOrder(x: string, y: string)
    ensures CompareStrings(x, y) == 0 <==> x == y
    ensures CompareStrings(x, y) == -CompareStrings(y, x)
    ensures -1 <= CompareStrings(x, y) <= 1
  {
    if x != [] && y != [] {
      CompareStringsIsOrder(x[1..], y[1..]);
      if x[0] == y[0] {
        assert x == [x[0]] + x[1..] && y == [y[0]] + y[1..];
      }
    }
  }

  lemma {:induction false} CompareStringsTransitive(x: string, y: string, z: string)
    requires CompareStrings(x, y) < 0 && CompareStrings(y, z) < 0
    ensures CompareStrings(x, z) < 0
  {
    if x != [] && y != [] && z != [] && x[0] == y[0] == z[0] {
      CompareStringsTransitive(x[1..], y[1..], z[1..]);
    }
  }

  /** The comparison decides equality of values and is antisymmetric, for atoms of any two kinds. */
  lemma CompareDecidesValue(x: Atom, y: Atom)
    ensures CompareAtoms(x, y) == 0 <==> SameValue(x, y)
    ensures CompareAtoms(x, y) == -CompareAtoms(y, x)
    ensures -1 <= CompareAtoms(x, y) <= 1
  {
    if x.StringAtom? && y.StringAtom? {
      CompareStringsIsOrder(x.s, y.s);
    }
  }

  /** Integers, strings and decimals are not all three among the kinds. */
  predicate Orderable(kinds: set<AtomKind>) {
    !(IntKind in kinds && StringKind in kinds && RealKind in kinds)
  }

  lemma CompareTransitive(x: Atom, y: Atom, z: Atom)
    requires Orderable({KindOf(x), KindOf(y), KindOf(z)})
    requires CompareAtoms(x, y) < 0 && CompareAtoms(y, z) < 0
    ensures CompareAtoms(x, z) < 0
  {
    if x.StringAtom? && y.StringAtom? && z.StringAtom? {
      CompareStringsTransitive(x.s, y.s, z.s);
    }
  }

  lemma CompareRespectsValue(x: Atom, y: Atom, z: Atom)
    requires SameValue(x, y)
    requires Orderable({KindOf(x), KindOf(y), KindOf(z)})
    ensures CompareAtoms(x, z) == CompareAtoms(y, z)
    ensures CompareAtoms(z, x) == CompareAtoms(z, y)
  {
  }

  /** With integers, strings and decimals together it is not an order: an integer sorts before a string, the string
    * before a decimal, and the decimal before that integer.  */
  lemma MixedKindsCycle(s: string)
    ensures var (i, r) := (IntAtom(5), RealAtom(1.0));
      CompareAtoms(i, StringAtom(s)) < 0 && CompareAtoms(StringAtom(s), r) < 0 && CompareAtoms(r, i) < 0
  {
  }

  predicate TransitiveAt(x: Atom, y: Atom, z: Atom) {
    CompareAtoms(x, y) < 0 && CompareAtoms(y, z) < 0 ==> CompareAtoms(x, z) < 0
  }

  /** The comparison is transitive on all atoms of the kinds. */
  ghost predicate TransitiveOn(kinds: set<AtomKind>) {
    forall x, y, z :: KindOf(x) in kinds && KindOf(y) in kinds && KindOf(z) in kinds ==> TransitiveAt(x, y, z)
  }

  predicate RespectsAt(x: Atom, y: Atom, z: Atom) {
    SameValue(x, y) ==> CompareAtoms(x, z) == CompareAtoms(y, z)
  }

  /** The comparison does not tell apart atoms of one value, on all atoms of the kinds. */
  ghost predicate RespectsValueOn(kinds: set<AtomKind>) {
    forall x, y, z :: KindOf(x) in kinds && KindOf(y) in kinds && KindOf(z) in kinds ==> RespectsAt(x, y, z)
  }

  /** On the atoms of a set of kinds the comparison is a total preorder of values exactly when the set leaves out
    * integers, strings or decimals; each half of the property alone decides it. */
  lemma OrderOnKindsExact(kinds: set<AtomKind>)
    ensures TransitiveOn(kinds) <==> Orderable(kinds)
    ensures RespectsValueOn(kinds) <==> Orderable(kinds)
  {
    if Orderable(kinds) {
      forall x, y, z | KindOf(x) in kinds && KindOf(y) in kinds && KindOf(z) in kinds
        ensures TransitiveAt(x, y, z) && RespectsAt(x, y, z)
      {
        if CompareAtoms(x, y) < 0 && CompareAtoms(y, z) < 0 { CompareTransitive(x, y, z); }
        if SameValue(x, y) { CompareRespectsValue(x, y, z); }
      }
    } else {
      MixedKindsCycle("");
      assert !TransitiveAt(IntAtom(5), StringAtom(""), RealAtom(1.0));
      assert !RespectsAt(IntAtom(1), RealAtom(1.0), StringAtom(""));
    }
  }
}
