/** Integers as the arena keeps them: 64-bit machine integers, or a sign and big-endian bytes outside that
  * range (internal/compiled/integer.go, internal/compiled/arena.go:293-317, 677-749). */
module HybridInts {
  import opened Wrappers
  import opened MachineInts
  import opened Constraints
  import Clauses

  newtype byte = x: int | 0 <= x < 0x100

  datatype IntRep = Small(v: int64) | Big(neg: bool, mag: seq<byte>)

  /** The number big-endian bytes write. */
  function Magnitude(mag: seq<byte>): (n: nat) {
    if mag == [] then 0 else 256 * Magnitude(mag[..|mag| - 1]) + mag[|mag| - 1] as int
  }

  function ValueOf(x: IntRep): int {
    match x
    case Small(v) => v as int
    case Big(neg, mag) =>
      var m: int := Magnitude(mag);
      if neg then -m else m
  }

  predicate Minimal(mag: seq<byte>) {
    mag != [] && mag[0] != 0
  }

  /** The big form is used outside the 64-bit range only, without leading zero bytes. */
  predicate Canonical(x: IntRep) {
    x.Big? ==> Minimal(x.mag) && !FitsInt64(ValueOf(x))
  }

  // ----- bytes

  function Pow256(n: nat): (p: nat)
    ensures p >= 1
  {
    if n == 0 then 1 else 256 * Pow256(n - 1)
  }

  lemma {:induction false} MagnitudeBelow(mag: seq<byte>)
    ensures Magnitude(mag) < Pow256(|mag|)
  {
    if mag != [] { MagnitudeBelow(mag[..|mag| - 1]); }
  }

  lemma {:induction false} MagnitudeAtLeast(mag: seq<byte>)
    requires Minimal(mag)
    ensures Magnitude(mag) >= Pow256(|mag| - 1)
  {
    if |mag| > 1 {
      assert mag[..|mag| - 1][0] == mag[0];
      MagnitudeAtLeast(mag[..|mag| - 1]);
    } else {
      assert Magnitude(mag[..0]) == 0;
    }
  }

  lemma {:induction false} Pow256Monotone(m: nat, n: nat)
    requires m <= n
    ensures Pow256(m) <= Pow256(n)
  {
    if m < n { Pow256Monotone(m, n - 1); }
  }

  /** `bytes.Compare` of slices of one length. */
  function CompareBytes(a: seq<byte>, b: seq<byte>): int
    requires |a| == |b|
  {
    if a == [] then 0
    else if a[0] < b[0] then -1
    else if a[0] > b[0] then 1
    else CompareBytes(a[1..], b[1..])
  }

  function CompareMagnitude(a: seq<byte>, b: seq<byte>): int {
    if |a| < |b| then -1 else if |a| > |b| then 1 else CompareBytes(a, b)
  }

  function Sign(d: int): int {
    if d < 0 then -1 else if d > 0 then 1 else 0
  }

  /** The first difference decides, so the last byte only does when the rest is equal. */
  lemma {:induction false} CompareBytesLast(a: seq<byte>, b: seq<byte>)
    requires |a| == |b| > 0
    ensures var (n, c) := (|a| - 1, CompareBytes(a[..|a| - 1], b[..|b| - 1]));
      CompareBytes(a, b) == if c != 0 then c else Sign(a[n] as int - b[n] as int)
  {
    var n := |a| - 1;
    if n > 0 && a[0] == b[0] {
      CompareBytesLast(a[1..], b[1..]);
      assert a[1..][..n - 1] == a[..n][1..] && b[1..][..n - 1] == b[..n][1..];
    }
  }

  lemma {:induction false} CompareBytesExact(a: seq<byte>, b: seq<byte>)
    requires |a| == |b|
    ensures CompareBytes(a, b) == Sign(Magnitude(a) - Magnitude(b))
  {
    if a != [] {
      CompareBytesLast(a, b);
      CompareBytesExact(a[..|a| - 1], b[..|b| - 1]);
    }
  }

  /** On minimal bytes the length and then the bytes compare as the numbers do. */
  lemma CompareMagnitudeExact(a: seq<byte>, b: seq<byte>)
    requires Minimal(a) && Minimal(b)
    ensures CompareMagnitude(a, b) == Sign(Magnitude(a) - Magnitude(b))
  {
    MagnitudeBelow(a);
    MagnitudeBelow(b);
    MagnitudeAtLeast(a);
    MagnitudeAtLeast(b);
    if |a| < |b| {
      Pow256Monotone(|a|, |b| - 1);
    } else if |a| > |b| {
      Pow256Monotone(|b|, |a| - 1);
    } else {
      CompareBytesExact(a, b);
    }
  }

  lemma {:induction false} SameBytes(a: seq<byte>, b: seq<byte>)
    requires |a| == |b| && CompareBytes(a, b) == 0
    ensures a == b
  {
    if a != [] {
      SameBytes(a[1..], b[1..]);
      assert a == [a[0]] + a[1..] && b == [b[0]] + b[1..];
    }
  }

  /** The minimal big-endian bytes of a number (`big.Int.Bytes`). */
  function Bytes(n: nat): (mag: seq<byte>)
    ensures n > 0 ==> Minimal(mag)
    ensures Magnitude(mag) == n
  {
    if n == 0 then [] else
      var mag := Bytes(n / 256) + [(n % 256) as byte];
      assert mag[..|mag| - 1] == Bytes(n / 256);
      mag
  }

  // ----- comparison

  /** `compareInts`, over the two forms. */
  function CompareInts(x: IntRep, y: IntRep): int {
    match (x, y)
    case (Small(a), Small(b)) => if a < b then -1 else if a > b then 1 else 0
    case (Small(_), Big(neg, _)) => if neg then 1 else -1
    case (Big(neg, _), Small(_)) => if neg then -1 else 1
    case (Big(xneg, xmag), Big(yneg, ymag)) =>
      if xneg != yneg then (if xneg then -1 else 1)
      else if xneg then -CompareMagnitude(xmag, ymag)
      else CompareMagnitude(xmag, ymag)
  }

  /** It has the sign of the difference. */
  lemma CompareIntsExact(x: IntRep, y: IntRep)
    requires Canonical(x) && Canonical(y)
    ensures CompareInts(x, y) == Sign(ValueOf(x) - ValueOf(y))
  {
    if x.Big? && y.Big? { CompareMagnitudeExact(x.mag, y.mag); }
  }

  /** Equal integers have one representation, so they intern to one atom. */
  lemma CanonicalUnique(x: IntRep, y: IntRep)
    requires Canonical(x) && Canonical(y) && ValueOf(x) == ValueOf(y)
    ensures x == y
  {
    CompareIntsExact(x, y);
    if x.Big? && y.Big? {
      CompareMagnitudeExact(x.mag, y.mag);
      SameBytes(x.mag, y.mag);
    }
  }

  // ----- building and adding

  /** `internBigInt`: the canonical form of any integer. */
  function FromInt(v: int): (x: IntRep)
    ensures Canonical(x) && ValueOf(x) == v
  {
    if FitsInt64(v) then Small(v as int64)
    else if v < 0 then Big(true, Bytes(-v))
    else Big(false, Bytes(v))
  }

  /** `intAtomAdd64`: in machine arithmetic while the sum stays in range, and exactly beyond. */
  method Add64(x: IntRep, v: int64) returns (r: IntRep)
    requires Canonical(x)
    ensures Canonical(r) && ValueOf(r) == ValueOf(x) + v as int
  {
    if v == 0 { return x; }
    if x.Small? {
      var val := x.v;
      if v > 0 {
        if val <= 0x7fff_ffff_ffff_ffff - v { return Small(val + v); }
      } else {
        if val >= -0x8000_0000_0000_0000 - v { return Small(val + v); }
      }
    }
    return FromInt(ValueOf(x) + v as int);
  }

  /** Adding a number and then its negative, on either side of the 64-bit range, gives back the very representation
    * one started from. */
  method AddInverse(x: IntRep, v: int64) returns (back: IntRep)
    requires Canonical(x) && v != -0x8000_0000_0000_0000
    ensures back == x
  {
    var sum := Add64(x, v);
    back := Add64(sum, -v);
    CanonicalUnique(back, x);
  }

  // ----- bounds of a literal that is not interned

  function BoundsOf(min: Option<IntRep>, max: Option<IntRep>): IntBounds {
    IntBounds(if min.None? then None else Some(ValueOf(min.value)), if max.None? then None else Some(ValueOf(max.value)))
  }

  /** `compareBigIntData`: an integer of any size against a stored one. */
  function CompareBigData(x: int, y: IntRep): int {
    match y
    case Small(b) => Sign(x - b as int)
    case Big(neg, mag) =>
      if (x < 0) != neg then (if x < 0 then -1 else 1)
      else if x < 0 then -CompareMagnitude(Bytes(-x), mag)
      else CompareMagnitude(Bytes(x), mag)
  }

  lemma CompareBigDataExact(x: int, y: IntRep)
    requires Canonical(y) && !FitsInt64(x)
    ensures CompareBigData(x, y) == Sign(x - ValueOf(y))
  {
    if y.Big? { CompareMagnitudeExact(Bytes(if x < 0 then -x else x), y.mag); }
  }

  /** `rawIntWithinBounds`: 64-bit literals are compared by machine, larger ones by bytes. */
  method RawIntWithinBounds(raw: string, min: Option<IntRep>, max: Option<IntRep>) returns (ok: bool)
    requires Clauses.IntText(raw).Some?
    requires (min.Some? ==> Canonical(min.value)) && (max.Some? ==> Canonical(max.value))
    ensures ok <==> InInts(BoundsOf(min, max), Clauses.IntText(raw).value)
  {
    var n := Clauses.IntText(raw).value;
    if FitsInt64(n) {
      var v := n as int64;
      if min.Some? {
        match min.value
        case Small(b) => if v < b { return false; }
        case Big(neg, _) => if !neg { return false; }
      }
      if max.Some? {
        match max.value
        case Small(b) => if v > b { return false; }
        case Big(neg, _) => if neg { return false; }
      }
      return true;
    }
    if min.Some? {
      CompareBigDataExact(n, min.value);
      if CompareBigData(n, min.value) < 0 { return false; }
    }
    if max.Some? {
      CompareBigDataExact(n, max.value);
      if CompareBigData(n, max.value) > 0 { return false; }
    }
    return true;
  }
}
