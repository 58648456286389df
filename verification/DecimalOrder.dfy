/** Comparing decimals without expanding their exponents (internal/compiled/real.go:122-203), and the
  * canonical text of a number (math/decimal/decimal.go:31-51). */
module DecimalOrder {
  import opened Wrappers
  import opened MachineInts
  import opened Decimals
  import opened DecimalLaws
  import opened Atoms

  /** The numbers the arena compares: a non-empty coefficient without leading zeros.  Trailing zeros are
    * allowed, because an integer enters with its digits and exponent zero. */
  predicate Comparable(n: Number) {
    |n.digits| > 0 && AllDigits(n.digits) && (n.digits[0] == '0' ==> |n.digits| == 1)
  }

  function Max(a: int, b: int): int {
    if a > b then a else b
  }

  function DigitAt(ds: string, i: nat): char {
    if i < |ds| then ds[i] else '0'
  }

  /** Digit by digit from position `i`, the shorter coefficient padded with zeros. */
  function CompareDigits(x: string, y: string, i: nat): int
    decreases Max(|x|, |y|) - i
  {
    if i >= Max(|x|, |y|) then 0
    else if DigitAt(x, i) < DigitAt(y, i) then -1
    else if DigitAt(x, i) > DigitAt(y, i) then 1
    else CompareDigits(x, y, i + 1)
  }

  function CompareInts(x: int, y: int): int {
    if x < y then -1 else if x > y then 1 else 0
  }

  function CompareMagnitudes(x: Number, y: Number): int {
    var c := CompareInts(x.exp as int + |x.digits|, y.exp as int + |y.digits|);
    if c != 0 then c else CompareDigits(x.digits, y.digits, 0)
  }

  function CompareNumbers(x: Number, y: Number): int {
    if x.digits == "0" && y.digits == "0" then 0
    else if x.digits == "0" then if y.neg then 1 else -1
    else if y.digits == "0" then if x.neg then -1 else 1
    else if x.neg != y.neg then if x.neg then -1 else 1
    else if x.neg then -CompareMagnitudes(x, y)
    else CompareMagnitudes(x, y)
  }

  /** `compareDecimalMagnitude`: the most significant position first, then the digits. */
  method CompareMagnitude(x: Number, y: Number) returns (c: int)
    ensures c == CompareMagnitudes(x, y)
  {
    c := CompareInts(x.exp as int + |x.digits|, y.exp as int + |y.digits|);
    if c != 0 {
      return;
    }
    var n := Max(|x.digits|, |y.digits|);
    var i := 0;
    while i < n
      invariant 0 <= i <= n
      invariant CompareDigits(x.digits, y.digits, 0) == CompareDigits(x.digits, y.digits, i)
    {
      var (xd, yd) := (DigitAt(x.digits, i), DigitAt(y.digits, i));
      if xd < yd {
        return -1;
      }
      if xd > yd {
        return 1;
      }
      i := i + 1;
    }
    return 0;
  }

  // ----- the comparison has the sign of the exact difference

  function Zeros(n: nat): string {
    seq(n, _ => '0')
  }

  lemma {:induction false} CoefficientPadded(ds: string, n: nat)
    ensures Coefficient(ds + Zeros(n)) == Coefficient(ds) * Tens(n)
  {
    if n == 0 {
      assert ds + Zeros(0) == ds;
    } else {
      CoefficientPadded(ds, n - 1);
      var padded := ds + Zeros(n);
      assert padded[..|padded| - 1] == ds + Zeros(n - 1);
      TensProduct(Coefficient(ds), n);
    }
  }

  lemma TensProduct(c: int, n: nat)
    requires n > 0
    ensures c * Tens(n) == c * Tens(n - 1) * 10
  {
    assert Tens(n) == Tens(n - 1) * 10;
  }

  lemma LargerPrefix(p: int, q: int, t: int, r: int, s: int)
    requires p < q && 0 <= r < t && 0 <= s
    ensures p * t + r < q * t + s
  {
    OneLess(p + 1, t);
    ProductLess(p, q, t);
  }

  /** Two coefficients of equal length, split at one place: prefix * t + rest, with rest below t. */
  lemma SplitBoth(a: string, b: string, i: nat) returns (t: int)
    requires AllDigits(a) && AllDigits(b) && |a| == |b| && i <= |a|
    ensures Coefficient(a) == Coefficient(a[..i]) * t + Coefficient(a[i..])
    ensures Coefficient(b) == Coefficient(b[..i]) * t + Coefficient(b[i..])
    ensures 0 <= Coefficient(a[i..]) < t && 0 <= Coefficient(b[i..]) < t
  {
    t := Tens(|a| - i);
    CoefficientConcat(a[..i], a[i..]);
    CoefficientConcat(b[..i], b[i..]);
    assert a == a[..i] + a[i..] && b == b[..i] + b[i..];
    CoefficientBounds(a[i..]);
    CoefficientBounds(b[i..]);
  }

  /** A larger digit at the first difference outweighs everything after it. */
  lemma FirstDifference(a: string, b: string, i: nat)
    requires AllDigits(a) && AllDigits(b) && |a| == |b| && i < |a|
    requires a[..i] == b[..i] && a[i] < b[i]
    ensures Coefficient(a) < Coefficient(b)
  {
    var t := SplitBoth(a, b, i + 1);
    assert a[..i + 1][..i] == b[..i + 1][..i];
    LargerPrefix(Coefficient(a[..i + 1]), Coefficient(b[..i + 1]), t,
                 Coefficient(a[i + 1..]), Coefficient(b[i + 1..]));
  }

  lemma {:induction false} CompareDigitsSign(a: string, b: string, i: nat)
    requires AllDigits(a) && AllDigits(b) && |a| == |b| && i <= |a|
    requires a[..i] == b[..i]
    ensures CompareDigits(a, b, i) == CompareInts(Coefficient(a), Coefficient(b))
    decreases |a| - i
  {
    if i == |a| {
      assert a == a[..i] == b[..i] == b;
    } else if a[i] < b[i] {
      FirstDifference(a, b, i);
    } else if a[i] > b[i] {
      FirstDifference(b, a, i);
    } else {
      assert a[..i + 1] == a[..i] + [a[i]] && b[..i + 1] == b[..i] + [b[i]];
      CompareDigitsSign(a, b, i + 1);
    }
  }

  /** Padding on the right is what the digit loop does implicitly. */
  lemma {:induction false} CompareDigitsPadded(x: string, y: string, m: nat, n: nat, i: nat)
    requires |x| + m == |y| + n == Max(|x|, |y|)
    ensures CompareDigits(x, y, i) == CompareDigits(x + Zeros(m), y + Zeros(n), i)
    decreases Max(|x|, |y|) - i
  {
    var (a, b) := (x + Zeros(m), y + Zeros(n));
    if i < Max(|x|, |y|) {
      assert DigitAt(x, i) == DigitAt(a, i) && DigitAt(y, i) == DigitAt(b, i);
      CompareDigitsPadded(x, y, m, n, i + 1);
    }
  }

  lemma AlignedSign(x: string, y: string, m: nat, n: nat)
    requires AllDigits(x) && AllDigits(y) && |x| + m == |y| + n == Max(|x|, |y|)
    ensures CompareDigits(x, y, 0) == CompareInts(Coefficient(x) * Tens(m), Coefficient(y) * Tens(n))
  {
    CompareDigitsPadded(x, y, m, n, 0);
    CompareDigitsSign(x + Zeros(m), y + Zeros(n), 0);
    CoefficientPadded(x, m);
    CoefficientPadded(y, n);
  }

  lemma BelowTop(x: string, e: nat)
    requires AllDigits(x)
    ensures Coefficient(x) * Tens(e) < Tens(|x| + e)
  {
    CoefficientBounds(x);
    TensAdd(|x|, e);
    ProductLess(Coefficient(x), Tens(|x|), Tens(e));
  }

  lemma AtLeastTop(y: string, e: nat)
    requires AllDigits(y) && y != [] && y[0] != '0'
    ensures Tens(|y| - 1 + e) <= Coefficient(y) * Tens(e)
  {
    CoefficientBounds(y);
    TensAdd(|y| - 1, e);
    ProductLess(Tens(|y| - 1) - 1, Coefficient(y), Tens(e));
  }

  /** A lower most significant position means a smaller magnitude. */
  lemma LowerTop(x: string, xe: nat, y: string, ye: nat)
    requires AllDigits(x) && AllDigits(y) && y != [] && y[0] != '0'
    requires xe + |x| < ye + |y|
    ensures Coefficient(x) * Tens(xe) < Coefficient(y) * Tens(ye)
  {
    var (low, high) := (Tens(|x| + xe), Tens(|y| - 1 + ye));
    assert low <= high by { TensMonotone(|x| + xe, |y| - 1 + ye); }
    assert Coefficient(x) * Tens(xe) < low by { BelowTop(x, xe); }
    assert high <= Coefficient(y) * Tens(ye) by { AtLeastTop(y, ye); }
  }

  lemma ProductLess(a: int, b: int, t: int)
    requires a < b && t >= 1
    ensures a * t < b * t
    ensures (a + 1) * t <= b * t
  {
  }

  lemma TensMonotone(a: nat, b: nat)
    requires a <= b
    ensures Tens(a) <= Tens(b)
  {
    TensAdd(a, b - a);
    ProductAtLeast(Tens(a), Tens(b - a));
  }

  lemma ProductAtLeast(c: int, t: int)
    requires c >= 0 && t >= 1
    ensures c * t >= c
  {
  }

  lemma MagnitudeSign(x: Number, y: Number)
    requires Comparable(x) && Comparable(y) && x.digits != "0" && y.digits != "0"
    ensures CompareMagnitudes(x, y) ==
      CompareReals(Scaled(false, x.digits, x.exp as int), Scaled(false, y.digits, y.exp as int))
  {
    var (xe, ye) := (x.exp as int, y.exp as int);
    var m := if xe < ye then xe else ye;
    var (cx, cy) := (Coefficient(x.digits) * Tens(xe - m), Coefficient(y.digits) * Tens(ye - m));
    ScaledAligned(false, x.digits, xe, false, y.digits, m);
    ScaledAligned(false, y.digits, ye, false, x.digits, m);
    if xe + |x.digits| < ye + |y.digits| {
      LowerTop(x.digits, xe - m, y.digits, ye - m);
    } else if xe + |x.digits| > ye + |y.digits| {
      LowerTop(y.digits, ye - m, x.digits, xe - m);
    } else {
      AlignedSign(x.digits, y.digits, xe - m, ye - m);
    }
    assert CompareMagnitudes(x, y) == CompareInts(cx, cy);
    if cx < cy { TimesMonotone(cx, cy, Pow10(m)); }
    if cy < cx { TimesMonotone(cy, cx, Pow10(m)); }
  }

  lemma ValueSign(n: Number)
    requires Comparable(n)
    ensures n.digits == "0" ==> Value(n) == 0.0
    ensures n.digits != "0" ==> if n.neg then Value(n) < 0.0 else Value(n) > 0.0
    ensures n.neg ==> Value(n) == -Scaled(false, n.digits, n.exp as int)
  {
    CoefficientBounds(n.digits);
    var (c, p) := (Coefficient(n.digits), Pow10(n.exp as int));
    TimesAdd(c, -c, p);
    if n.digits == "0" {
      assert c == 0;
    } else {
      TimesPositive(c, p);
    }
  }

  /** The comparison has the sign of the exact difference, for every coefficient and exponent. */
  lemma CompareExact(x: Number, y: Number)
    requires Comparable(x) && Comparable(y)
    ensures CompareNumbers(x, y) == CompareReals(Value(x), Value(y))
  {
    ValueSign(x);
    ValueSign(y);
    if x.digits != "0" && y.digits != "0" {
      MagnitudeSign(x, y);
    }
  }

  // ----- text

  function NatText(n: nat): (s: string)
    ensures AllDigits(s) && |s| > 0
    ensures s[0] == '0' ==> n == 0 && s == "0"
  {
    if n < 10 then ['0' + n as char] else NatText(n / 10) + ['0' + (n % 10) as char]
  }

  lemma {:induction false} NatTextValue(n: nat)
    ensures Coefficient(NatText(n)) == n
  {
    if n >= 10 {
      NatTextValue(n / 10);
      var s := NatText(n);
      assert s[..|s| - 1] == NatText(n / 10);
    } else {
      var s := NatText(n);
      assert s[..0] == "";
      assert Coefficient(s) == Coefficient(s[..0]) * 10 + DigitVal(s[0]);
    }
  }

  function ExponentText(e: int): string {
    if e < 0 then "-" + NatText(-e) else NatText(e)
  }

  /** `String`: the digits, then the exponent if it is not zero. */
  function NumberString(n: Number): string {
    if n.digits == "0" then "0"
    else (if n.neg then "-" else "") + n.digits + if n.exp == 0 then "" else "e" + ExponentText(n.exp as int)
  }

  function StringExponent(n: Number): Option<Exponent> {
    var e := n.exp as int;
    if n.digits == "0" || e == 0 then None
    else Some(Exponent('e', if e < 0 then "-" else "", NatText(if e < 0 then -e else e)))
  }

  lemma StringRenders(n: Number)
    requires Canonical(n)
    ensures var t := NumberText(n.neg, n.digits, None, StringExponent(n));
      ValidText(t) && Render(t) == NumberString(n)
    ensures n.digits != "0" ==> ExponentValue(StringExponent(n)) == n.exp as int
  {
    var e := n.exp as int;
    NatTextValue(if e < 0 then -e else e);
    var minus := if n.neg then "-" else "";
    if StringExponent(n).None? {
      assert minus + n.digits + "" + "" == minus + n.digits + "";
      assert n == ZERO ==> minus + n.digits + "" == "0";
    } else {
      StringTail(minus + n.digits, e);
      assert minus + n.digits + "" == minus + n.digits;
    }
  }

  lemma CanonicalAssembles(n: Number, e: Option<Exponent>)
    requires Canonical(n) && (n.digits != "0" ==> ExponentValue(e) == n.exp as int)
    ensures Assemble(n.neg, n.digits, 0, e) == Some(n)
  {
    if n == ZERO {
      assert "0"[1..] == "";
      assert DropLeadingZeros("0") == DropLeadingZeros("");
    }
  }

  lemma StringTail(front: string, e: int)
    ensures front + (['e'] + (if e < 0 then "-" else "") + NatText(if e < 0 then -e else e)) ==
      front + ("e" + ExponentText(e))
  {
    if e >= 0 { assert ['e'] + "" == "e"; }
  }

  /** Parsing the canonical text gives the number back. */
  lemma StringRoundTrip(n: Number)
    requires Canonical(n)
    ensures ParseText(NumberString(n)) == Some(n)
  {
    var t := NumberText(n.neg, n.digits, None, StringExponent(n));
    StringRenders(n);
    RecognizeComplete(t);
    assert t.whole + FracDigits(t) == n.digits;
    CanonicalAssembles(n, t.exp);
  }

  // ----- integers as decimals

  /** `realNumber` of an integer atom: its decimal digits with exponent zero. */
  function IntNumber(i: int): Number {
    Number(i < 0, NatText(if i < 0 then -i else i), 0)
  }

  lemma IntNumberValue(i: int)
    ensures Comparable(IntNumber(i)) && Value(IntNumber(i)) == i as real
  {
    NatTextValue(if i < 0 then -i else i);
    TimesIsProduct(i, 1.0);
  }

  /** `realFromIntAtom`: trailing zeros move into the exponent. */
  function RealFromInt(i: int): Number {
    var digits := NatText(if i < 0 then -i else i);
    var r := DropTrailingZeros(digits);
    if digits == "0" || |digits| - |r| > MAX_INT64 then ZERO
    else Number(i < 0, r, (|digits| - |r|) as int64)
  }

  lemma RealFromIntValue(i: int)
    requires |NatText(if i < 0 then -i else i)| <= MAX_INT64
    ensures Canonical(RealFromInt(i)) && Value(RealFromInt(i)) == Value(IntNumber(i))
  {
    var digits := NatText(if i < 0 then -i else i);
    if digits == "0" {
      ZeroValue();
      ValueSign(IntNumber(i));
    } else {
      DropTrailingKeepsValue(digits);
      var r := DropTrailingZeros(digits);
      ScaleShift(i < 0, r, digits, 0, |digits| - |r|);
    }
  }

  /** The canonical decimal of an integer has its value (as long as its digits can be counted in 64 bits),
    * so an integer and a decimal atom of equal value get the same decimal. */
  lemma RealFromIntExact(i: int, n: Number)
    requires |NatText(if i < 0 then -i else i)| <= MAX_INT64
    requires Canonical(n)
    ensures Value(n) == i as real <==> n == RealFromInt(i)
  {
    IntNumberValue(i);
    RealFromIntValue(i);
    if Value(n) == i as real { CanonicalUnique(RealFromInt(i), n); }
  }
}
