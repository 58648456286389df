/** Exact decimal numbers (math/decimal/decimal.go) and the grammar of JSON numbers
  * (section 6 of RFC 8259). */
module Decimals {
  import opened Wrappers
  import opened MachineInts

  // ----- digits

  predicate IsDigit(c: char) {
    '0' <= c <= '9'
  }

  predicate AllDigits(s: string) {
    forall i :: 0 <= i < |s| ==> IsDigit(s[i])
  }

  function DigitVal(c: char): int {
    c as int - '0' as int
  }

  /** The natural number a digit string writes. */
  function Coefficient(ds: string): int {
    if ds == [] then 0
    else Coefficient(ds[..|ds| - 1]) * 10 + DigitVal(ds[|ds| - 1])
  }

  function Tens(n: nat): (p: nat)
    ensures p >= 1
  {
    if n == 0 then 1 else 10 * Tens(n - 1)
  }

  /** Ten to an integer power. */
  function Pow10(e: int): (p: real)
    ensures p > 0.0
    decreases if e < 0 then -e else e
  {
    if e == 0 then 1.0 else if e > 0 then 10.0 * Pow10(e - 1) else Pow10(e + 1) / 10.0
  }

  // ----- numbers

  /** digits * 10^exp, negated if `neg`. */
  datatype Number = Number(neg: bool, digits: string, exp: int64)

  function Signed(neg: bool, c: int): int {
    if neg then -c else c
  }

  /** The product of an integer and a real, by repeated addition: `TimesIsProduct` in DecimalLaws. */
  function Times(n: int, p: real): real
    decreases if n < 0 then -n else n
  {
    if n == 0 then 0.0 else if n > 0 then Times(n - 1, p) + p else Times(n + 1, p) - p
  }

  function Scaled(neg: bool, digits: string, exp: int): real {
    Times(Signed(neg, Coefficient(digits)), Pow10(exp))
  }

  function Value(n: Number): real {
    Scaled(n.neg, n.digits, n.exp as int)
  }

  const ZERO := Number(false, "0", 0)

  /** No leading and no trailing zero digits; zero itself is the one number written "0". */
  predicate Canonical(n: Number) {
    n == ZERO ||
    (|n.digits| > 0 && AllDigits(n.digits) && n.digits[0] != '0' && n.digits[|n.digits| - 1] != '0')
  }

  /** Whether a value has a canonical number, that is, whether its exponent fits. */
  ghost predicate Representable(v: real) {
    exists n: Number :: Canonical(n) && Value(n) == v
  }

  // ----- the grammar

  datatype Exponent = Exponent(letter: char, sign: string, digits: string)

  datatype NumberText = NumberText(minus: bool, whole: string, frac: Option<string>, exp: Option<Exponent>)

  predicate ValidExponent(e: Exponent) {
    && (e.letter == 'e' || e.letter == 'E')
    && (e.sign == "" || e.sign == "+" || e.sign == "-")
    && |e.digits| > 0 && AllDigits(e.digits)
  }

  predicate ValidText(t: NumberText) {
    && |t.whole| > 0 && AllDigits(t.whole) && (t.whole[0] == '0' ==> |t.whole| == 1)
    && (t.frac.Some? ==> |t.frac.value| > 0 && AllDigits(t.frac.value))
    && (t.exp.Some? ==> ValidExponent(t.exp.value))
  }

  function RenderExponent(e: Option<Exponent>): string {
    if e.None? then "" else [e.value.letter] + e.value.sign + e.value.digits
  }

  function RenderFrac(f: Option<string>): string {
    if f.None? then "" else "." + f.value
  }

  function Render(t: NumberText): string {
    (if t.minus then "-" else "") + t.whole + RenderFrac(t.frac) + RenderExponent(t.exp)
  }

  function FracDigits(t: NumberText): string {
    if t.frac.Some? then t.frac.value else ""
  }

  function ExponentValue(e: Option<Exponent>): int {
    if e.None? then 0 else Signed(e.value.sign == "-", Coefficient(e.value.digits))
  }

  /** The number a text writes. */
  function TextValue(t: NumberText): real {
    Scaled(t.minus, t.whole + FracDigits(t), ExponentValue(t.exp) - |FracDigits(t)|)
  }

  // ----- recognition

  /** The end of the run of digits that starts at `i`. */
  function DigitsEnd(s: string, i: nat): (j: nat)
    requires i <= |s|
    ensures i <= j <= |s|
    ensures AllDigits(s[i..j])
    ensures j < |s| ==> !IsDigit(s[j])
    decreases |s| - i
  {
    if i < |s| && IsDigit(s[i]) then
      var j := DigitsEnd(s, i + 1);
      assert s[i..j] == [s[i]] + s[i + 1..j];
      j
    else i
  }

  /** The rest of a number from the exponent on; it must end the text. */
  function RecognizeExponent(s: string, p: nat): Option<Option<Exponent>>
    requires p <= |s|
  {
    if p == |s| then Some(None)
    else if s[p] != 'e' && s[p] != 'E' then None
    else
      var q := if p + 1 < |s| && (s[p + 1] == '+' || s[p + 1] == '-') then p + 2 else p + 1;
      var end := DigitsEnd(s, q);
      if end == q || end != |s| then None
      else Some(Some(Exponent(s[p], s[p + 1..q], s[q..])))
  }

  function Recognize(s: string): Option<NumberText> {
    var start := if s != [] && s[0] == '-' then 1 else 0;
    var w := DigitsEnd(s, start);
    if w == start || (s[start] == '0' && w > start + 1) then None
    else
      var frac := if w < |s| && s[w] == '.' then w + 1 else w;
      var f := if frac > w then DigitsEnd(s, frac) else w;
      if frac > w && f == frac then None
      else
        var e := RecognizeExponent(s, f);
        if e.None? then None
        else Some(NumberText(start == 1, s[start..w], if frac > w then Some(s[frac..f]) else None, e.value))
  }

  // ----- canonical form

  function DropLeadingZeros(ds: string): (r: string)
    ensures |r| <= |ds|
  {
    if ds != [] && ds[0] == '0' then DropLeadingZeros(ds[1..]) else ds
  }

  /** Trailing zeros go as long as another digit remains. */
  function DropTrailingZeros(ds: string): (r: string)
    ensures |r| <= |ds|
    ensures ds != [] ==> r != []
  {
    if |ds| > 1 && ds[|ds| - 1] == '0' then DropTrailingZeros(ds[..|ds| - 1]) else ds
  }

  /** The canonical number of a sign, a coefficient of which the last `frac` digits are a fraction, and
    * an exponent, unless the canonical exponent is out of range. */
  function Assemble(minus: bool, all: string, frac: nat, e: Option<Exponent>): Option<Number> {
    var lead := DropLeadingZeros(all);
    if lead == [] then Some(ZERO)
    else
      var digits := DropTrailingZeros(lead);
      var exp := ExponentValue(e) + (|lead| - |digits|) - frac;
      if FitsInt64(exp) then Some(Number(minus, digits, exp as int64)) else None
  }

  function Canonize(t: NumberText): Option<Number> {
    Assemble(t.minus, t.whole + FracDigits(t), |FracDigits(t)|, t.exp)
  }

  /** What `Parse` decides about a text. */
  function ParseText(s: string): Option<Number> {
    var t := Recognize(s);
    if t.None? then None else Canonize(t.value)
  }
}
