/** `Parse`, over byte arrays that may be the same array (math/decimal/decimal.go:53-300). */
module DecimalParser {
  import opened Wrappers
  import opened MachineInts
  import opened Decimals
  import opened DecimalLaws

  // ----- the exponent, in machine arithmetic

  function AbsExp(v: int64): (r: uint64)
    ensures r as int == if v >= 0 then v as int else -(v as int)
  {
    if v >= 0 then v as uint64 else (-(v + 1)) as uint64 + 1
  }

  const MIN_MAGNITUDE: uint64 := 0x8000_0000_0000_0000

  /** The largest written exponent that keeps the canonical one in range. */
  function ExpLimit(neg: bool, adjust: int64): (limit: uint64)
    ensures forall m: nat :: m <= limit as int <==> FitsInt64(adjust as int + Signed(neg, m))
  {
    if neg then
      if adjust >= 0 then MIN_MAGNITUDE + adjust as uint64 else MIN_MAGNITUDE - AbsExp(adjust)
    else
      if adjust >= 0 then (0x7fff_ffff_ffff_ffff - adjust) as uint64
      else 0x7fff_ffff_ffff_ffff + AbsExp(adjust)
  }

  function NegatedExp(d: uint64): (r: int64)
    requires d <= MIN_MAGNITUDE
    ensures r as int == -(d as int)
  {
    if d == MIN_MAGNITUDE then -0x8000_0000_0000_0000 else -(d as int64)
  }

  /** The canonical exponent; no intermediate step leaves its machine type. */
  function ApplyExp(adjust: int64, neg: bool, magnitude: uint64): (r: int64)
    requires magnitude <= ExpLimit(neg, adjust)
    ensures r as int == adjust as int + Signed(neg, magnitude as int)
  {
    if !neg then
      if adjust >= 0 then adjust + magnitude as int64
      else
        var abs := AbsExp(adjust);
        if magnitude >= abs then (magnitude - abs) as int64 else NegatedExp(abs - magnitude)
    else
      if adjust <= 0 then NegatedExp(AbsExp(adjust) + magnitude)
      else
        var abs := adjust as uint64;
        if magnitude <= abs then (abs - magnitude) as int64 else NegatedExp(magnitude - abs)
  }

  lemma PrefixCoefficient(a: string, b: string)
    requires AllDigits(a) && AllDigits(b)
    ensures Coefficient(a) <= Coefficient(a + b)
  {
    CoefficientConcat(a, b);
    CoefficientBounds(a);
    CoefficientBounds(b);
    ProductAtLeast(Coefficient(a), Tens(|b|));
  }

  lemma ProductAtLeast(c: int, t: int)
    requires c >= 0 && t >= 1
    ensures c * t >= c
  {
  }

  /** Where the digits of an exponent start. */
  function AfterSign(s: string, p: nat): (q: nat)
    requires p <= |s|
    ensures p <= q <= |s|
  {
    if p < |s| && (s[p] == '+' || s[p] == '-') then p + 1 else p
  }

  lemma DigitOverflows(m: int, d: int, limit: int)
    requires 0 <= m && 0 <= d <= 9 && 0 <= limit
    ensures m > limit / 10 || (m == limit / 10 && d > limit % 10) <==> m * 10 + d > limit
  {
  }

  lemma NextDigit(s: string, q: nat, pos: nat)
    requires q <= pos < |s| && AllDigits(s[q..pos]) && IsDigit(s[pos])
    ensures AllDigits(s[q..pos + 1])
    ensures Coefficient(s[q..pos + 1]) == Coefficient(s[q..pos]) * 10 + DigitVal(s[pos])
  {
    assert s[q..pos + 1][..pos - q] == s[q..pos];
  }

  /** Once a prefix of the exponent is too large, so is the whole of it. */
  lemma PrefixTooLarge(s: string, q: nat, pos: nat)
    requires q <= pos <= |s| && AllDigits(s[q..pos])
    ensures DigitsEnd(s, q) >= pos
    ensures Coefficient(s[q..DigitsEnd(s, q)]) >= Coefficient(s[q..pos])
  {
    RunContains(s, q, pos);
    var end := DigitsEnd(s, q);
    assert s[q..end] == s[q..pos] + s[pos..end];
    PrefixCoefficient(s[q..pos], s[pos..end]);
  }

  method ParseExp(raw: array<char>, from: nat, adjust: int64) returns (ok: bool, exp: int64, end: nat)
    requires from <= raw.Length
    ensures var s := raw[..];
      var q := AfterSign(s, from);
      var m := Signed(from < |s| && s[from] == '-', Coefficient(s[q..DigitsEnd(s, q)]));
      && (ok <==> DigitsEnd(s, q) > q && FitsInt64(adjust as int + m))
      && (ok ==> end == DigitsEnd(s, q) && exp as int == adjust as int + m)
  {
    ghost var s := raw[..];
    ok, exp, end := false, 0, from;
    if from == raw.Length {
      return;
    }
    var pos := from;
    var neg := raw[pos] == '-';
    if neg || raw[pos] == '+' {
      pos := pos + 1;
    }
    if pos == raw.Length || !IsDigit(raw[pos]) {
      return;
    }
    ghost var q := pos;
    var limit := ExpLimit(neg, adjust);
    var magnitude, overflow := ReadMagnitude(raw, pos, limit);
    if !overflow {
      ok, exp, end := true, ApplyExp(adjust, neg, magnitude.0), magnitude.1;
    }
  }

  /** Accumulate digits until one would pass the limit; the accumulator never wraps. */
  method ReadMagnitude(raw: array<char>, q: nat, limit: uint64) returns (r: (uint64, nat), overflow: bool)
    requires q < raw.Length && IsDigit(raw[q])
    ensures DigitsEnd(raw[..], q) > q
    ensures Coefficient(raw[q..DigitsEnd(raw[..], q)]) >= 0
    ensures overflow <==> Coefficient(raw[q..DigitsEnd(raw[..], q)]) > limit as int
    ensures !overflow ==> r.1 == DigitsEnd(raw[..], q) && r.0 as int == Coefficient(raw[q..r.1])
  {
    ghost var s := raw[..];
    assert AllDigits(s[q..q + 1]);
    PrefixTooLarge(s, q, q + 1);
    CoefficientBounds(s[q..DigitsEnd(s, q)]);
    assert s[q..DigitsEnd(s, q)] == raw[q..DigitsEnd(raw[..], q)];
    var pos, magnitude: uint64 := q, 0;
    while pos < raw.Length && IsDigit(raw[pos])
      invariant q <= pos <= raw.Length
      invariant AllDigits(s[q..pos])
      invariant magnitude <= limit && magnitude as int == Coefficient(s[q..pos])
    {
      var digit := DigitVal(raw[pos]) as uint64;
      NextDigit(s, q, pos);
      DigitOverflows(magnitude as int, digit as int, limit as int);
      if magnitude > limit / 10 || (magnitude == limit / 10 && digit > limit % 10) {
        PrefixTooLarge(s, q, pos + 1);
        return (magnitude, pos), true;
      }
      magnitude := magnitude * 10 + digit;
      pos := pos + 1;
    }
    DigitsEndIs(s, q, pos);
    assert s[q..pos] == raw[q..pos];
    return (magnitude, pos), false;
  }

  /** A run of digits is part of the maximal run. */
  lemma {:induction false} RunContains(s: string, i: nat, j: nat)
    requires i <= j <= |s| && AllDigits(s[i..j])
    ensures DigitsEnd(s, i) >= j
    ensures AllDigits(s[j..DigitsEnd(s, i)])
    decreases j - i
  {
    if i < j {
      assert s[i] == s[i..j][0];
      assert s[i + 1..j] == s[i..j][1..];
      RunContains(s, i + 1, j);
    }
  }

  /** Past zeros the exponent is only checked for form. */
  method ScanExp(raw: array<char>, from: nat) returns (ok: bool, end: nat)
    requires from <= raw.Length
    ensures var q := AfterSign(raw[..], from);
      && (ok <==> DigitsEnd(raw[..], q) > q)
      && (ok ==> end == DigitsEnd(raw[..], q))
  {
    ghost var s := raw[..];
    ok, end := false, from;
    if from == raw.Length {
      return;
    }
    var pos := from;
    if raw[pos] == '+' || raw[pos] == '-' {
      pos := pos + 1;
    }
    if pos == raw.Length || !IsDigit(raw[pos]) {
      return;
    }
    ghost var q := pos;
    while pos < raw.Length && IsDigit(raw[pos])
      invariant q <= pos <= raw.Length
      invariant AllDigits(s[q..pos])
    {
      pos := pos + 1;
    }
    DigitsEndIs(s, q, pos);
    ok, end := true, pos;
  }

  // ----- the coefficient buffer

  /** Go's append of one byte: in place while there is room, else into a larger array. */
  method Append(b: array<char>, k: nat, c: char) returns (r: array<char>)
    requires k <= b.Length
    modifies b
    ensures k < r.Length && r[..k + 1] == old(b[..k]) + [c]
    ensures if k < b.Length then r == b else fresh(r)
    ensures k < b.Length ==> b[k + 1..] == old(b[k + 1..])
    ensures k == b.Length ==> b[..] == old(b[..])
  {
    if k < b.Length {
      r := b;
    } else {
      r := new char[2 * b.Length + 1];
      var i := 0;
      while i < k
        invariant 0 <= i <= k
        invariant r[..i] == b[..i] && b[..] == old(b[..])
      {
        r[i] := b[i];
        i := i + 1;
      }
    }
    r[k] := c;
  }

  /** Move `b[start..k]` down to the front. */
  method ShiftDown(b: array<char>, start: nat, k: nat)
    requires start <= k <= b.Length
    modifies b
    ensures b[..k - start] == old(b[start..k])
    ensures b[k..] == old(b[k..])
  {
    ghost var s := b[..];
    var i := 0;
    while i < k - start
      invariant 0 <= i <= k - start
      invariant forall j :: 0 <= j < i ==> b[j] == s[start + j]
      invariant forall j :: i <= j < b.Length ==> b[j] == s[j]
    {
      b[i] := b[start + i];
      i := i + 1;
    }
  }

  /** The length without trailing zeros. */
  method TrimTrailing(b: array<char>, k: nat) returns (n: nat)
    requires 0 < k <= b.Length
    ensures 0 < n <= k && b[..n] == DropTrailingZeros(b[..k])
  {
    n := k;
    while n > 1 && b[n - 1] == '0'
      invariant 0 < n <= k
      invariant DropTrailingZeros(b[..n]) == DropTrailingZeros(b[..k])
    {
      assert b[..n][..n - 1] == b[..n - 1];
      n := n - 1;
    }
  }

  /** Drop leading zeros by moving the digits down, then trailing zeros; all zeros become "0".
    * Nothing at or beyond the old end of the digits is touched. */
  method CanonizeBuffer(b: array<char>, k: nat) returns (n: nat, zero: bool, trailing: nat)
    requires 0 < k <= b.Length
    modifies b
    ensures var lead := DropLeadingZeros(old(b[..k]));
      && (zero <==> lead == [])
      && 0 < n <= k
      && b[..n] == (if zero then "0" else DropTrailingZeros(lead))
      && (!zero ==> trailing == |lead| - n)
    ensures b[k..] == old(b[k..])
  {
    ghost var s := b[..k];
    var start := 0;
    while start < k && b[start] == '0'
      invariant 0 <= start <= k
      invariant DropLeadingZeros(s) == DropLeadingZeros(s[start..])
    {
      assert s[start..][1..] == s[start + 1..];
      start := start + 1;
    }
    assert DropLeadingZeros(s[start..]) == s[start..];
    zero, trailing := start == k, 0;
    if zero {
      n := 1;
      b[0] := '0';
    } else {
      assert s[start..] == b[start..k];
      ShiftDown(b, start, k);
      n := TrimTrailing(b, k - start);
      trailing := k - start - n;
    }
  }

  /** Canonicalising leaves the unread part of the text alone, even when the buffer is the text. */
  method CanonizeUnderText(raw: array<char>, pos: nat, b: array<char>, k: nat, ghost s: string)
    returns (n: nat, zero: bool, trailing: nat)
    requires 0 < k <= b.Length && pos <= raw.Length == |s|
    requires raw[pos..] == s[pos..] && (b == raw ==> k <= pos)
    modifies b
    ensures var lead := DropLeadingZeros(old(b[..k]));
      && (zero <==> lead == [])
      && 0 < n <= b.Length
      && b[..n] == (if zero then "0" else DropTrailingZeros(lead))
      && (!zero ==> trailing == |lead| - n)
    ensures raw[pos..] == s[pos..]
  {
    n, zero, trailing := CanonizeBuffer(b, k);
    assert raw == b ==> raw[pos..] == raw[k..][pos - k..] && old(raw[pos..]) == old(raw[k..])[pos - k..];
  }

  /** Copy a run of digits behind the buffer's contents.  When the buffer is the text itself the write
    * index stays at or below the read index, so unread text survives. */
  method TakeDigits(raw: array<char>, from: nat, buf: array<char>, used: nat, ghost s: string)
    returns (pos: nat, b: array<char>, k: nat)
    requires raw.Length == |s| && from <= raw.Length && used <= buf.Length
    requires raw[from..] == s[from..]
    requires buf == raw ==> used <= from
    modifies buf
    ensures pos == DigitsEnd(s, from) && k == used + (pos - from) && k <= b.Length
    ensures b[..k] == old(buf[..used]) + s[from..pos]
    ensures raw[pos..] == s[pos..]
    ensures b == raw ==> k <= pos
    ensures b == buf || fresh(b)
    ensures buf.Length - used >= raw.Length - from ==> b == buf
  {
    pos, b, k := from, buf, used;
    while pos < raw.Length && IsDigit(raw[pos])
      invariant from <= pos <= raw.Length && AllDigits(s[from..pos])
      invariant k == used + (pos - from) && k <= b.Length
      invariant b[..k] == old(buf[..used]) + s[from..pos]
      invariant raw[pos..] == s[pos..]
      invariant b == raw ==> k <= pos
      invariant b == buf || fresh(b)
      invariant buf.Length - used >= raw.Length - from ==> b == buf
    {
      assert raw[pos] == raw[pos..][0] == s[pos];
      assert s[from..pos + 1] == s[from..pos] + [s[pos]];
      assert s[pos + 1..] == s[pos..][1..];
      b := Append(b, k, raw[pos]);
      k, pos := k + 1, pos + 1;
    }
    if pos < |s| { assert raw[pos] == raw[pos..][0] == s[pos..][0]; }
    DigitsEndIs(s, from, pos);
  }

  // ----- the whole number

  lemma {:induction false} SameSuffix(a: string, b: string, i: nat)
    requires |a| == |b| && i <= |a| && a[i..] == b[i..]
    ensures DigitsEnd(a, i) == DigitsEnd(b, i)
    ensures a[i..DigitsEnd(a, i)] == b[i..DigitsEnd(b, i)]
  {
    var j := DigitsEnd(b, i);
    assert a[i..j] == a[i..][..j - i] == b[i..j];
    if j < |a| { assert a[j] == a[i..][j - i] == b[j]; }
    DigitsEndIs(a, i, j);
  }

  /** The sign, the integer digits and the fraction of a text, up to the exponent. */
  datatype Mantissa = Mantissa(minus: bool, wholeEnd: nat, end: nat)

  function ScanMantissa(s: string): (m: Option<Mantissa>)
    ensures m.Some? ==> (if m.value.minus then 1 else 0) < m.value.wholeEnd <= m.value.end <= |s|
  {
    var start := if s != [] && s[0] == '-' then 1 else 0;
    var w := DigitsEnd(s, start);
    if w == start || (s[start] == '0' && w > start + 1) then None
    else if w < |s| && s[w] == '.' then
      var f := DigitsEnd(s, w + 1);
      if f == w + 1 then None else Some(Mantissa(start == 1, w, f))
    else Some(Mantissa(start == 1, w, w))
  }

  function MantissaDigits(s: string, m: Mantissa): string
    requires (if m.minus then 1 else 0) <= m.wholeEnd <= m.end <= |s|
  {
    s[if m.minus then 1 else 0..m.wholeEnd] + (if m.end > m.wholeEnd then s[m.wholeEnd + 1..m.end] else "")
  }

  function FracLength(m: Mantissa): nat {
    if m.end > m.wholeEnd then m.end - m.wholeEnd - 1 else 0
  }

  lemma MantissaRecognized(s: string)
    ensures ScanMantissa(s).None? ==> Recognize(s).None?
    ensures ScanMantissa(s).Some? ==>
      var m := ScanMantissa(s).value;
      var e := RecognizeExponent(s, m.end);
      && (e.None? ==> Recognize(s).None?)
      && (e.Some? ==>
            && Recognize(s).Some?
            && Recognize(s).value.minus == m.minus
            && Recognize(s).value.exp == e.value
            && Recognize(s).value.whole + FracDigits(Recognize(s).value) == MantissaDigits(s, m)
            && |FracDigits(Recognize(s).value)| == FracLength(m))
  {
  }

  /** `ParseText`, with the two halves of the text named. */
  lemma ParseTextSplits(s: string)
    ensures ParseText(s) ==
      if ScanMantissa(s).None? then None
      else
        var m := ScanMantissa(s).value;
        var e := RecognizeExponent(s, m.end);
        if e.None? then None else Assemble(m.minus, MantissaDigits(s, m), FracLength(m), e.value)
  {
    MantissaRecognized(s);
  }

  /** The integer digits; a leading zero must stand alone. */
  method ReadWhole(raw: array<char>, start: nat, buf: array<char>, ghost s: string)
    returns (ok: bool, pos: nat, b: array<char>, k: nat)
    requires raw.Length == |s| && start < raw.Length && raw[..] == s && IsDigit(s[start])
    modifies buf
    ensures ok <==> !(s[start] == '0' && DigitsEnd(s, start) > start + 1)
    ensures ok ==> pos == DigitsEnd(s, start) && k == pos - start && k <= b.Length
    ensures ok ==> b[..k] == s[start..pos] && raw[pos..] == s[pos..]
    ensures b == raw ==> k <= pos
    ensures b == buf || fresh(b)
    ensures buf.Length >= raw.Length ==> b == buf
  {
    ok := true;
    assert raw[start..] == s[start..];
    if raw[start] == '0' {
      b := Append(buf, 0, '0');
      k, pos := 1, start + 1;
      assert raw[pos..] == s[pos..];
      assert AllDigits(s[start..pos]);
      if pos < raw.Length { assert raw[pos] == raw[pos..][0] == s[pos]; }
      if pos < raw.Length && IsDigit(raw[pos]) {
        assert AllDigits(s[start..pos + 1]);
        RunContains(s, start, pos + 1);
        ok := false;
      } else {
        DigitsEndIs(s, start, pos);
      }
    } else {
      pos, b, k := TakeDigits(raw, start, buf, 0, s);
    }
  }

  /** The fraction, if there is one; it must have a digit. */
  method ReadFraction(raw: array<char>, w: nat, buf: array<char>, used: nat, ghost s: string)
    returns (ok: bool, pos: nat, fracLen: nat, b: array<char>, k: nat)
    requires raw.Length == |s| && w <= raw.Length && used <= buf.Length
    requires raw[w..] == s[w..] && (buf == raw ==> used <= w)
    modifies buf
    ensures var dot := w < |s| && s[w] == '.';
      && (ok <==> (dot ==> DigitsEnd(s, w + 1) > w + 1))
      && (ok ==>
            && pos == (if dot then DigitsEnd(s, w + 1) else w)
            && fracLen == (if dot then pos - w - 1 else 0)
            && used <= k <= b.Length
            && b[..k] == old(buf[..used]) + (if dot then s[w + 1..pos] else "")
            && raw[pos..] == s[pos..])
    ensures b == raw ==> k <= pos
    ensures b == buf || fresh(b)
    ensures buf.Length - used >= raw.Length - w ==> b == buf
  {
    ok, pos, fracLen, b, k := true, w, 0, buf, used;
    if pos < raw.Length { assert raw[pos] == raw[pos..][0] == s[pos]; }
    if pos < raw.Length && raw[pos] == '.' {
      pos := pos + 1;
      assert raw[pos..] == raw[w..][1..] == s[w..][1..];
      var fracStart := pos;
      pos, b, k := TakeDigits(raw, pos, b, k, s);
      fracLen := pos - fracStart;
      ok := fracLen != 0;
    }
  }

  /** Read the mantissa into the buffer. */
  method ReadMantissa(raw: array<char>, buf: array<char>)
    returns (ok: bool, neg: bool, pos: nat, fracLen: nat, b: array<char>, k: nat)
    modifies buf
    ensures var s := old(raw[..]);
      && (ok <==> ScanMantissa(s).Some?)
      && (ok ==>
            var m := ScanMantissa(s).value;
            && neg == m.minus && pos == m.end && fracLen == FracLength(m)
            && 0 < k <= b.Length && b[..k] == MantissaDigits(s, m)
            && raw[pos..] == s[pos..]
            && (b == raw ==> k <= pos))
    ensures b == buf || fresh(b)
    ensures buf.Length >= raw.Length ==> b == buf
  {
    ghost var s := raw[..];
    ok, neg, pos, fracLen, b, k := false, false, 0, 0, buf, 0;
    if raw.Length == 0 {
      return;
    }
    if raw[0] == '-' {
      neg, pos := true, 1;
      if pos == raw.Length {
        return;
      }
    }
    if !IsDigit(raw[pos]) {
      return;
    }
    ok, pos, b, k := ReadWhole(raw, pos, b, s);
    if !ok {
      return;
    }
    ok, pos, fracLen, b, k := ReadFraction(raw, pos, b, k, s);
  }

  /** What follows the mantissa: nothing, or an exponent that ends the text.  For a zero coefficient its
    * size is not looked at. */
  method ReadExponent(raw: array<char>, from: nat, zero: bool, adjust: int64, ghost s: string)
    returns (ok: bool, exp: int64)
    requires raw.Length == |s| && from <= raw.Length && raw[from..] == s[from..]
    ensures var e := RecognizeExponent(s, from);
      && (ok <==> e.Some? && (zero || FitsInt64(adjust as int + ExponentValue(e.value))))
      && (ok && !zero ==> exp as int == adjust as int + ExponentValue(e.value))
  {
    ok, exp := true, adjust;
    if from == raw.Length {
      return;
    }
    assert raw[from] == raw[from..][0] == s[from];
    if raw[from] != 'e' && raw[from] != 'E' {
      return false, adjust;
    }
    ExponentInSuffix(raw[..], s, from);
    var pos;
    if zero {
      ok, pos := ScanExp(raw, from + 1);
    } else {
      ok, exp, pos := ParseExp(raw, from + 1, adjust);
    }
    ok := ok && pos == raw.Length;
  }

  /** Canonicalise the coefficient before the exponent, so that its range is checked in one place. */
  method ParseTail(raw: array<char>, pos: nat, b: array<char>, k: nat, neg: bool, fracLen: nat, ghost s: string)
    returns (r: Option<Number>, n: nat)
    requires 0 < k <= b.Length && pos <= raw.Length == |s|
    requires k <= MAX_INT64 && fracLen <= MAX_INT64
    requires raw[pos..] == s[pos..] && (b == raw ==> k <= pos)
    modifies b
    ensures var e := RecognizeExponent(s, pos);
      r == if e.None? then None else Assemble(neg, old(b[..k]), fracLen, e.value)
    ensures r.Some? ==> n <= b.Length && b[..n] == r.value.digits
  {
    r := None;
    var zero, trailing;
    n, zero, trailing := CanonizeUnderText(raw, pos, b, k, s);
    var adjust: int64 := 0;
    if !zero {
      adjust := trailing as int64 - fracLen as int64;
    }
    var ok, exp := ReadExponent(raw, pos, zero, adjust, s);
    if ok {
      r := Some(if zero then Number(false, b[..n], 0) else Number(neg, b[..n], exp));
    }
  }

  /** Parse a decimal number.  `buf` may be `raw` itself (the destructive, allocation-free call) or any
    * other array; the answer is the same, and `out[..n]` holds the digits. */
  method Parse(raw: array<char>, buf: array<char>) returns (r: Option<Number>, out: array<char>, n: nat)
    requires raw.Length <= MAX_INT64
    modifies buf
    ensures r == ParseText(old(raw[..]))
    ensures r.Some? ==> n <= out.Length && out[..n] == r.value.digits
    ensures out == buf || fresh(out)
    ensures buf.Length >= raw.Length ==> out == buf
  {
    ghost var s := raw[..];
    ParseTextSplits(s);
    var ok, neg, pos, fracLen, b, k := ReadMantissa(raw, buf);
    r, out, n := None, b, 0;
    if ok {
      MantissaFits(s, ScanMantissa(s).value);
      r, n := ParseTail(raw, pos, b, k, neg, fracLen, s);
    }
  }

  lemma MantissaFits(s: string, m: Mantissa)
    requires ScanMantissa(s) == Some(m)
    ensures |MantissaDigits(s, m)| <= |s| && 0 <= FracLength(m) <= |s|
  {
  }

  /** The exponent is read from bytes the buffer has not reached. */
  lemma ExponentInSuffix(now: string, s: string, f: nat)
    requires |now| == |s| && f < |s| && now[f..] == s[f..] && (s[f] == 'e' || s[f] == 'E')
    ensures var q := AfterSign(s, f + 1);
      && AfterSign(now, f + 1) == q
      && DigitsEnd(now, q) == DigitsEnd(s, q)
      && now[q..DigitsEnd(s, q)] == s[q..DigitsEnd(s, q)]
      && (f + 1 < |s| ==> now[f + 1] == s[f + 1])
    ensures var q := AfterSign(s, f + 1);
      var e := RecognizeExponent(s, f);
      && (e.Some? <==> DigitsEnd(s, q) > q && DigitsEnd(s, q) == |s|)
      && (e.Some? ==>
            && e.value.Some?
            && (e.value.value.sign == "-" <==> f + 1 < |s| && s[f + 1] == '-')
            && e.value.value.digits == s[q..DigitsEnd(s, q)])
  {
    var q := AfterSign(s, f + 1);
    forall i | f <= i < |s| ensures now[i] == s[i] {
      assert now[i] == now[f..][i - f] == s[i];
    }
    assert now[q..] == s[q..];
    SameSuffix(now, s, q);
    if q == f + 2 { assert s[f + 1..q] == [s[f + 1]]; }
  }
}
