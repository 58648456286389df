/** What parsing a decimal guarantees: acceptance, exact value, canonical form, uniqueness. */
module DecimalLaws {
  import opened Wrappers
  import opened MachineInts
  import opened Decimals

  // ----- products and powers

  lemma {:induction false} TimesIsProduct(n: int, p: real)
    ensures Times(n, p) == n as real * p
    decreases if n < 0 then -n else n
  {
    if n > 0 {
      TimesIsProduct(n - 1, p);
    } else if n < 0 {
      TimesIsProduct(n + 1, p);
    }
  }

  lemma TimesStep(n: int, p: real)
    ensures Times(n + 1, p) == Times(n, p) + p
  {
  }

  lemma {:induction false} TimesAdd(m: int, n: int, p: real)
    ensures Times(m + n, p) == Times(m, p) + Times(n, p)
    decreases if n < 0 then -n else n
  {
    if n > 0 {
      TimesAdd(m, n - 1, p);
      TimesStep(m + n - 1, p);
    } else if n < 0 {
      TimesAdd(m, n + 1, p);
      TimesStep(m + n, p);
    }
  }

  lemma OneLess(m: int, n: int)
    ensures m * n == (m - 1) * n + n
  {
  }

  lemma {:induction false} TimesTimes(m: int, n: int, p: real)
    ensures Times(m * n, p) == Times(m, Times(n, p))
    decreases if m < 0 then -m else m
  {
    if m > 0 {
      TimesTimes(m - 1, n, p);
      OneLess(m, n);
      TimesAdd((m - 1) * n, n, p);
    } else if m < 0 {
      TimesTimes(m + 1, n, p);
      OneLess(m + 1, n);
      TimesAdd(m * n, n, p);
    }
  }

  lemma {:induction false} TimesPositive(n: int, p: real)
    requires p > 0.0 && n > 0
    ensures Times(n, p) > 0.0
  {
    if n > 1 { TimesPositive(n - 1, p); }
  }

  lemma TimesMonotone(m: int, n: int, p: real)
    requires p > 0.0 && m < n
    ensures Times(m, p) < Times(n, p)
  {
    TimesPositive(n - m, p);
    TimesAdd(m, n - m, p);
  }

  lemma TimesInjective(m: int, n: int, p: real)
    requires p > 0.0 && Times(m, p) == Times(n, p)
    ensures m == n
  {
    if m < n { TimesMonotone(m, n, p); }
    if n < m { TimesMonotone(n, m, p); }
  }

  lemma {:induction false} TensAdd(a: nat, b: nat)
    ensures Tens(a + b) == Tens(a) * Tens(b)
  {
    if a > 0 {
      TensAdd(a - 1, b);
      assert Tens(a + b) == 10 * Tens(a + b - 1);
    }
  }

  lemma TimesTen(p: real)
    ensures Times(10, p) == 10.0 * p
  {
    TimesIsProduct(10, p);
  }

  lemma {:induction false} Pow10Shift(e: int, n: nat)
    ensures Pow10(e + n) == Times(Tens(n), Pow10(e))
  {
    if n > 0 {
      Pow10Shift(e, n - 1);
      var q := Pow10(e + n - 1);
      assert Pow10(e + n) == 10.0 * q;
      TimesTen(q);
      TimesTimes(10, Tens(n - 1), Pow10(e));
    }
  }

  // ----- coefficients

  lemma {:induction false} CoefficientConcat(a: string, b: string)
    ensures Coefficient(a + b) == Coefficient(a) * Tens(|b|) + Coefficient(b)
  {
    if b == [] {
      assert a + b == a;
    } else {
      var (init, last) := (b[..|b| - 1], b[|b| - 1]);
      CoefficientConcat(a, init);
      assert (a + b)[..|a + b| - 1] == a + init;
      var (ca, t) := (Coefficient(a), Tens(|init|));
      assert Tens(|b|) == 10 * t;
      assert ca * t * 10 == ca * (10 * t);
    }
  }

  lemma {:induction false} CoefficientBounds(ds: string)
    requires AllDigits(ds)
    ensures 0 <= Coefficient(ds) < Tens(|ds|)
    ensures ds != [] && ds[0] != '0' ==> Coefficient(ds) >= Tens(|ds| - 1)
  {
    if ds != [] {
      var init := ds[..|ds| - 1];
      CoefficientBounds(init);
    }
  }

  lemma SignedProduct(neg: bool, c: int, t: int)
    ensures Signed(neg, c * t) == Signed(neg, c) * t
  {
  }

  /** Moving zeros between the digits and the exponent keeps the value. */
  lemma ScaleShift(neg: bool, ds: string, es: string, e: int, n: nat)
    requires Coefficient(es) == Coefficient(ds) * Tens(n)
    ensures Scaled(neg, ds, e + n) == Scaled(neg, es, e)
  {
    Pow10Shift(e, n);
    SignedProduct(neg, Coefficient(ds), Tens(n));
    TimesTimes(Signed(neg, Coefficient(ds)), Tens(n), Pow10(e));
  }

  // ----- the grammar is recognised exactly

  lemma {:induction false} DigitsEndIs(s: string, i: nat, j: nat)
    requires i <= j <= |s| && AllDigits(s[i..j]) && (j < |s| ==> !IsDigit(s[j]))
    ensures DigitsEnd(s, i) == j
    decreases j - i
  {
    if i < j {
      assert s[i] == s[i..j][0];
      assert s[i + 1..j] == s[i..j][1..];
      DigitsEndIs(s, i + 1, j);
    }
  }

  lemma ExponentSound(s: string, p: nat)
    requires p <= |s| && RecognizeExponent(s, p).Some?
    ensures var e := RecognizeExponent(s, p).value;
      (e.Some? ==> ValidExponent(e.value)) && RenderExponent(e) == s[p..]
  {
    if p < |s| {
      var q := if p + 1 < |s| && (s[p + 1] == '+' || s[p + 1] == '-') then p + 2 else p + 1;
      assert s[p..] == [s[p]] + s[p + 1..q] + s[q..];
      assert q == p + 2 ==> s[p + 1..q] == [s[p + 1]];
      assert s[q..DigitsEnd(s, q)] == s[q..];
    }
  }

  lemma ExponentParts(x: Exponent, s: string, p: nat)
    requires p < |s| && s[p..] == [x.letter] + x.sign + x.digits && ValidExponent(x)
    ensures var q := p + 1 + |x.sign|;
      && q < |s| && s[p] == x.letter && s[p + 1..q] == x.sign && s[q..] == x.digits
      && (if x.sign == "" then IsDigit(s[p + 1]) else s[p + 1] == x.sign[0])
  {
    var q := p + 1 + |x.sign|;
    assert s[p + 1..] == s[p..][1..] == x.sign + x.digits;
    assert s[p + 1..q] == s[p + 1..][..|x.sign|];
    assert s[q..] == s[p + 1..][|x.sign|..];
    assert s[p + 1] == s[p + 1..][0];
  }

  lemma ExponentComplete(e: Option<Exponent>, s: string, p: nat)
    requires p <= |s| && s[p..] == RenderExponent(e) && (e.Some? ==> ValidExponent(e.value))
    ensures RecognizeExponent(s, p) == Some(e)
  {
    if e.Some? {
      var x := e.value;
      var q := p + 1 + |x.sign|;
      ExponentParts(x, s, p);
      assert s[q..|s|] == s[q..];
      DigitsEndIs(s, q, |s|);
    }
  }

  lemma RecognizeSound(s: string)
    requires Recognize(s).Some?
    ensures ValidText(Recognize(s).value) && Render(Recognize(s).value) == s
  {
    var t := Recognize(s).value;
    var start := if s != [] && s[0] == '-' then 1 else 0;
    var w := DigitsEnd(s, start);
    var frac := if w < |s| && s[w] == '.' then w + 1 else w;
    var f := if frac > w then DigitsEnd(s, frac) else w;
    ExponentSound(s, f);
    assert t.whole == s[start..w] && t.whole[0] == s[start];
    PartsRender(t, s, start, w, f);
  }

  lemma PartsRender(t: NumberText, s: string, start: nat, w: nat, f: nat)
    requires start <= w <= f <= |s| && start == (if t.minus then 1 else 0)
    requires t.minus ==> s[0] == '-'
    requires t.whole == s[start..w] && RenderExponent(t.exp) == s[f..]
    requires if t.frac.None? then f == w else w < f && s[w] == '.' && t.frac.value == s[w + 1..f]
    ensures Render(t) == s
  {
    assert t.minus ==> s[..start] == "-";
    assert t.frac.Some? ==> s[w..f] == "." + s[w + 1..f];
    FourParts(s, start, w, f);
  }

  lemma FourParts(s: string, a: nat, b: nat, c: nat)
    requires a <= b <= c <= |s|
    ensures s == s[..a] + s[a..b] + s[b..c] + s[c..]
  {
  }

  lemma RenderParts(t: NumberText)
    requires ValidText(t)
    ensures var s := Render(t);
      var start := if t.minus then 1 else 0;
      var w := start + |t.whole|;
      var f := w + |RenderFrac(t.frac)|;
      && f <= |s| && s[start..w] == t.whole && s[w..f] == RenderFrac(t.frac) && s[f..] == RenderExponent(t.exp)
      && s[start] == t.whole[0] && (t.minus ==> s[0] == '-')
  {
  }

  lemma FracEnds(t: NumberText, s: string, w: nat, f: nat)
    requires ValidText(t) && w <= f <= |s|
    requires s[w..f] == RenderFrac(t.frac) && s[f..] == RenderExponent(t.exp)
    ensures f < |s| ==> s[f] == 'e' || s[f] == 'E'
    ensures w < |s| ==> !IsDigit(s[w])
    ensures t.frac.Some? <==> w < |s| && s[w] == '.'
    ensures t.frac.Some? ==> w < f && s[w + 1..f] == t.frac.value && DigitsEnd(s, w + 1) == f
    ensures t.frac.None? ==> f == w
  {
    if f < |s| { assert s[f] == s[f..][0]; }
    if t.frac.Some? {
      assert s[w] == s[w..f][0];
      assert s[w + 1..f] == s[w..f][1..];
      DigitsEndIs(s, w + 1, f);
    }
  }

  lemma RecognizeFromParts(t: NumberText, s: string, start: nat, w: nat, f: nat)
    requires ValidText(t) && start <= w <= f <= |s| && start == (if t.minus then 1 else 0)
    requires s[start..w] == t.whole && s[w..f] == RenderFrac(t.frac) && s[f..] == RenderExponent(t.exp)
    requires start < |s| && s[start] == t.whole[0] && (t.minus ==> s[0] == '-')
    ensures Recognize(s) == Some(t)
  {
    FracEnds(t, s, w, f);
    DigitsEndIs(s, start, w);
    ExponentComplete(t.exp, s, f);
  }

  lemma RecognizeComplete(t: NumberText)
    requires ValidText(t)
    ensures Recognize(Render(t)) == Some(t)
  {
    var start := if t.minus then 1 else 0;
    var w := start + |t.whole|;
    RenderParts(t);
    RecognizeFromParts(t, Render(t), start, w, w + |RenderFrac(t.frac)|);
  }

  /** Each text has at most one reading, and recognition finds it. */
  lemma RecognizeExact(s: string, t: NumberText)
    ensures Recognize(s) == Some(t) <==> ValidText(t) && Render(t) == s
  {
    if Recognize(s) == Some(t) { RecognizeSound(s); }
    if ValidText(t) && Render(t) == s { RecognizeComplete(t); }
  }

  // ----- canonical form keeps the value

  lemma {:induction false} DropLeadingKeepsValue(ds: string)
    requires AllDigits(ds)
    ensures AllDigits(DropLeadingZeros(ds))
    ensures Coefficient(DropLeadingZeros(ds)) == Coefficient(ds)
    ensures DropLeadingZeros(ds) != [] ==> DropLeadingZeros(ds)[0] != '0'
  {
    if ds != [] && ds[0] == '0' {
      DropLeadingKeepsValue(ds[1..]);
      CoefficientConcat(ds[..1], ds[1..]);
      assert ds == ds[..1] + ds[1..];
      assert Coefficient(ds[..1]) == 0;
    }
  }

  lemma {:induction false} DropTrailingKeepsValue(ds: string)
    requires AllDigits(ds) && ds != [] && ds[0] != '0'
    ensures var r := DropTrailingZeros(ds);
      && AllDigits(r) && r[0] != '0' && r[|r| - 1] != '0'
      && Coefficient(ds) == Coefficient(r) * Tens(|ds| - |r|)
  {
    if |ds| > 1 && ds[|ds| - 1] == '0' {
      var init := ds[..|ds| - 1];
      DropTrailingKeepsValue(init);
      var (r, n) := (DropTrailingZeros(init), |init| - |DropTrailingZeros(init)|);
      assert Tens(n + 1) == 10 * Tens(n);
      assert Coefficient(r) * Tens(n) * 10 == Coefficient(r) * (10 * Tens(n));
    }
  }

  /** The digits and exponent canonicalisation arrives at, before the range check. */
  lemma CanonicalDigits(t: NumberText)
    requires ValidText(t)
    ensures var all := t.whole + FracDigits(t);
      var lead := DropLeadingZeros(all);
      var r := DropTrailingZeros(lead);
      var e := ExponentValue(t.exp) - |FracDigits(t)|;
      if lead == [] then TextValue(t) == 0.0
      else
        && AllDigits(r) && r[0] != '0' && r[|r| - 1] != '0'
        && Scaled(t.minus, r, e + (|lead| - |r|)) == TextValue(t)
  {
    var all := t.whole + FracDigits(t);
    var lead := DropLeadingZeros(all);
    var r := DropTrailingZeros(lead);
    var e := ExponentValue(t.exp) - |FracDigits(t)|;
    DropLeadingKeepsValue(all);
    if lead == [] {
      assert Coefficient(all) == 0;
    } else {
      DropTrailingKeepsValue(lead);
      ScaleShift(t.minus, r, all, e, |lead| - |r|);
    }
  }

  lemma ZeroValue()
    ensures Value(ZERO) == 0.0
  {
    assert Coefficient("0") == 0;
  }

  /** A canonical number, if there is one, has the exact value of the text. */
  lemma CanonizeExact(t: NumberText, n: Number)
    requires ValidText(t) && Canonize(t) == Some(n)
    ensures Canonical(n) && Value(n) == TextValue(t)
  {
    CanonicalDigits(t);
    ZeroValue();
  }

  // ----- canonical numbers are determined by their value

  lemma {:induction false} DigitsUnique(a: string, b: string)
    requires AllDigits(a) && AllDigits(b) && Coefficient(a) == Coefficient(b)
    requires (a != [] ==> a[0] != '0') && (b != [] ==> b[0] != '0')
    ensures a == b
  {
    CoefficientBounds(a);
    CoefficientBounds(b);
    if a != [] && b != [] {
      var (ai, bi) := (a[..|a| - 1], b[..|b| - 1]);
      assert DigitVal(a[|a| - 1]) == Coefficient(a) % 10 == DigitVal(b[|b| - 1]);
      DigitsUnique(ai, bi);
      assert a == ai + [a[|a| - 1]] && b == bi + [b[|b| - 1]];
    }
  }

  /** Equal values have equal coefficients once the exponents are aligned. */
  lemma ScaledAligned(an: bool, a: string, ae: int, bn: bool, b: string, be: int)
    requires be <= ae
    ensures Scaled(an, a, ae) == Times(Signed(an, Coefficient(a) * Tens(ae - be)), Pow10(be))
    ensures Scaled(an, a, ae) == Scaled(bn, b, be) ==>
      Signed(an, Coefficient(a) * Tens(ae - be)) == Signed(bn, Coefficient(b))
  {
    var t := Tens(ae - be);
    Pow10Shift(be, ae - be);
    SignedProduct(an, Coefficient(a), t);
    TimesTimes(Signed(an, Coefficient(a)), t, Pow10(be));
    if Scaled(an, a, ae) == Scaled(bn, b, be) {
      TimesInjective(Signed(an, Coefficient(a) * t), Signed(bn, Coefficient(b)), Pow10(be));
    }
  }

  /** Canonical digits, scaled by an exponent of any size, are determined by the value. */
  lemma ScaledUnique(an: bool, a: string, ae: int, bn: bool, b: string, be: int)
    requires AllDigits(a) && |a| > 0 && a[0] != '0' && a[|a| - 1] != '0'
    requires AllDigits(b) && |b| > 0 && b[0] != '0' && b[|b| - 1] != '0'
    requires be <= ae && Scaled(an, a, ae) == Scaled(bn, b, be)
    ensures an == bn && a == b && ae == be
  {
    CoefficientBounds(a);
    CoefficientBounds(b);
    ScaledAligned(an, a, ae, bn, b, be);
    ProductPositive(Coefficient(a), Tens(ae - be));
    if ae > be {
      MultipleOfTen(Coefficient(a), ae - be);
      LastDigit(b);
    } else {
      DigitsUnique(a, b);
    }
  }

  lemma LastDigit(ds: string)
    requires AllDigits(ds) && ds != []
    ensures Coefficient(ds) % 10 == DigitVal(ds[|ds| - 1])
  {
  }

  lemma MultipleOfTen(c: int, n: nat)
    requires n > 0
    ensures (c * Tens(n)) % 10 == 0
  {
    var k := c * Tens(n - 1);
    assert c * Tens(n) == 10 * k;
  }

  lemma ProductPositive(x: int, y: int)
    requires x >= 1 && y >= 1
    ensures x * y >= 1
  {
  }

  lemma ScaledNonzero(n: bool, ds: string, e: int)
    requires AllDigits(ds) && |ds| > 0 && ds[0] != '0'
    ensures Scaled(n, ds, e) != 0.0
  {
    CoefficientBounds(ds);
    if Scaled(n, ds, e) == 0.0 {
      TimesInjective(Signed(n, Coefficient(ds)), 0, Pow10(e));
    }
  }

  /** Two canonical numbers of equal value are the same number, which is what `Equal` relies on. */
  lemma CanonicalUnique(m: Number, n: Number)
    requires Canonical(m) && Canonical(n) && Value(m) == Value(n)
    ensures m == n
  {
    ZeroValue();
    if m != ZERO { ScaledNonzero(m.neg, m.digits, m.exp as int); }
    if n != ZERO { ScaledNonzero(n.neg, n.digits, n.exp as int); }
    if m != ZERO && n != ZERO {
      if n.exp <= m.exp {
        ScaledUnique(m.neg, m.digits, m.exp as int, n.neg, n.digits, n.exp as int);
      } else {
        ScaledUnique(n.neg, n.digits, n.exp as int, m.neg, m.digits, m.exp as int);
      }
    }
  }

  /** A text is refused for its exponent only when no canonical number has its value. */
  lemma OverflowExact(t: NumberText, n: Number)
    requires ValidText(t) && Canonize(t).None? && Canonical(n)
    ensures Value(n) != TextValue(t)
  {
    var lead := DropLeadingZeros(t.whole + FracDigits(t));
    var digits := DropTrailingZeros(lead);
    var exp := ExponentValue(t.exp) - |FracDigits(t)| + (|lead| - |digits|);
    CanonicalDigits(t);
    ZeroValue();
    ScaledNonzero(t.minus, digits, exp);
    if n != ZERO && Value(n) == TextValue(t) {
      if n.exp as int <= exp {
        ScaledUnique(t.minus, digits, exp, n.neg, n.digits, n.exp as int);
      } else {
        ScaledUnique(n.neg, n.digits, n.exp as int, t.minus, digits, exp);
      }
    }
  }

  /** Parsing accepts exactly the JSON numbers whose value has a canonical number with a 64-bit
    * exponent (zero always has one), and returns the only canonical number of that value. */
  lemma ParseExact(s: string)
    ensures ParseText(s).Some? <==>
      exists t :: ValidText(t) && Render(t) == s && Representable(TextValue(t))
    ensures ParseText(s).Some? ==>
      && Canonical(ParseText(s).value)
      && forall t :: ValidText(t) && Render(t) == s ==> Value(ParseText(s).value) == TextValue(t)
  {
    if Recognize(s).Some? {
      var t := Recognize(s).value;
      RecognizeExact(s, t);
      if Canonize(t).Some? {
        CanonizeExact(t, Canonize(t).value);
        assert Representable(TextValue(t));
      } else {
        forall n: Number | Canonical(n) ensures Value(n) != TextValue(t) { OverflowExact(t, n); }
      }
    }
    forall u | ValidText(u) && Render(u) == s ensures Recognize(s) == Some(u) {
      RecognizeExact(s, u);
    }
  }
}
