/** The fixed-width constants against the powers of two that define them (internal/compiled/arena.go:143-150,
  * internal/compiled/float.go:33-51). */
module FixedWidths {
  import opened Wrappers
  import opened Constraints
  import opened MachineInts
  import opened Arenas

  function Pow2(n: nat): (r: int)
    ensures r >= 1
  {
    if n == 0 then 1 else if n % 2 == 0 then Square(Pow2(n / 2)) else 2 * Pow2(n - 1)
  }

  function Square(x: int): (r: int)
    ensures x >= 1 ==> r >= 1
  {
    x * x
  }

  /** The integers of a width in two's complement, or without a sign. */
  function WidthRange(bits: nat, signed: bool): (int, int)
    requires bits > 0
  {
    if signed then (-Pow2(bits - 1), Pow2(bits - 1) - 1) else (0, Pow2(bits) - 1)
  }

  /** The built-in ranges are those of i8 to i64 and u8 to u64. */
  lemma RangesExact()
    ensures RANGES ==
      [WidthRange(8, true), WidthRange(16, true), WidthRange(32, true), WidthRange(64, true),
       WidthRange(8, false), WidthRange(16, false), WidthRange(32, false), WidthRange(64, false)]
    ensures MIN_INT64 == -Pow2(63) && MAX_INT64 == Pow2(63) - 1
  {
    assert Pow2(7) == 0x80 && Pow2(8) == 0x100;
    assert Pow2(15) == 0x8000 && Pow2(16) == 0x1_0000;
    assert Pow2(31) == 0x8000_0000 && Pow2(32) == 0x1_0000_0000;
    assert Pow2(63) == 0x8000_0000_0000_0000 && Pow2(64) == 0x1_0000_0000_0000_0000;
  }

  /** The largest number of an IEEE 754 format with `p` digits of precision and largest exponent `e` is
    * (2^p - 1) * 2^(e + 1 - p); a decimal becomes infinite from half a unit in the last place above it on. */
  function OverflowAt(p: nat, e: nat): int
    requires e >= p
  {
    (Pow2(p) - 1) * Pow2(e + 1 - p) + Pow2(e - p)
  }

  /** Binary32 has 24 digits and largest exponent 127, binary64 53 and 1023. */
  lemma FloatLimitsExact()
    ensures F32_LIMIT == OverflowAt(24, 127) as real && F64_LIMIT == OverflowAt(53, 1023) as real
  {
    Binary32();
    Binary64();
  }

  lemma Binary32()
    ensures F32_LIMIT == OverflowAt(24, 127) as real
  {
    Powers32();
    assert OverflowAt(24, 127) == 0xff_ffff * Pow2(104) + Pow2(103);
  }

  lemma Powers32()
    ensures Pow2(24) == 0x100_0000
    ensures Pow2(103) == 0x80_0000_0000_0000_0000_0000_0000 && Pow2(104) == 0x100_0000_0000_0000_0000_0000_0000
  {
    assert Pow2(13) == 0x2000;
    assert Pow2(26) == Square(Pow2(13));
    assert Pow2(52) == Square(Pow2(26));
    assert Pow2(104) == Square(Pow2(52));
    assert Pow2(25) == 0x200_0000;
    assert Pow2(50) == Square(Pow2(25));
    assert Pow2(102) == Square(2 * Pow2(50));
    assert Pow2(103) == 2 * Pow2(102);
  }

  lemma Binary64()
    ensures F64_LIMIT == OverflowAt(53, 1023) as real
  {
    Powers64();
    assert OverflowAt(53, 1023) == 0x1f_ffff_ffff_ffff * Pow2(971) + Pow2(970);
  }

  lemma Doubled(n: nat)
    ensures Pow2(2 * n) == Square(Pow2(n)) && Pow2(2 * n + 1) == 2 * Pow2(2 * n)
  {
  }

  lemma Powers64()
    ensures Pow2(53) == 0x20_0000_0000_0000
    ensures Pow2(970) == 9979201547673599058281863565184192830337256302177287707512736212186059459344820328924789827463178505446712234220962476219862189941967968303695858991424157101600028364755428382587688607221814935913266783722719619966654052275604351944444276342240220787535604534378780208211792476151720049639424 && Pow2(971) == 2 * Pow2(970)
  {
    Power53();
    Power485();
    Doubled(485);
  }

  lemma Power53()
    ensures Pow2(53) == 0x20_0000_0000_0000
  {
    assert Pow2(13) == 0x2000;
    Doubled(13);
    Doubled(26);
  }

  lemma Power121()
    ensures Pow2(121) == 0x200_0000_0000_0000_0000_0000_0000_0000
  {
    assert Pow2(15) == 0x8000;
    Doubled(15);
    Doubled(30);
    Doubled(60);
  }

  lemma Power485()
    ensures Pow2(485) == 99895953610111751404211111353381321783955140565279076827493022708011895642232499843849795298031743077114461795885011932654335221737225129801285632
  {
    Power121();
    Doubled(121);
    Doubled(242);
  }
}
