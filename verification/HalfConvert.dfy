/** Conversion of single- and double-precision bit patterns to half precision. */
module HalfConvert {
  import opened HalfFormat
  import opened HalfRounding

  // ----- Single precision -----

  const FLOAT_INFINITY := 0x7F80_0000
  const FLOAT_SIGN := 0x8000_0000

  function FloatSign(bits: nat): nat {
    if bits >= FLOAT_SIGN then SIGN else 0
  }

  function FloatAbs(bits: nat): nat {
    bits % FLOAT_SIGN
  }

  /** Magnitude of a single-precision pattern without sign, in units of 2^-24. */
  function FloatMag(a: nat): real {
    var e, f := a / 0x80_0000, a % 0x80_0000;
    if e == 0 then Shift(f as real, -125) else Shift((0x80_0000 + f) as real, e - 126)
  }

  /** The conversion by integer operations on the pattern. */
  function FloatToHalf(bits: nat): nat {
    FloatSign(bits) + FloatCode(FloatAbs(bits))
  }

  function FloatCode(a: nat): nat {
    if a >= FLOAT_INFINITY then INFINITY + if a > FLOAT_INFINITY then Payload(a / 0x2000 % 0x400) else 0
    else if a >= 0x4780_0000 then INFINITY
    else if a >= 0x3880_0000 then
      Rounded((a / 0x80_0000 - 112) * 0x400 + a / 0x2000 % 0x400, a / 0x1000 % 2, a % 0x1000 != 0)
    else if a >= 0x3300_0000 then
      var i, m := 125 - a / 0x80_0000, a % 0x80_0000 + 0x80_0000;
      RoundedCode(m, i + 1, 0)
    else 0
  }

  /** The fraction of a not-a-number with its quiet bit set. */
  function Payload(f: nat): (p: nat)
    requires f < 0x400
    ensures 0x200 <= p < 0x400
  {
    if f >= 0x200 then f else f + 0x200
  }

  /** The bit fields the conversion extracts, for a pattern with exponent e, upper fraction h and lower
      fraction l. */
  lemma FieldsOfFloat(a: nat, e: nat, h: nat, l: nat)
    requires h < 0x400 && l < 0x2000 && a == e * 0x80_0000 + h * 0x2000 + l
    ensures a / 0x80_0000 == e && a % 0x80_0000 == h * 0x2000 + l
    ensures a / 0x2000 % 0x400 == h
    ensures a / 0x1000 % 2 == l / 0x1000 && a % 0x1000 == l % 0x1000
  {
    assert a / 0x2000 == e * 0x400 + h;
    assert a / 0x1000 == 2 * (e * 0x400 + h) + l / 0x1000;
  }

  lemma FloatMagAt(a: nat, e: nat, f: nat)
    requires f < 0x80_0000 && a == e * 0x80_0000 + f && e > 0
    ensures FloatMag(a) == Shift((0x80_0000 + f) as real, e - 126)
  {
    assert a / 0x80_0000 == e && a % 0x80_0000 == f;
  }

  /** The normal range: cutting 13 bits. */
  lemma NormalFloat(a: nat, e: nat, h: nat, l: nat)
    requires h < 0x400 && l < 0x2000 && a == e * 0x80_0000 + h * 0x2000 + l && 113 <= e <= 142
    ensures NearestEven(FloatMag(a), FloatCode(a))
  {
    var m, v := 0x80_0000 + h * 0x2000 + l, FloatMag(a);
    NormalFloatCode(a, e, h, l);
    FloatMagAt(a, e, h * 0x2000 + l);
    CutThirteen(m, h, l);
    RoundedCodeIsNearest(m as real, m, 1, 13, e - 113, v);
  }

  lemma NormalFloatCode(a: nat, e: nat, h: nat, l: nat)
    requires h < 0x400 && l < 0x2000 && a == e * 0x80_0000 + h * 0x2000 + l && 113 <= e <= 142
    ensures FloatCode(a) == RoundedCode(0x80_0000 + h * 0x2000 + l, 13, e - 113)
  {
    FieldsOfFloat(a, e, h, l);
    CutThirteen(0x80_0000 + h * 0x2000 + l, h, l);
  }

  lemma CutThirteen(m: nat, h: nat, l: nat)
    requires h < 0x400 && l < 0x2000 && m == 0x80_0000 + h * 0x2000 + l
    ensures Shr(m, 13) == 0x400 + h && Shr(m, 12) % 2 == l / 0x1000 && (AnyBelow(m, 12) <==> l % 0x1000 != 0)
  {
    SmallPowers();
    assert Pow2(12) == 0x1000;
    ShiftedBy(m, 13, 0x2000, 0x400 + h);
    ShiftedBy(m, 12, 0x1000, 2 * (0x400 + h) + l / 0x1000);
  }

  /** A shift by k bits, with the power and the quotient given. */
  lemma ShiftedBy(m: nat, k: nat, d: nat, q: nat)
    requires d == Pow2(k) && q * d <= m < q * d + d
    ensures Shr(m, k) == q && (AnyBelow(m, k) <==> m != q * d)
  {
    ScaleIsMultiple(q, k);
    ScaleIsMultiple(q + 1, k);
    ShrUnique(m, k, q);
  }

  /** The subnormal range: cutting more bits at the lowest exponent. */
  lemma SubnormalFloat(a: nat, e: nat, f: nat)
    requires f < 0x80_0000 && a == e * 0x80_0000 + f && 102 <= e <= 112
    ensures NearestEven(FloatMag(a), FloatCode(a))
  {
    var m := 0x80_0000 + f;
    ShrIsDivision(m, 14);
    SmallPowers();
    ShrDecreases(m, 14, 126 - e);
    RoundedCodeIsNearest(m as real, m, 1, 126 - e, 0, FloatMag(a));
  }

  lemma LargeFloat(a: nat, e: nat, f: nat)
    requires f < 0x80_0000 && a == e * 0x80_0000 + f && 143 <= e <= 254
    ensures NearestEven(FloatMag(a), FloatCode(a))
  {
    SmallPowers();
    LargeOverflows((0x80_0000 + f) as real, e - 126, 13, FloatMag(a));
  }

  lemma SmallFloat(a: nat, e: nat, f: nat)
    requires f < 0x80_0000 && a == e * 0x80_0000 + f && e <= 101
    ensures NearestEven(FloatMag(a), FloatCode(a))
  {
    SmallPowers();
    if e == 0 {
      SmallUnderflows(f as real, -125, 24, FloatMag(a));
    } else {
      SmallUnderflows((0x80_0000 + f) as real, e - 126, 24, FloatMag(a));
    }
  }

  lemma FiniteFloat(a: nat)
    requires a < FLOAT_INFINITY
    ensures NearestEven(FloatMag(a), FloatCode(a))
  {
    var e, f := a / 0x80_0000, a % 0x80_0000;
    if e >= 143 {
      LargeFloat(a, e, f);
    } else if e >= 113 {
      NormalFloat(a, e, f / 0x2000, f % 0x2000);
    } else if e >= 102 {
      SubnormalFloat(a, e, f);
    } else {
      SmallFloat(a, e, f);
    }
  }

  /** Every finite pattern converts to the nearest half, ties to even, with its sign; infinities and
      not-a-numbers convert to their kind. */
  lemma FloatToHalfIsNearest(bits: nat)
    requires bits <= 0xFFFF_FFFF
    ensures var r, a := FloatToHalf(bits), FloatAbs(bits);
            && IsCode(r) && SignOf(r) == FloatSign(bits)
            && (a < FLOAT_INFINITY ==> NearestEven(FloatMag(a), AbsCode(r)))
            && (a == FLOAT_INFINITY ==> IsInfinite(r))
            && (a > FLOAT_INFINITY ==> IsNaN(r))
  {
    var a := FloatAbs(bits);
    FloatCodeKind(a);
    CodeWithSign(FloatCode(a), FloatSign(bits));
  }

  lemma FloatCodeKind(a: nat)
    ensures FloatCode(a) < SIGN
    ensures if a < FLOAT_INFINITY then NearestEven(FloatMag(a), FloatCode(a))
            else if a == FLOAT_INFINITY then FloatCode(a) == INFINITY else FloatCode(a) > INFINITY
  {
    if a < FLOAT_INFINITY {
      FiniteFloat(a);
      assert FloatCode(a) <= INFINITY;
    }
  }

  lemma CodeWithSign(c: nat, sign: nat)
    requires c < SIGN && (sign == 0 || sign == SIGN)
    ensures var r := sign + c; IsCode(r) && SignOf(r) == sign && AbsCode(r) == c
  {
  }

  // ----- Double precision -----

  const DOUBLE_INFINITY := 0x7FF0_0000_0000_0000

  /** Sign and magnitude of a double-precision pattern, split into its upper and lower word. */
  function DoubleSign(bits: nat): nat {
    if bits / 0x1_0000_0000 >= 0x8000_0000 then SIGN else 0
  }

  function DoubleHigh(bits: nat): nat {
    bits / 0x1_0000_0000 % 0x8000_0000
  }

  function DoubleLow(bits: nat): nat {
    bits % 0x1_0000_0000
  }

  /** Magnitude of a double-precision pattern without sign, in units of 2^-24. */
  function DoubleMag(hi: nat, lo: nat): real {
    var e, f, tail := hi / 0x10_0000, hi % 0x10_0000, Shift(lo as real, -32);
    if e == 0 then Shift(f as real + tail, -1018) else Shift((0x10_0000 + f) as real + tail, e - 1019)
  }

  function DoubleToHalf(bits: nat): nat {
    DoubleSign(bits) + DoubleCode(DoubleHigh(bits), DoubleLow(bits))
  }

  function DoubleCode(hi: nat, lo: nat): nat {
    if hi >= 0x7FF0_0000 then INFINITY + if hi % 0x10_0000 != 0 || lo != 0 then Payload(hi / 0x400 % 0x400) else 0
    else if hi >= 0x40F0_0000 then INFINITY
    else if hi >= 0x3F10_0000 then
      Rounded((hi / 0x10_0000 - 1008) * 0x400 + hi / 0x400 % 0x400, hi / 0x200 % 2, hi % 0x200 != 0 || lo != 0)
    else if hi >= 0x3E60_0000 then
      var i, m := 1018 - hi / 0x10_0000, hi % 0x10_0000 + 0x10_0000;
      Rounded(Shr(m, i + 1), Shr(m, i) % 2, AnyBelow(m, i) || lo != 0)
    else 0
  }

  /** Cutting d bits off a number with a fractional tail. */
  lemma CutWithTail(m: nat, tail: real, d: nat)
    requires 0.0 <= tail < 1.0
    ensures var h, y := Shr(m, d), Shift(m as real + tail, 0 - d);
            && h as real <= y < (h + 1) as real
            && (y == h as real <==> !AnyBelow(m, d) && tail == 0.0)
  {
    var h, x := Shr(m, d), m as real + tail;
    ShrBounds(m, d);
    ScaleIsShift(h, d);
    ScaleIsShift(h + 1, d);
    ShiftTwice(x, 0 - d, d);
    ShiftOrder(h as real, Shift(x, 0 - d), d);
    ShiftOrder(Shift(x, 0 - d), (h + 1) as real, d);
  }

  lemma TailRounded(m: nat, tail: real, k: nat, e: nat, v: real, sticky: bool, r: nat)
    requires k >= 1 && 0.0 <= tail < 1.0 && e <= 29
    requires Shr(m, k) <= 2047 && (Shr(m, k) >= 1024 || e == 0)
    requires v == Shift(m as real + tail, e - k)
    requires sticky <==> AnyBelow(m, k - 1) || tail != 0.0
    requires r == Rounded(e * 1024 + Shr(m, k), Shr(m, k - 1) % 2, sticky)
    ensures NearestEven(v, r)
  {
    var x := m as real + tail;
    CutWithTail(m, tail, k - 1);
    OneMoreBit(x, m, k);
    ShiftTwice(x, 0 - k, e);
    GuardedIsNearest(Shr(m, k - 1), Shr(m, k), sticky, Shift(x, 0 - (k - 1)), Shift(x, 0 - k), e, v, r);
  }

  lemma LowerWord(lo: nat)
    requires lo < 0x1_0000_0000
    ensures 0.0 <= Shift(lo as real, -32) < 1.0 && (Shift(lo as real, -32) == 0.0 <==> lo == 0)
  {
    ShiftZero(-32);
    ShiftOrder(0.0, lo as real, -32);
    PowerOf32();
    ScaleIsMultiple(1, 32);
    ScaleIsShift(1, 32);
    ShiftTwice(1.0, 32, -32);
    ShiftOrder(lo as real, 4294967296.0, -32);
  }

  lemma PowerOf32()
    ensures Pow2(32) == 0x1_0000_0000
  {
    SmallPowers();
    assert Pow2(26) == 0x400_0000 && Pow2(28) == 0x1000_0000 && Pow2(30) == 0x4000_0000;
  }

  lemma DoubleMagOf(hi: nat, lo: nat, e: nat, f: nat)
    requires f < 0x10_0000 && hi == e * 0x10_0000 + f
    ensures var tail := Shift(lo as real, -32);
            DoubleMag(hi, lo) == if e == 0 then Shift(f as real + tail, -1018)
                                 else Shift((0x10_0000 + f) as real + tail, e - 1019)
  {
    assert hi / 0x10_0000 == e && hi % 0x10_0000 == f;
  }

  lemma CutTen(m: nat, h: nat, l: nat)
    requires h < 0x400 && l < 0x400 && m == 0x10_0000 + h * 0x400 + l
    ensures Shr(m, 10) == 0x400 + h && Shr(m, 9) % 2 == l / 0x200 && (AnyBelow(m, 9) <==> l % 0x200 != 0)
  {
    SmallPowers();
    assert Pow2(9) == 0x200;
    ShiftedBy(m, 10, 0x400, 0x400 + h);
    ShiftedBy(m, 9, 0x200, 2 * (0x400 + h) + l / 0x200);
  }

  lemma FieldsOfDouble(hi: nat, e: nat, h: nat, l: nat)
    requires h < 0x400 && l < 0x400 && hi == e * 0x10_0000 + h * 0x400 + l
    ensures hi / 0x10_0000 == e && hi / 0x400 % 0x400 == h
    ensures hi / 0x200 % 2 == l / 0x200 && hi % 0x200 == l % 0x200
  {
    assert hi / 0x400 == e * 0x400 + h;
    assert hi / 0x200 == 2 * (e * 0x400 + h) + l / 0x200;
  }

  lemma NormalDouble(hi: nat, lo: nat, e: nat, h: nat, l: nat)
    requires h < 0x400 && l < 0x400 && hi == e * 0x10_0000 + h * 0x400 + l && 1009 <= e <= 1038
    requires lo < 0x1_0000_0000
    ensures NearestEven(DoubleMag(hi, lo), DoubleCode(hi, lo))
  {
    var m := 0x10_0000 + h * 0x400 + l;
    LowerWord(lo);
    CutTen(m, h, l);
    DoubleMagOf(hi, lo, e, h * 0x400 + l);
    NormalDoubleCode(hi, lo, e, h, l);
    TailRounded(m, Shift(lo as real, -32), 10, e - 1009, DoubleMag(hi, lo), AnyBelow(m, 9) || lo != 0,
                DoubleCode(hi, lo));
  }

  lemma NormalDoubleCode(hi: nat, lo: nat, e: nat, h: nat, l: nat)
    requires h < 0x400 && l < 0x400 && hi == e * 0x10_0000 + h * 0x400 + l && 1009 <= e <= 1038
    ensures DoubleCode(hi, lo) == Rounded((e - 1009) * 1024 + (0x400 + h), l / 0x200, l % 0x200 != 0 || lo != 0)
  {
    FieldsOfDouble(hi, e, h, l);
  }

  lemma SubnormalDouble(hi: nat, lo: nat, e: nat, f: nat)
    requires f < 0x10_0000 && hi == e * 0x10_0000 + f && 998 <= e <= 1008
    requires lo < 0x1_0000_0000
    ensures NearestEven(DoubleMag(hi, lo), DoubleCode(hi, lo))
  {
    var m, k := 0x10_0000 + f, 1019 - e;
    LowerWord(lo);
    FewKept(m, k);
    DoubleMagOf(hi, lo, e, f);
    SubnormalDoubleCode(hi, lo, e, f);
    TailRounded(m, Shift(lo as real, -32), k, 0, DoubleMag(hi, lo), AnyBelow(m, k - 1) || lo != 0, DoubleCode(hi, lo));
  }

  lemma FewKept(m: nat, k: nat)
    requires m < 0x20_0000 && k >= 11
    ensures Shr(m, k) <= 2047
  {
    ShrIsDivision(m, 11);
    SmallPowers();
    ShrDecreases(m, 11, k);
  }

  lemma SubnormalDoubleCode(hi: nat, lo: nat, e: nat, f: nat)
    requires f < 0x10_0000 && hi == e * 0x10_0000 + f && 998 <= e <= 1008
    ensures var m, k := 0x10_0000 + f, 1019 - e;
            DoubleCode(hi, lo) == Rounded(Shr(m, k), Shr(m, k - 1) % 2, AnyBelow(m, k - 1) || lo != 0)
  {
    assert hi / 0x10_0000 == e && hi % 0x10_0000 == f;
  }

  lemma LargeDouble(hi: nat, lo: nat, e: nat, f: nat)
    requires f < 0x10_0000 && hi == e * 0x10_0000 + f && 1039 <= e <= 2046
    requires lo < 0x1_0000_0000
    ensures NearestEven(DoubleMag(hi, lo), DoubleCode(hi, lo))
  {
    LowerWord(lo);
    SmallPowers();
    DoubleMagOf(hi, lo, e, f);
    LargeOverflows((0x10_0000 + f) as real + Shift(lo as real, -32), e - 1019, 10, DoubleMag(hi, lo));
  }

  lemma SmallDouble(hi: nat, lo: nat, e: nat, f: nat)
    requires f < 0x10_0000 && hi == e * 0x10_0000 + f && e <= 997
    requires lo < 0x1_0000_0000
    ensures NearestEven(DoubleMag(hi, lo), DoubleCode(hi, lo))
  {
    var x := (if e == 0 then f else 0x10_0000 + f) as real + Shift(lo as real, -32);
    var k := if e == 0 then -1018 else e - 1019;
    LowerWord(lo);
    DoubleMagOf(hi, lo, e, f);
    SmallPowers();
    assert Pow2(21) == 0x20_0000;
    SmallUnderflows(x, k, 21, DoubleMag(hi, lo));
  }

  lemma FiniteDouble(hi: nat, lo: nat)
    requires hi < 0x7FF0_0000 && lo < 0x1_0000_0000
    ensures NearestEven(DoubleMag(hi, lo), DoubleCode(hi, lo))
  {
    var e, f := hi / 0x10_0000, hi % 0x10_0000;
    if e >= 1039 {
      LargeDouble(hi, lo, e, f);
    } else if e >= 1009 {
      NormalDouble(hi, lo, e, f / 0x400, f % 0x400);
    } else if e >= 998 {
      SubnormalDouble(hi, lo, e, f);
    } else {
      SmallDouble(hi, lo, e, f);
    }
  }

  /** Every finite double converts to the nearest half, ties to even, with its sign. */
  lemma DoubleToHalfIsNearest(bits: nat)
    requires bits <= 0xFFFF_FFFF_FFFF_FFFF
    ensures var r, hi, lo := DoubleToHalf(bits), DoubleHigh(bits), DoubleLow(bits);
            && IsCode(r) && SignOf(r) == DoubleSign(bits)
            && (hi < 0x7FF0_0000 ==> NearestEven(DoubleMag(hi, lo), AbsCode(r)))
            && (hi == 0x7FF0_0000 && lo == 0 ==> IsInfinite(r))
            && (hi > 0x7FF0_0000 || (hi == 0x7FF0_0000 && lo != 0) ==> IsNaN(r))
  {
    var hi, lo := DoubleHigh(bits), DoubleLow(bits);
    if hi < 0x7FF0_0000 {
      FiniteDouble(hi, lo);
      assert DoubleCode(hi, lo) <= INFINITY;
    } else {
      assert INFINITY <= DoubleCode(hi, lo) < SIGN;
    }
    CodeWithSign(DoubleCode(hi, lo), DoubleSign(bits));
  }

  // ----- Order -----

  /** A pattern as a number: exponent e and significand q that make up the pattern. */
  lemma FloatMagOfCode(a: nat, e: nat, q: nat)
    requires a == e * 0x80_0000 + q && q <= 0x100_0000 && (q >= 0x80_0000 || e == 0)
    ensures FloatMag(a) == Shift(q as real, e - 125)
  {
    if q == 0x100_0000 {
      ShiftMove(8388608.0, e - 125);
    }
  }

  lemma FloatStep(a: nat)
    ensures FloatMag(a) < FloatMag(a + 1)
  {
    var e := if a < 0x80_0000 then 0 else a / 0x80_0000 - 1;
    var q := a - e * 0x80_0000;
    FloatMagOfCode(a, e, q);
    FloatMagOfCode(a + 1, e, q + 1);
    ShiftOrder(q as real, (q + 1) as real, e - 125);
  }

  lemma {:induction false} FloatOrder(a: nat, b: nat)
    requires a <= b
    ensures FloatMag(a) <= FloatMag(b)
    ensures a < b ==> FloatMag(a) < FloatMag(b)
    decreases b - a
  {
    if a < b {
      FloatOrder(a, b - 1);
      FloatStep(b - 1);
    }
  }

  lemma UnsignedFloat(a: nat)
    requires a <= FLOAT_INFINITY
    ensures FloatToHalf(a) == FloatCode(a) <= INFINITY
  {
    assert FloatAbs(a) == a && FloatSign(a) == 0;
    if a < FLOAT_INFINITY {
      FiniteFloat(a);
    }
  }

  /** Larger single-precision numbers, up to infinity, convert to larger halves. */
  lemma FloatToHalfMonotone(a: nat, b: nat)
    requires a <= b <= FLOAT_INFINITY
    ensures FloatToHalf(a) <= FloatToHalf(b) <= INFINITY
  {
    UnsignedFloat(a);
    UnsignedFloat(b);
    if b < FLOAT_INFINITY {
      FiniteFloat(a);
      FiniteFloat(b);
      FloatOrder(a, b);
      NearestMonotone(FloatMag(a), FloatMag(b), FloatCode(a), FloatCode(b));
    } else {
      assert FloatCode(b) == INFINITY;
    }
  }

  /** Exponent and significand that make up an upper word. */
  function HighExp(hi: nat): nat {
    if hi < 0x10_0000 then 0 else hi / 0x10_0000 - 1
  }

  function HighSig(hi: nat): nat {
    hi - HighExp(hi) * 0x10_0000
  }

  lemma DoubleMagAt(hi: nat, lo: nat)
    ensures hi == HighExp(hi) * 0x10_0000 + HighSig(hi)
    ensures 0 <= HighSig(hi) < 0x20_0000 && (HighSig(hi) >= 0x10_0000 || HighExp(hi) == 0)
    ensures DoubleMag(hi, lo) == Shift(HighSig(hi) as real + Shift(lo as real, -32), HighExp(hi) - 1018)
  {
    var e, q := HighExp(hi), HighSig(hi);
    if q >= 0x10_0000 {
      DoubleMagOf(hi, lo, e + 1, q - 0x10_0000);
    } else {
      DoubleMagOf(hi, lo, 0, q);
    }
  }

  lemma DoubleMagOfHigh(hi: nat, e: nat, q: nat)
    requires hi == e * 0x10_0000 + q && q <= 0x20_0000 && (q >= 0x10_0000 || e == 0)
    ensures DoubleMag(hi, 0) == Shift(q as real, e - 1018)
  {
    ShiftZero(-32);
    DoubleMagAt(hi, 0);
    if q == 0x20_0000 {
      ShiftMove(1048576.0, e - 1018);
    }
  }

  /** The lower word adds less than one unit of the upper one. */
  lemma DoubleStep(hi: nat, lo: nat)
    requires lo < 0x1_0000_0000
    ensures DoubleMag(hi, lo) < DoubleMag(hi + 1, 0)
  {
    DoubleMagAt(hi, lo);
    StepUp(hi + 1, lo, HighExp(hi), HighSig(hi));
  }

  lemma StepUp(next: nat, lo: nat, e: nat, q: nat)
    requires lo < 0x1_0000_0000
    requires next == e * 0x10_0000 + q + 1 && q < 0x20_0000 && (q >= 0x10_0000 || e == 0)
    ensures Shift(q as real + Shift(lo as real, -32), e - 1018) < DoubleMag(next, 0)
  {
    LowerWord(lo);
    DoubleMagOfHigh(next, e, q + 1);
    ShiftOrder(q as real + Shift(lo as real, -32), (q + 1) as real, e - 1018);
  }

  lemma {:induction false} HighOrder(hi: nat, hi': nat)
    requires hi <= hi'
    ensures DoubleMag(hi, 0) <= DoubleMag(hi', 0)
    decreases hi' - hi
  {
    if hi < hi' {
      HighOrder(hi, hi' - 1);
      DoubleStep(hi' - 1, 0);
    }
  }

  lemma LowOrder(hi: nat, lo: nat, lo': nat)
    requires lo <= lo' < 0x1_0000_0000
    ensures DoubleMag(hi, lo) <= DoubleMag(hi, lo')
  {
    var q := HighSig(hi) as real;
    DoubleMagAt(hi, lo);
    DoubleMagAt(hi, lo');
    ShiftOrder(lo as real, lo' as real, -32);
    ShiftOrder(q + Shift(lo as real, -32), q + Shift(lo' as real, -32), HighExp(hi) - 1018);
  }

  /** Double-precision patterns are ordered as their magnitudes, the upper word first. */
  lemma DoubleOrder(hi: nat, lo: nat, hi': nat, lo': nat)
    requires lo < 0x1_0000_0000 && lo' < 0x1_0000_0000
    requires hi < hi' || (hi == hi' && lo <= lo')
    ensures DoubleMag(hi, lo) <= DoubleMag(hi', lo')
  {
    if hi < hi' {
      DoubleStep(hi, lo);
      HighOrder(hi + 1, hi');
      LowOrder(hi', 0, lo');
    } else {
      LowOrder(hi, lo, lo');
    }
  }

  lemma UnsignedDouble(bits: nat)
    requires bits <= DOUBLE_INFINITY
    ensures var hi, lo := DoubleHigh(bits), DoubleLow(bits);
            && bits == hi * 0x1_0000_0000 + lo && lo < 0x1_0000_0000
            && DoubleToHalf(bits) == DoubleCode(hi, lo) <= INFINITY
            && (bits < DOUBLE_INFINITY ==> hi < 0x7FF0_0000 && NearestEven(DoubleMag(hi, lo), DoubleCode(hi, lo)))
  {
    var hi, lo := bits / 0x1_0000_0000, bits % 0x1_0000_0000;
    assert hi <= 0x7FF0_0000 && DoubleHigh(bits) == hi && DoubleSign(bits) == 0;
    if bits < DOUBLE_INFINITY {
      FiniteDouble(hi, lo);
    } else {
      assert hi == 0x7FF0_0000 && lo == 0;
    }
  }

  /** Larger double-precision numbers, up to infinity, convert to larger halves. */
  lemma DoubleToHalfMonotone(a: nat, b: nat)
    requires a <= b <= DOUBLE_INFINITY
    ensures DoubleToHalf(a) <= DoubleToHalf(b) <= INFINITY
  {
    UnsignedDouble(a);
    UnsignedDouble(b);
    if b < DOUBLE_INFINITY {
      var hi, lo, hi', lo' := DoubleHigh(a), DoubleLow(a), DoubleHigh(b), DoubleLow(b);
      DoubleOrder(hi, lo, hi', lo');
      NearestMonotone(DoubleMag(hi, lo), DoubleMag(hi', lo'), DoubleCode(hi, lo), DoubleCode(hi', lo'));
    } else {
      assert DoubleHigh(b) == 0x7FF0_0000 && DoubleLow(b) == 0;
    }
  }

  /** A single and a double of ordered values convert to ordered halves, and of equal values to the
      same half. */
  lemma FormatsAgree(a: nat, hi: nat, lo: nat)
    requires a < FLOAT_INFINITY && hi < 0x7FF0_0000 && lo < 0x1_0000_0000
    ensures FloatMag(a) <= DoubleMag(hi, lo) ==> FloatCode(a) <= DoubleCode(hi, lo)
    ensures FloatMag(a) >= DoubleMag(hi, lo) ==> FloatCode(a) >= DoubleCode(hi, lo)
  {
    FiniteFloat(a);
    FiniteDouble(hi, lo);
    if FloatMag(a) <= DoubleMag(hi, lo) {
      NearestMonotone(FloatMag(a), DoubleMag(hi, lo), FloatCode(a), DoubleCode(hi, lo));
    }
    if FloatMag(a) >= DoubleMag(hi, lo) {
      NearestMonotone(DoubleMag(hi, lo), FloatMag(a), DoubleCode(hi, lo), FloatCode(a));
    }
  }
}
