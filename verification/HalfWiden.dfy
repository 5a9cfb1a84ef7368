/** Conversion of half precision to double-precision bit patterns, which loses nothing. */
module HalfWiden {
  import opened HalfFormat
  import opened HalfRounding
  import opened HalfConvert

  /** The double-precision pattern has the sign and the exact value of the half code, and is infinite or
      not a number exactly if the code is. */
  ghost predicate SameNumber(bits: nat, value: nat) {
    var hi, lo, a := DoubleHigh(bits), DoubleLow(bits), AbsCode(value);
    && bits <= 0xFFFF_FFFF_FFFF_FFFF
    && DoubleSign(bits) == SignOf(value)
    && (a < INFINITY ==> hi < 0x7FF0_0000 && DoubleMag(hi, lo) == Magnitude(a))
    && (a == INFINITY ==> hi == 0x7FF0_0000 && lo == 0)
    && (a > INFINITY ==> hi > 0x7FF0_0000)
  }

  /** The upper word built for a shifted code: n doublings are paid for with the exponent. */
  lemma SubnormalHigh(a: nat, n: nat, m: nat)
    requires n <= 1008 && 0x400 <= m < 0x800 && Shift(m as real, 0 - n) == a as real
    ensures DoubleMag((1008 - n) * 0x10_0000 + m * 0x400, 0) == a as real
  {
    DoubleMagOfHigh((1008 - n) * 0x10_0000 + m * 0x400, 1008 - n, m * 0x400);
    ThousandthShift(m, 0 - n);
  }

  lemma ThousandthShift(m: nat, e: int)
    ensures Shift((m * 0x400) as real, e - 10) == Shift(m as real, e)
  {
    SmallPowers();
    ScaleIsMultiple(m, 10);
    ScaleIsShift(m, 10);
    ShiftTwice(m as real, 10, e - 10);
  }

  lemma NormalHigh(a: nat)
    requires 0x400 <= a < INFINITY
    ensures DoubleMag(0x3F00_0000 + a * 0x400, 0) == Magnitude(a)
  {
    var e, q := a / 0x400 - 1, a % 0x400 + 0x400;
    MagOfCode(a, e, q);
    ScaleIsShift(q, e);
    DoubleMagOfHigh(0x3F00_0000 + a * 0x400, 1008 + e, q * 0x400);
    ThousandthShift(q, e);
  }

  lemma Assembled(sign: nat, hi: nat)
    requires (sign == 0 || sign == SIGN) && hi < 0x8000_0000
    ensures var bits := (sign * 0x1_0000 + hi) * 0x1_0000_0000;
            && bits <= 0xFFFF_FFFF_FFFF_FFFF
            && DoubleSign(bits) == sign && DoubleHigh(bits) == hi && DoubleLow(bits) == 0
  {
    var word := sign * 0x1_0000 + hi;
    assert (word * 0x1_0000_0000) / 0x1_0000_0000 == word;
  }

  /** Every half code becomes the double of the same value, and converting back gives it again. */
  method HalfToDouble(value: nat) returns (bits: nat)
    requires IsCode(value)
    ensures SameNumber(bits, value)
    ensures !IsNaN(value) ==> DoubleToHalf(bits) == value
  {
    var abs := AbsCode(value);
    var hi := 0;
    if abs != 0 {
      hi := UpperWord(abs);
    }
    var sign := SignOf(value);
    Assembled(sign, hi);
    bits := (sign * 0x1_0000 + hi) * 0x1_0000_0000;
    ZeroDouble();
    if !IsNaN(value) {
      BackToHalf(bits, value);
    }
  }

  lemma ZeroDouble()
    ensures DoubleMag(0, 0) == Magnitude(0)
  {
    DoubleMagOfHigh(0, 0, 0);
    ShiftZero(-1018);
  }

  /** The upper word without the sign, for a code that is not zero. */
  method UpperWord(a: nat) returns (hi: nat)
    requires 0 < a < SIGN
    ensures hi < 0x8000_0000
    ensures a < INFINITY ==> hi < 0x7FF0_0000 && DoubleMag(hi, 0) == Magnitude(a)
    ensures a == INFINITY ==> hi == 0x7FF0_0000
    ensures a > INFINITY ==> hi > 0x7FF0_0000
  {
    var abs := a;
    hi := if abs >= INFINITY then 0x7E00_0000 else 0x3F00_0000;
    ghost var n := 0;
    while abs < 0x400
      invariant a < 0x400 ==> 2 * n <= abs && 0 < abs < 0x800 && hi == 0x3F00_0000 - n * 0x10_0000
      invariant a < 0x400 ==> Shift(abs as real, 0 - n) == a as real
      invariant a >= 0x400 ==> abs == a && hi == if a >= INFINITY then 0x7E00_0000 else 0x3F00_0000
      decreases 0x400 - abs
    {
      ShiftMove(abs as real, 0 - (n + 1));
      abs, hi, n := abs * 2, hi - 0x10_0000, n + 1;
    }
    hi := hi + abs * 0x400;
    if a < 0x400 {
      SubnormalHigh(a, n, abs);
    } else if a < INFINITY {
      NormalHigh(a);
    }
  }

  lemma SameCode(r: nat, value: nat)
    requires IsCode(r) && IsCode(value) && SignOf(r) == SignOf(value) && AbsCode(r) == AbsCode(value)
    ensures r == value
  {
  }

  /** The double converts to the only code that is nearest to its value. */
  lemma BackToHalf(bits: nat, value: nat)
    requires IsCode(value) && SameNumber(bits, value) && !IsNaN(value)
    ensures DoubleToHalf(bits) == value
  {
    var a, r := AbsCode(value), DoubleToHalf(bits);
    DoubleToHalfIsNearest(bits);
    if a < INFINITY {
      ExactIsNearest(a);
      NearestUnique(Magnitude(a), a, AbsCode(r));
    }
    SameCode(r, value);
  }
}
