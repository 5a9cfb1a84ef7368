/** The normalisation loop that the half-precision operations start with. */
module HalfUnpacking {
  import opened HalfFormat

  /** A positive finite code as normalised significand and exponent, subnormals included. */
  ghost predicate Unpacked(a: nat, sig: nat, e: int) {
    0x400 <= sig < 0x800 && -9 <= e <= 30 && Magnitude(a) == Shift(sig as real, e - 1)
  }

  method Normalize(a: nat) returns (sig: nat, e: int)
    requires 0 < a < INFINITY
    ensures Unpacked(a, sig, e)
  {
    var abs, exp := a, 0;
    MagOfParts(a);
    while abs < 0x400
      invariant a >= 0x400 ==> abs == a && exp == 0
      invariant a < 0x400 ==> 0 < abs < 0x800 && -10 <= exp <= 0 && Shift(abs as real, exp) == a as real
      invariant a < 0x400 ==> abs >= Pow2(-exp)
      decreases 0x400 - abs
    {
      DoublingBounded(abs, -exp);
      ShiftMove(abs as real, exp - 1);
      abs, exp := 2 * abs, exp - 1;
    }
    sig, e := abs % 0x400 + 0x400, abs / 0x400 + exp;
    ScaleIsShift(SigOf(a), ExpOf(a) - 1);
  }

  lemma DoublingBounded(abs: nat, k: nat)
    requires abs < 0x400 && abs >= Pow2(k)
    ensures k < 10
  {
    SmallPowers();
    BelowPower(k, 10);
  }

  lemma {:induction false} BelowPower(j: nat, k: nat)
    requires Pow2(j) < Pow2(k)
    ensures j < k
  {
    if j > 0 && k > 0 {
      BelowPower(j - 1, k - 1);
    }
  }

  /** A larger code has no smaller exponent. */
  lemma UnpackedOrder(a: nat, s: nat, e: int, b: nat, t: nat, f: int)
    requires Unpacked(a, s, e) && Unpacked(b, t, f) && a <= b
    ensures e <= f
  {
    MagMonotone(a, b);
    if f < e {
      ShiftMove(s as real, f - 1);
      ShiftOrder(t as real, 2.0 * s as real, f - 1);
      ShiftExponentOrder(s as real, f, e - 1);
    }
  }

  lemma {:induction false} ShiftProduct(x: real, e: int, y: real, p: real)
    requires p == x * y
    ensures Shift(x, e) * y == Shift(p, e)
    decreases if e < 0 then -e else e
  {
    if e > 0 {
      ShiftProduct(x, e - 1, y, p);
    } else if e < 0 {
      ShiftProduct(x, e + 1, y, p);
    }
  }

  lemma {:induction false} ProductShift(x: real, y: real, e: int, p: real)
    requires p == x * y
    ensures x * Shift(y, e) == Shift(p, e)
    decreases if e < 0 then -e else e
  {
    if e > 0 {
      ProductShift(x, y, e - 1, p);
    } else if e < 0 {
      ProductShift(x, y, e + 1, p);
    }
  }

  lemma ProductAsReal(a: nat, b: nat)
    ensures (a * b) as real == a as real * b as real
  {
  }
}
