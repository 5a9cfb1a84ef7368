/** Half-precision numbers: codes, exact magnitudes and rounding to nearest, ties to even
    (IEEE 754-2008, sections 3.4 and 4.3.1). */
module HalfFormat {

  // ----- Powers of two -----

  function Pow2(n: nat): (r: nat)
    ensures r >= 1
  {
    if n == 0 then 1 else 2 * Pow2(n - 1)
  }

  /** x * 2^e for any integer e, by doubling or halving. */
  function Shift(x: real, e: int): real
    decreases if e < 0 then -e else e
  {
    if e == 0 then x else if e > 0 then 2.0 * Shift(x, e - 1) else Shift(x, e + 1) / 2.0
  }

  lemma {:induction false} ShiftDouble(x: real, e: int)
    ensures Shift(2.0 * x, e) == 2.0 * Shift(x, e)
    decreases if e < 0 then -e else e
  {
    if e > 0 {
      ShiftDouble(x, e - 1);
    } else if e < 0 {
      ShiftDouble(x, e + 1);
    }
  }

  /** Moving a factor of two between the number and the exponent. */
  lemma ShiftMove(x: real, e: int)
    ensures Shift(2.0 * x, e) == Shift(x, e + 1)
  {
    ShiftDouble(x, e);
  }

  lemma {:induction false} ShiftSum(x: real, y: real, e: int)
    ensures Shift(x + y, e) == Shift(x, e) + Shift(y, e)
    ensures Shift(x - y, e) == Shift(x, e) - Shift(y, e)
    decreases if e < 0 then -e else e
  {
    if e > 0 {
      ShiftSum(x, y, e - 1);
    } else if e < 0 {
      ShiftSum(x, y, e + 1);
    }
  }

  lemma {:induction false} ShiftOrder(x: real, y: real, e: int)
    ensures x < y <==> Shift(x, e) < Shift(y, e)
    ensures x == y <==> Shift(x, e) == Shift(y, e)
    decreases if e < 0 then -e else e
  {
    if e > 0 {
      ShiftOrder(x, y, e - 1);
    } else if e < 0 {
      ShiftOrder(x, y, e + 1);
    }
  }

  lemma {:induction false} ShiftZero(e: int)
    ensures Shift(0.0, e) == 0.0
    decreases if e < 0 then -e else e
  {
    if e > 0 {
      ShiftZero(e - 1);
    } else if e < 0 {
      ShiftZero(e + 1);
    }
  }

  lemma {:induction false} ShiftTwice(x: real, e: int, f: int)
    ensures Shift(Shift(x, e), f) == Shift(x, e + f)
    decreases if f < 0 then -f else f
  {
    if f > 0 {
      ShiftTwice(x, e, f - 1);
    } else if f < 0 {
      ShiftTwice(x, e, f + 1);
    }
  }

  lemma {:induction false} ShiftExponentOrder(x: real, e: int, f: int)
    requires x >= 0.0 && e <= f
    ensures 0.0 <= Shift(x, e) <= Shift(x, f)
    decreases f - e
  {
    ShiftZero(e);
    ShiftOrder(0.0, x, e);
    if e < f {
      ShiftExponentOrder(x, e, f - 1);
    }
  }

  lemma SmallPowers()
    ensures Pow2(1) == 2 && Pow2(2) == 4 && Pow2(3) == 8 && Pow2(4) == 16
    ensures Pow2(10) == 0x400 && Pow2(11) == 0x800 && Pow2(13) == 0x2000 && Pow2(14) == 0x4000
    ensures Pow2(20) == 0x10_0000 && Pow2(23) == 0x80_0000 && Pow2(24) == 0x100_0000
  {
    assert Pow2(2) == 4 && Pow2(4) == 16 && Pow2(6) == 64 && Pow2(8) == 256 && Pow2(10) == 0x400;
    assert Pow2(12) == 0x1000 && Pow2(14) == 0x4000 && Pow2(16) == 0x1_0000 && Pow2(18) == 0x4_0000;
    assert Pow2(20) == 0x10_0000 && Pow2(22) == 0x40_0000 && Pow2(24) == 0x100_0000;
  }

  /** q * 2^e */
  function Scale(q: nat, e: nat): nat {
    if e == 0 then q else 2 * Scale(q, e - 1)
  }

  lemma {:induction false} ScaleTwice(q: nat, e: nat)
    ensures Scale(2 * q, e) == 2 * Scale(q, e)
  {
    if e > 0 {
      ScaleTwice(q, e - 1);
    }
  }

  lemma {:induction false} ScaleLess(q: nat, r: nat, e: nat)
    requires q < r
    ensures Scale(q, e) < Scale(r, e)
  {
    if e > 0 {
      ScaleLess(q, r, e - 1);
    }
  }

  lemma {:induction false} ScaleIsShift(q: nat, e: nat)
    ensures Scale(q, e) as real == Shift(q as real, e)
  {
    if e > 0 {
      ScaleIsShift(q, e - 1);
    }
  }

  // ----- Codes and magnitudes -----

  const INFINITY := 0x7C00
  const SIGN := 0x8000

  /** Magnitude from the exponent field and the fraction field. */
  function FieldsMag(e: nat, f: nat): nat {
    if e == 0 then f else Scale(0x400 + f, e - 1)
  }

  /** The magnitude of a code without sign, in units of the smallest subnormal, 2^-24. The code of
      infinity stands for 2^16, the first magnitude beyond the largest finite one. */
  function Mag(a: nat): nat {
    FieldsMag(a / 0x400, a % 0x400)
  }

  function Magnitude(a: nat): real {
    Mag(a) as real
  }

  /** The code with exponent field built from `e` and significand q of magnitude q * 2^e. */
  lemma MagOfCode(a: nat, e: nat, q: nat)
    requires a == e * 1024 + q
    requires q <= 2048 && (q >= 1024 || e == 0)
    ensures Mag(a) == Scale(q, e)
  {
    if q == 2048 {
      ScaleTwice(0x400, e);
    } else if q >= 1024 {
      var f, e1 := q - 1024, e + 1;
      assert 0x400 + f == q;
    }
  }

  /** Exponent field, 1 for subnormals too. */
  function ExpOf(a: nat): (e: int)
    ensures e >= 1
  {
    a / 0x400 + if a <= 0x3FF then 1 else 0
  }

  /** Significand with its hidden bit. */
  function SigOf(a: nat): nat {
    a % 0x400 + if a > 0x3FF then 0x400 else 0
  }

  lemma MagOfParts(a: nat)
    ensures Mag(a) == Scale(SigOf(a), ExpOf(a) - 1)
    ensures SigOf(a) < 0x800 && (SigOf(a) >= 0x400 <==> a >= 0x400) && (ExpOf(a) > 1 ==> a >= 0x400)
    ensures a > 0 ==> SigOf(a) > 0
    ensures a < INFINITY ==> ExpOf(a) <= 30
  {
  }

  lemma MagStep(a: nat)
    ensures Mag(a) < Mag(a + 1)
  {
    var e := if a < 0x400 then 0 else a / 0x400 - 1;
    var q := a - e * 1024;
    MagOfCode(a, e, q);
    MagOfCode(a + 1, e, q + 1);
    ScaleLess(q, q + 1, e);
  }

  lemma {:induction false} MagMonotone(a: nat, b: nat)
    requires a <= b
    ensures Mag(a) <= Mag(b)
    ensures a < b ==> Mag(a) < Mag(b)
    decreases b - a
  {
    if a < b {
      MagMonotone(a, b - 1);
      MagStep(b - 1);
    }
  }

  lemma ZeroMagnitude(a: nat)
    ensures Mag(a) == 0 <==> a == 0
  {
    MagMonotone(0, a);
  }

  // ----- Round to nearest, ties to even -----

  function Abs(v: real): real {
    if v < 0.0 then -v else v
  }

  /** r is the code nearest to the magnitude v; of two nearest codes it is the even one. Since
      INFINITY stands for 2^16, values from 65520 up round to it, as the standard requires. */
  ghost predicate NearestEven(v: real, r: nat) {
    && r <= INFINITY
    && forall c: nat :: c <= INFINITY ==>
         && Abs(v - Magnitude(r)) <= Abs(v - Magnitude(c))
         && (c != r && Abs(v - Magnitude(r)) == Abs(v - Magnitude(c)) ==> r % 2 == 0)
  }

  /** Rounding is monotone, and therefore its result is unique. */
  lemma NearestMonotone(v: real, w: real, r: nat, s: nat)
    requires v <= w && NearestEven(v, r) && NearestEven(w, s)
    ensures r <= s
  {
    var between := Magnitude(s + 1);
    if s < r {
      MagMonotone(s, r);
      MagStep(s);
      MagMonotone(s + 1, r);
    }
  }

  lemma NearestUnique(v: real, r: nat, s: nat)
    requires NearestEven(v, r) && NearestEven(v, s)
    ensures r == s
  {
    NearestMonotone(v, v, r, s);
    NearestMonotone(v, v, s, r);
  }

  /** Between the midpoints to its neighbours, a code is nearest. */
  lemma NearestByMidpoints(v: real, r: nat)
    requires r <= INFINITY && v >= 0.0
    requires r > 0 ==> Magnitude(r - 1) + Magnitude(r) <= 2.0 * v
    requires r > 0 && Magnitude(r - 1) + Magnitude(r) == 2.0 * v ==> r % 2 == 0
    requires r < INFINITY ==> 2.0 * v <= Magnitude(r) + Magnitude(r + 1)
    requires r < INFINITY && 2.0 * v == Magnitude(r) + Magnitude(r + 1) ==> r % 2 == 0
    ensures NearestEven(v, r)
  {
    forall c: nat | c <= INFINITY
      ensures Abs(v - Magnitude(r)) <= Abs(v - Magnitude(c))
      ensures c != r && Abs(v - Magnitude(r)) == Abs(v - Magnitude(c)) ==> r % 2 == 0
    {
      if c < r {
        MagMonotone(c, r - 1);
        MagStep(r - 1);
      } else if c > r {
        MagMonotone(r + 1, c);
        MagStep(r);
      }
    }
  }

  lemma ExactIsNearest(a: nat)
    requires a <= INFINITY
    ensures NearestEven(Magnitude(a), a)
  {
    if a > 0 {
      MagStep(a - 1);
    }
    MagStep(a);
    NearestByMidpoints(Magnitude(a), a);
  }

  lemma OverflowIsNearest(v: real)
    requires v >= Shift(1024.0, 30)
    ensures NearestEven(v, INFINITY)
  {
    MagStep(INFINITY - 1);
    MagOfCode(INFINITY, 30, 1024);
    ScaleIsShift(1024, 30);
    NearestByMidpoints(v, INFINITY);
  }

  // ----- Signed values -----

  predicate IsCode(x: nat) {
    x <= 0xFFFF
  }

  function AbsCode(x: nat): nat {
    x % SIGN
  }

  function SignOf(x: nat): nat {
    if x >= SIGN then SIGN else 0
  }

  predicate IsFinite(x: nat) {
    AbsCode(x) < INFINITY
  }

  predicate IsInfinite(x: nat) {
    AbsCode(x) == INFINITY
  }

  predicate IsNaN(x: nat) {
    AbsCode(x) > INFINITY
  }

  /** A not-a-number with its quiet bit set. */
  function Quiet(x: nat): (q: nat)
    requires IsNaN(x)
    ensures IsNaN(q) && (IsCode(x) ==> IsCode(q))
  {
    if AbsCode(x) % 0x400 >= 0x200 then x else x + 0x200
  }

  /** The not-a-number of an invalid operation. */
  const INVALID := 0x7FFF

  function Signed(sign: nat, m: int): int {
    if sign == SIGN then -m else m
  }

  /** The exact value of a finite code, in units of 2^-24. */
  function Value(x: nat): int {
    Signed(SignOf(x), Mag(AbsCode(x)))
  }

  /** r is the correctly rounded code of the nonzero exact value v. */
  ghost predicate RoundsTo(v: real, r: nat) {
    && IsCode(r)
    && NearestEven(Abs(v), AbsCode(r))
    && (v > 0.0 ==> r < SIGN)
    && (v < 0.0 ==> r >= SIGN)
  }

  lemma RoundsUnique(v: real, r: nat, s: nat)
    requires v != 0.0 && RoundsTo(v, r) && RoundsTo(v, s)
    ensures r == s
  {
    NearestUnique(Abs(v), AbsCode(r), AbsCode(s));
  }
}
