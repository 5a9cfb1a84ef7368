/** Remainders of half-precision numbers by shift and subtract: fmod and the IEEE remainder. */
module HalfMod {
  import opened HalfAdd
  import opened HalfFormat
  import opened HalfRounding
  import opened HalfUnpacking

  // ----- Quotient and remainder -----

  /** Quotient and remainder by repeated subtraction. */
  function Quot(x: nat, y: nat): nat
    requires y > 0
  {
    if x < y then 0 else 1 + Quot(x - y, y)
  }

  function Rem(x: nat, y: nat): nat
    requires y > 0
  {
    if x < y then x else Rem(x - y, y)
  }

  lemma {:induction false} QuotientUnique(x: nat, y: nat, q: nat, n: nat)
    requires x == q * y + n && n < y
    ensures q == Quot(x, y) && n == Rem(x, y)
    decreases q
  {
    if q > 0 {
      assert q * y == (q - 1) * y + y;
      QuotientUnique(x - y, y, q - 1, n);
    }
  }

  lemma {:induction false} QuotientSplits(x: nat, y: nat)
    requires y > 0
    ensures x == Quot(x, y) * y + Rem(x, y) && Rem(x, y) < y
  {
    if x >= y {
      QuotientSplits(x - y, y);
      assert Quot(x, y) * y == Quot(x - y, y) * y + y;
    }
  }

  // ----- Shift and subtract on mantissas -----

  /** The dividend equals the part already divided plus the current remainder, d places up. */
  ghost predicate Dividing(t: nat, q: nat, my: nat, mx: int, d: nat) {
    0 < mx < 2 * my && t == Scale(q * my + mx, d)
  }

  lemma DivideStep(t: nat, q: nat, my: nat, mx: int, d: nat)
    requires Dividing(t, q, my, mx, d) && mx != my && d > 0
    ensures mx >= my ==> Dividing(t, 2 * (q + 1), my, 2 * (mx - my), d - 1)
    ensures mx < my ==> Dividing(t, 2 * q, my, 2 * mx, d - 1)
  {
    ScaleTwice(q * my + mx, d - 1);
    DoubledDividend(q, my, mx);
  }

  lemma DoubledDividend(q: nat, my: nat, mx: int)
    ensures (2 * (q + 1)) * my + 2 * (mx - my) == 2 * (q * my + mx)
    ensures (2 * q) * my + 2 * mx == 2 * (q * my + mx)
  {
  }

  /** Quotient and remainder of a division. */
  ghost predicate Divided(t: nat, q: nat, my: nat, mx: int) {
    t == q * my + mx && 0 <= mx < my
  }

  lemma DivideExactly(t: nat, q: nat, my: nat, d: nat)
    requires Dividing(t, q, my, my, d)
    ensures Divided(t, (q + 1) * Pow2(d), my, 0)
  {
    ScaleIsMultiple((q + 1) * my, d);
    assert ((q + 1) * my) * Pow2(d) == ((q + 1) * Pow2(d)) * my;
  }

  /** Remainder of the aligned dividend; `odd` is the last quotient bit. The loop stops early when the
      remainder becomes zero. */
  method Divide(mx0: nat, my: nat, d0: nat) returns (mx: nat, odd: nat)
    requires 0 < mx0 < 2 * my
    ensures mx == Rem(Scale(mx0, d0), my)
    ensures mx != 0 ==> odd == Quot(Scale(mx0, d0), my) % 2
  {
    ghost var t, q: nat := Scale(mx0, d0), 0;
    var d := d0;
    mx, odd := mx0, 0;
    while d != 0
      invariant Dividing(t, q, my, mx, d) && odd == 0 && q % 2 == 0
    {
      if mx == my {
        DivideExactly(t, q, my, d);
        DividedIsRem(t, (q + 1) * Pow2(d), my, 0);
        return 0, 0;
      }
      DivideStep(t, q, my, mx, d);
      if mx >= my {
        mx, q := mx - my, q + 1;
      }
      mx, q, d := 2 * mx, 2 * q, d - 1;
    }
    mx, odd := LastDigit(t, q, my, mx);
  }

  /** The step after the loop, without a shift. */
  method LastDigit(ghost t: nat, ghost q: nat, my: nat, mx0: nat) returns (mx: nat, odd: nat)
    requires Dividing(t, q, my, mx0, 0) && q % 2 == 0
    ensures mx == Rem(t, my)
    ensures mx != 0 ==> odd == Quot(t, my) % 2
  {
    mx, odd := mx0, 0;
    if mx == my {
      DividedIsRem(t, q + 1, my, 0);
      return 0, 0;
    }
    if mx >= my {
      mx, odd := mx - my, odd + 1;
    }
    DividedIsRem(t, q + odd, my, mx);
  }

  lemma DividedIsRem(t: nat, q: nat, my: nat, mx: nat)
    requires Divided(t, q, my, mx)
    ensures my > 0 && mx == Rem(t, my) && q == Quot(t, my)
  {
    QuotientUnique(t, my, q, mx);
  }

  // ----- Remainders of codes -----

  /** Dividing the mantissas divides the magnitudes. */
  lemma DividedValue(x: nat, y: nat, my: nat, q: nat, sig: nat, d: nat, rem: nat, e: int)
    requires Scale(sig, d) == q * my + rem
    requires x as real == Shift(sig as real, e + d) && y as real == Shift(my as real, e)
    ensures x as real == q as real * y as real + Shift(rem as real, e)
  {
    WholeTimes(q, my, e, y as real, (q * my) as real);
    DividedShift(x, sig, d, (q * my) as real, rem as real, e);
  }

  lemma WholeTimes(q: nat, my: nat, e: int, y: real, p: real)
    requires y == Shift(my as real, e) && p == (q * my) as real
    ensures q as real * y == Shift(p, e)
  {
    ProductAsReal(q, my);
    ProductShift(q as real, my as real, e, p);
  }

  lemma DividedShift(x: nat, sig: nat, d: nat, p: real, rem: real, e: int)
    requires Scale(sig, d) as real == p + rem && x as real == Shift(sig as real, e + d)
    ensures x as real == Shift(p, e) + Shift(rem, e)
  {
    ScaleIsShift(sig, d);
    ShiftTwice(sig as real, d, e);
    ShiftSum(p, rem, e);
  }

  lemma QuotientAndRemainder(x: nat, y: nat, q: nat, r: real)
    requires y > 0 && x as real == q as real * y as real + r && 0.0 <= r < y as real
    ensures q == Quot(x, y) && r == Rem(x, y) as real
  {
    var n := x - q * y;
    assert n as real == r;
    QuotientUnique(x, y, q, n);
  }

  /** A code from a mantissa that is exact at its exponent. */
  method Denormalize(m0: nat, exp0: int, ghost rem: nat) returns (r: nat)
    requires 0 < m0 < 0x800 && -9 <= exp0 <= 30
    requires Shift(m0 as real, exp0 - 1) == rem as real
    ensures Mag(r) == rem && r < INFINITY
  {
    var mx, exp := m0, exp0;
    while mx < 0x400
      invariant 0 < mx < 0x800 && exp <= 30
      invariant Shift(mx as real, exp - 1) == rem as real
      decreases 0x400 - mx
    {
      ShiftMove(mx as real, exp - 2);
      mx, exp := 2 * mx, exp - 1;
    }
    if exp > 0 {
      r := exp * 0x400 + mx % 0x400;
      MagOfCode(r, exp - 1, mx);
      ScaleIsShift(mx, exp - 1);
    } else {
      r := Shr(mx, 1 - exp);
      ExactShr(mx, 1 - exp, rem);
    }
  }

  /** Shifting out only zeros. */
  lemma ExactShr(m: nat, k: nat, q: nat)
    requires k >= 1 && m < 0x800 && Shift(m as real, 0 - k) == q as real
    ensures Shr(m, k) == q < 0x400
  {
    ShiftBetween(m, k);
    ShrDecreases(m, 1, k);
  }

  /** What the mantissas' quotient and remainder mean for the magnitudes x and y. */
  lemma Reduced(x: nat, sx: nat, y: nat, sy: nat, e: int, d: nat, q: nat, mx: nat)
    requires x as real == Shift(sx as real, e + d) && y as real == Shift(sy as real, e) && y > 0
    requires Divided(Scale(sx, d), q, sy, mx)
    ensures q == Quot(x, y) && Shift(mx as real, e) == Rem(x, y) as real
    ensures (mx == 0 <==> Rem(x, y) == 0) && Rem(x, y) < y
  {
    var r := Shift(mx as real, e);
    DividedValue(x, y, sy, q, sx, d, mx, e);
    ShiftOrder(mx as real, sy as real, e);
    ShiftZero(e);
    ShiftOrder(0.0, mx as real, e);
    QuotientAndRemainder(x, y, q, r);
    QuotientSplits(x, y);
  }

  lemma SmallerMagnitude(a: nat, b: nat)
    requires Mag(a) < Mag(b)
    ensures a < b
  {
    if b <= a {
      MagMonotone(b, a);
    }
  }

  /** The remainder of a larger by a smaller code, and the last bit of the quotient. */
  method Reduce(x: nat, y: nat) returns (r: nat, odd: nat)
    requires 0 < y < x < INFINITY
    ensures Mag(y) > 0 && Mag(r) == Rem(Mag(x), Mag(y)) && r < y
    ensures r != 0 ==> odd == Quot(Mag(x), Mag(y)) % 2
  {
    var sx, ex := Normalize(x);
    var sy, ey := Normalize(y);
    UnpackedOrder(y, sy, ey, x, sx, ex);
    var mx;
    mx, odd := Divide(sx, sy, ex - ey);
    ZeroMagnitude(y);
    QuotientSplits(Scale(sx, ex - ey), sy);
    Reduced(Mag(x), sx, Mag(y), sy, ey - 1, ex - ey, Quot(Scale(sx, ex - ey), sy), mx);
    r := 0;
    if mx != 0 {
      r := Denormalize(mx, ey, Rem(Mag(x), Mag(y)));
    }
    SmallerMagnitude(r, y);
  }

  // ----- The signed remainder -----

  /** The remainder of least magnitude, with the even quotient on a tie. */
  function NearestRemainder(x: nat, y: nat): int
    requires y > 0
  {
    var q, r := Quot(x, y), Rem(x, y);
    if 2 * r > y || (2 * r == y && q % 2 == 1) then r - y else r
  }

  /** The definition of the remainder: x less n times y, at most half of y, n even on a tie. */
  ghost predicate IeeeRemainder(x: int, y: int, n: int, r: int) {
    && x == n * y + r
    && -y <= 2 * r <= y
    && (2 * r == y || 2 * r == -y ==> n % 2 == 0)
  }

  lemma NearestRemainderIsRemainder(x: nat, y: nat)
    requires y > 0
    ensures var q := Quot(x, y); var n := if NearestRemainder(x, y) < Rem(x, y) then q + 1 else q;
            IeeeRemainder(x, y, n, NearestRemainder(x, y))
  {
    QuotientSplits(x, y);
    NextMultiple(Quot(x, y), y);
  }

  lemma RemainderUnique(x: int, y: int, n: int, r: int, m: int, s: int)
    requires y > 0 && IeeeRemainder(x, y, n, r) && IeeeRemainder(x, y, m, s)
    ensures n == m && r == s
  {
    var d := n - m;
    assert d * y == n * y - m * y == s - r;
    MultipleBounds(d - 1, y);
    MultipleBounds(d + 1, y);
    assert (d - 1) * y == d * y - y && (d + 1) * y == d * y + y;
    assert -1 <= d <= 1;
  }

  /** The code comparison for 2 * x against y. */
  lemma DoubledComparison(x: nat, y: nat)
    requires x < y < INFINITY
    ensures var a, b := DoubledCode(x, y), HalvedCode(y);
            && (a > b <==> 2 * Mag(x) > Mag(y))
            && (a == b <==> 2 * Mag(x) == Mag(y))
  {
    var a, b := DoubledCode(x, y), HalvedCode(y);
    if y < 0x800 {
      DoubledMag(x);
    } else {
      HalvedMag(y);
    }
    MagMonotone(Smaller(a, b), Larger(a, b));
  }

  function DoubledCode(x: nat, y: nat): nat {
    if y < 0x800 then if x < 0x400 then 2 * x else x + 0x400 else x
  }

  function HalvedCode(y: nat): nat {
    if y < 0x800 then y else y - 0x400
  }

  lemma DoubledMag(x: nat)
    requires x < 0x800
    ensures Mag(if x < 0x400 then 2 * x else x + 0x400) == 2 * Mag(x)
  {
    if x < 0x400 {
      MagOfCode(2 * x, 0, 2 * x);
    } else {
      MagOfCode(x + 0x400, 1, x);
    }
    MagOfCode(x, 0, x);
  }

  lemma HalvedMag(y: nat)
    requires y >= 0x800
    ensures 2 * Mag(y - 0x400) == Mag(y)
  {
    var e := y / 0x400 - 1;
    MagOfCode(y, e, y - e * 1024);
    MagOfCode(y - 0x400, e - 1, y - e * 1024);
  }

  /** Twice the difference of the significands, in units of the divisor's exponent. */
  function DifferenceSig(x: nat, y: nat): int
    requires ExpOf(y) - 1 <= ExpOf(x) <= ExpOf(y)
  {
    2 * SigOf(y) - if ExpOf(x) == ExpOf(y) then 2 * SigOf(x) else SigOf(x)
  }

  lemma DifferenceValue(x: nat, y: nat)
    requires ExpOf(y) - 1 <= ExpOf(x) <= ExpOf(y)
    ensures Shift(DifferenceSig(x, y) as real, ExpOf(y) - 2) == Magnitude(y) - Magnitude(x)
  {
    var s, t, e := SigOf(x), SigOf(y), ExpOf(y) - 2;
    DoubledSignificand(x);
    DoubledSignificand(y);
    if ExpOf(x) == ExpOf(y) {
      ShiftSum((2 * t) as real, (2 * s) as real, e);
    } else {
      ShiftMove(s as real, e - 1);
      ShiftSum((2 * t) as real, s as real, e);
    }
  }

  lemma DoubledSignificand(a: nat)
    ensures Magnitude(a) == Shift((2 * SigOf(a)) as real, ExpOf(a) - 2)
  {
    MagOfParts(a);
    ScaleIsShift(SigOf(a), ExpOf(a) - 1);
    ShiftMove(SigOf(a) as real, ExpOf(a) - 2);
  }

  /** The code, with sign, of a remainder minus the divisor. */
  method Complement(x: nat, y: nat) returns (r: nat)
    requires x < y < INFINITY && DoubledCode(x, y) >= HalvedCode(y)
    ensures SIGN < r < SIGN + INFINITY && Mag(r - SIGN) == Mag(y) - Mag(x)
  {
    DifferenceValue(x, y);
    var exp, m := ExpOf(y), DifferenceSig(x, y);
    ghost var v := Magnitude(y) - Magnitude(x);
    while m < 0x800 && exp > 1
      invariant 0 < m < 0x1000 && 1 <= exp <= 30 && Shift(m as real, exp - 2) == v
      invariant m % 2 == 0 || (m < 0x800 && exp > 1)
      decreases exp
    {
      ShiftMove(m as real, exp - 3);
      m, exp := 2 * m, exp - 1;
    }
    var c := (exp - 1) * 0x400 + m / 2;
    HalvedCodeMag(m, exp, c, Mag(y) - Mag(x));
    r := SIGN + c;
  }

  /** Packing an even doubled significand gives the code of its value. */
  lemma HalvedCodeMag(m: int, exp: int, c: nat, v: int)
    requires 0 < m < 0x1000 && m % 2 == 0 && 1 <= exp <= 30 && (m >= 0x800 || exp == 1)
    requires c == (exp - 1) * 0x400 + m / 2 && Shift(m as real, exp - 2) == v as real
    ensures Mag(c) == v && 0 < c < INFINITY
  {
    var h := m / 2;
    MagOfCode(c, exp - 1, h);
    ScaleIsShift(h, exp - 1);
    ShiftMove(h as real, exp - 2);
    assert m as real == 2.0 * h as real;
  }

  // ----- The operations -----

  lemma RemOfSelf(y: nat)
    requires y > 0
    ensures Rem(y, y) == 0 && NearestRemainder(y, y) == 0
  {
    QuotientUnique(y, y, 1, 0);
  }

  /** What the second half of the operation does to a reduced dividend. */
  method MakeNearest(x: nat, y: nat, odd: nat, ghost q: nat) returns (r: nat)
    requires x < y < INFINITY && (x != 0 ==> odd == q % 2)
    ensures IsCode(r) && IsFinite(r) && r != SIGN
    ensures var s, t := Mag(x), Mag(y); Value(r) == if 2 * s > t || (2 * s == t && q % 2 == 1) then s - t else s
  {
    DoubledComparison(x, y);
    ZeroMagnitude(x);
    ZeroMagnitude(y);
    var a, b := DoubledCode(x, y), HalvedCode(y);
    if a > b || (a == b && odd == 1) {
      r := Complement(x, y);
      SignedCode(r - SIGN);
    } else {
      r := x;
      SignedCode(x);
    }
  }

  lemma SignedCode(c: nat)
    requires c < INFINITY
    ensures IsCode(c) && IsFinite(c) && Value(c) == Mag(c)
    ensures IsCode(SIGN + c) && IsFinite(SIGN + c) && Value(SIGN + c) == -(Mag(c) as int)
  {
    assert AbsCode(c) == c && AbsCode(SIGN + c) == c;
    assert SignOf(c) == 0 && SignOf(SIGN + c) == SIGN;
  }

  /** Positive remainder, or with `signed` the nearest one, of distinct positive codes. */
  method Mod(x0: nat, y: nat, signed: bool) returns (r: nat)
    requires x0 < INFINITY && 0 < y < INFINITY && x0 != y
    ensures IsCode(r) && IsFinite(r) && Mag(y) > 0
    ensures !signed ==> r < SIGN && Mag(r) == Rem(Mag(x0), Mag(y))
    ensures signed ==> r != SIGN && Value(r) == NearestRemainder(Mag(x0), Mag(y))
  {
    var q := 0;
    r := x0;
    ZeroMagnitude(y);
    if x0 > y {
      r, q := Reduce(x0, y);
    } else {
      MagMonotone(x0, y);
    }
    if signed {
      r := MakeNearest(r, y, q, Quot(Mag(x0), Mag(y)));
    }
  }

  /** ISO C11, section 7.12.10.1: x - n * y with the sign of x and magnitude less than y's. */
  ghost predicate IsFmod(x: nat, y: nat, r: nat) {
    if IsNaN(x) || IsNaN(y) || IsInfinite(x) || AbsCode(y) == 0 then IsNaN(r)
    else if IsInfinite(y) then r == x
    else IsFiniteFmod(x, AbsCode(x), AbsCode(y), r)
  }

  ghost predicate IsFiniteFmod(x: nat, absx: nat, absy: nat, r: nat) {
    && Mag(absy) > 0 && IsCode(r) && IsFinite(r)
    && SignOf(r) == SignOf(x)
    && Mag(AbsCode(r)) == Rem(Mag(absx), Mag(absy))
  }

  method Fmod(x: nat, y: nat) returns (r: nat)
    requires IsCode(x) && IsCode(y)
    ensures IsFmod(x, y, r)
  {
    var absx, absy := AbsCode(x), AbsCode(y);
    if absx >= INFINITY || absy >= INFINITY {
      return if absx > INFINITY then Quiet(x) else if absy > INFINITY then Quiet(y)
        else if absx == INFINITY then INVALID else x;
    }
    if absy == 0 {
      return INVALID;
    }
    r := FmodFinite(x, absx, absy);
  }

  method FmodFinite(x: nat, absx: nat, absy: nat) returns (r: nat)
    requires IsCode(x) && absx == AbsCode(x) < INFINITY && 0 < absy < INFINITY
    ensures IsFiniteFmod(x, absx, absy, r)
  {
    var sign := SignOf(x);
    ZeroMagnitude(absy);
    ZeroMagnitude(0);
    WithSign(absx, sign);
    if absx == 0 {
      return x;
    }
    if absx == absy {
      RemOfSelf(Mag(absy));
      WithSign(0, sign);
      return sign;
    }
    r := Mod(absx, absy, false);
    WithSign(r, sign);
    r := sign + r;
  }

  lemma WithSign(c: nat, sign: nat)
    requires c < INFINITY && (sign == 0 || sign == SIGN)
    ensures var r := sign + c; IsCode(r) && IsFinite(r) && SignOf(r) == sign && AbsCode(r) == c
  {
  }

  /** IEEE 754-2008, section 5.3.1: the remainder nearest to zero; a zero has the sign of x. */
  ghost predicate IsRemainder(x: nat, y: nat, r: nat) {
    if IsNaN(x) || IsNaN(y) || IsInfinite(x) || AbsCode(y) == 0 then IsNaN(r)
    else if IsInfinite(y) then r == x
    else IsFiniteRemainder(x, AbsCode(x), AbsCode(y), r)
  }

  ghost predicate IsFiniteRemainder(x: nat, absx: nat, absy: nat, r: nat) {
    && Mag(absy) > 0 && IsCode(r) && IsFinite(r)
    && Value(r) == Signed(SignOf(x), NearestRemainder(Mag(absx), Mag(absy)))
    && (AbsCode(r) == 0 ==> SignOf(r) == SignOf(x))
  }

  /** x ^ sign */
  function FlipSign(x: nat, sign: nat): nat
    requires sign == 0 || sign == SIGN
  {
    if sign == 0 then x else if x >= SIGN then x - SIGN else x + SIGN
  }

  method Remainder(x: nat, y: nat) returns (r: nat)
    requires IsCode(x) && IsCode(y)
    ensures IsRemainder(x, y, r)
  {
    var absx, absy := AbsCode(x), AbsCode(y);
    if absx >= INFINITY || absy >= INFINITY {
      return if absx > INFINITY then Quiet(x) else if absy > INFINITY then Quiet(y)
        else if absx == INFINITY then INVALID else x;
    }
    if absy == 0 {
      return INVALID;
    }
    r := RemainderFinite(x, absx, absy);
  }

  method RemainderFinite(x: nat, absx: nat, absy: nat) returns (r: nat)
    requires IsCode(x) && absx == AbsCode(x) < INFINITY && 0 < absy < INFINITY
    ensures IsFiniteRemainder(x, absx, absy, r)
  {
    var sign := SignOf(x);
    ZeroMagnitude(absy);
    if absx == absy {
      RemOfSelf(Mag(absy));
      ZeroMagnitude(0);
      return sign;
    }
    r := Mod(absx, absy, true);
    Flipped(r, sign);
    r := FlipSign(r, sign);
  }

  lemma Flipped(r: nat, sign: nat)
    requires IsCode(r) && IsFinite(r) && r != SIGN && (sign == 0 || sign == SIGN)
    ensures var f := FlipSign(r, sign);
            && IsCode(f) && IsFinite(f) && Value(f) == Signed(sign, Value(r))
            && (AbsCode(f) == 0 ==> SignOf(f) == sign)
  {
    assert AbsCode(FlipSign(r, sign)) == AbsCode(r);
  }

  /** The remainder of finite codes differs from the dividend by an integer multiple of the divisor
      and is at most half of it, the multiple being even on a tie. */
  lemma RemainderMeaning(x: nat, y: nat, r: nat)
    requires IsFinite(x) && IsFinite(y) && AbsCode(y) != 0 && IsRemainder(x, y, r)
    ensures exists n: int :: IeeeRemainder(Value(x), Mag(AbsCode(y)), n, Value(r))
  {
    var a, b := Mag(AbsCode(x)), Mag(AbsCode(y));
    var n := NearestRemainderExists(a, b);
    IeeeRemainderSigned(SignOf(x), a, b, n, NearestRemainder(a, b));
    assert IeeeRemainder(Value(x), b, Signed(SignOf(x), n), Value(r));
  }

  lemma NearestRemainderExists(x: nat, y: nat) returns (n: int)
    requires y > 0
    ensures IeeeRemainder(x, y, n, NearestRemainder(x, y))
  {
    NearestRemainderIsRemainder(x, y);
    n := if NearestRemainder(x, y) < Rem(x, y) then Quot(x, y) + 1 else Quot(x, y);
  }

  lemma IeeeRemainderSigned(sign: nat, x: int, y: int, n: int, r: int)
    requires IeeeRemainder(x, y, n, r)
    ensures IeeeRemainder(Signed(sign, x), y, Signed(sign, n), Signed(sign, r))
  {
    assert (-n) * y == -(n * y);
  }

  /** The fmod of finite codes differs from the dividend by an integer multiple of the divisor, is
      smaller than the divisor and has the sign of the dividend. */
  lemma FmodMeaning(x: nat, y: nat, r: nat)
    requires IsFinite(x) && IsFinite(y) && AbsCode(y) != 0 && IsFmod(x, y, r)
    ensures exists n: int :: DiffersBy(Value(x), Mag(AbsCode(y)), n, Value(r))
    ensures Mag(AbsCode(r)) < Mag(AbsCode(y)) && SignOf(r) == SignOf(x)
  {
    var a, b := Mag(AbsCode(x)), Mag(AbsCode(y));
    var n: int := Quot(a, b);
    QuotientSplits(a, b);
    DiffersSigned(SignOf(x), a, b, n, Rem(a, b));
    assert DiffersBy(Value(x), b, Signed(SignOf(x), n), Value(r));
  }

  lemma DiffersSigned(sign: nat, x: int, y: int, n: int, r: int)
    requires DiffersBy(x, y, n, r)
    ensures DiffersBy(Signed(sign, x), y, Signed(sign, n), Signed(sign, r))
  {
    assert (-n) * y == -(n * y);
  }

  ghost predicate DiffersBy(x: int, y: int, n: int, r: int) {
    x == n * y + r
  }
}
