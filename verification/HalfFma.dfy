/** Fused multiply-add of half-precision numbers: the exact product and the addend meet as 24-bit
    mantissas, and only the final result is rounded. */
module HalfFma {
  import opened HalfAdd
  import opened HalfFormat
  import opened HalfRounding
  import opened HalfUnpacking

  // ----- Mantissas of 24 bits -----

  predicate Full(m: nat) {
    0x80_0000 <= m < 0x100_0000
  }

  lemma RightFactor(x: real, y: real, f: int, b: real, p: real, t: real)
    requires b == Shift(y, f) && p == x * y && t == Shift(p, f)
    ensures x * b == t
  {
    ProductShift(x, y, f, p);
  }

  lemma LeftFactor(a: real, x: real, e: int, b: real, t: real, r: real)
    requires a == Shift(x, e) && t == x * b && r == Shift(t, e)
    ensures a * b == r
  {
    ShiftProduct(x, e, b, t);
  }

  lemma BothFactors(a: real, x: real, e: int, b: real, y: real, f: int, p: real, v: real)
    requires a == Shift(x, e) && b == Shift(y, f) && p == x * y && v == a * b
    ensures v == Shift(Shift(p, f), e)
  {
    RightFactor(x, y, f, b, p, Shift(p, f));
    LeftFactor(a, x, e, b, Shift(p, f), Shift(Shift(p, f), e));
  }

  lemma WholeFactors(a: nat, x: nat, e: int, b: nat, y: nat, f: int, p: real, v: real)
    requires a as real == Shift(x as real, e) && b as real == Shift(y as real, f)
    requires p == (x * y) as real && v == (a * b) as real
    ensures v == Shift(Shift(p, f), e)
  {
    ProductAsReal(x, y);
    ProductAsReal(a, b);
    BothFactors(a as real, x as real, e, b as real, y as real, f, p, v);
  }

  lemma FactorsShifted(a: nat, x: nat, e: int, b: nat, y: nat, f: int, p: real, v: real)
    requires a as real == Shift(x as real, e) && b as real == Shift(y as real, f)
    requires p == (x * y) as real && v == (a * b) as real
    ensures Shift(v, -24) == Shift(p, e + f - 24)
  {
    WholeFactors(a, x, e, b, y, f, p, v);
    ShiftTwice(p, f, e);
    ShiftTwice(p, f + e, -24);
  }

  /** A product of shifted numbers, in units of 2^-24. */
  lemma ShiftedProduct(a: nat, x: nat, e: int, b: nat, y: nat, f: int)
    requires a as real == Shift(x as real, e) && b as real == Shift(y as real, f)
    ensures Shift((a * b) as real, -24) == Shift((x * y) as real, e + f - 24)
  {
    FactorsShifted(a, x, e, b, y, f, (x * y) as real, (a * b) as real);
  }

  lemma ProductOrder(a: nat, b: nat, c: nat)
    requires a <= b
    ensures a * c <= b * c
  {
  }

  lemma ProductBits(sx: nat, sy: nat)
    requires 0x400 <= sx < 0x800 && 0x400 <= sy < 0x800
    ensures 0x10_0000 <= sx * sy < 0x40_0000
  {
    ProductOrder(0x400, sx, sy);
    ProductOrder(sx, 0x7FF, sy);
  }

  /** Two spare bits. */
  predicate Spare(m: nat) {
    m % 4 == 0 && m % 2 == 0
  }

  /** Left shifts do not change the value. */
  lemma Widened(m: nat, k: nat, e: int)
    ensures Shift(Scale(m, k) as real, e - k) == Shift(m as real, e)
  {
    ScaleIsShift(m, k);
    ShiftTwice(m as real, k, e - k);
  }

  lemma FourAndEight(p: nat)
    ensures Scale(p, 2) == 4 * p && Scale(p, 3) == 8 * p
  {
    assert Scale(p, 1) == 2 * p;
  }

  lemma WidenedRange(p: nat, m: nat)
    requires 0x10_0000 <= p < 0x40_0000 && m == if p < 0x20_0000 then 8 * p else 4 * p
    ensures Full(m) && Spare(m)
  {
  }

  lemma WidenedProduct(p: nat, k: nat, e: int)
    requires 0x10_0000 <= p < 0x40_0000 && k == if p < 0x20_0000 then 3 else 2
    ensures var m := Scale(p, k); Full(m) && Spare(m) && Shift(m as real, e - k) == Shift(p as real, e)
  {
    Widened(p, k, e);
    FourAndEight(p);
    WidenedRange(p, Scale(p, k));
  }

  method Multiply(ax: nat, ay: nat) returns (m: nat, exp: int)
    requires 0 < ax < INFINITY && 0 < ay < INFINITY
    ensures Full(m) && Spare(m) && -33 <= exp <= 46
    ensures Shift(m as real, exp - 14) == Shift((Mag(ax) * Mag(ay)) as real, -24)
  {
    var sx, ex := Normalize(ax);
    var sy, ey := Normalize(ay);
    var i;
    m, i := WidenProduct(sx, sy, ex + ey - 26);
    exp := -15 + ex + ey + i;
    ShiftedProduct(Mag(ax), sx, ex - 1, Mag(ay), sy, ey - 1);
  }

  /** The product of two significands, normalised to 24 bits; i is 1 if it has the larger of its two
      possible lengths. */
  method WidenProduct(sx: nat, sy: nat, ghost e: int) returns (m: nat, i: nat)
    requires 0x400 <= sx < 0x800 && 0x400 <= sy < 0x800
    ensures Full(m) && Spare(m) && i <= 1 && Shift(m as real, e + i - 3) == Shift((sx * sy) as real, e)
  {
    var p := sx * sy;
    ProductBits(sx, sy);
    i := p / 0x20_0000;
    m := Scale(p, 3 - i);
    WidenedProduct(p, 3 - i, e);
  }

  method Widen(az: nat) returns (m: nat, exp: int)
    requires 0 < az < INFINITY
    ensures Full(m) && Spare(m) && -9 <= exp <= 30
    ensures Shift(m as real, exp - 14) == Magnitude(az)
  {
    var sz, ez := Normalize(az);
    exp := ez;
    m := Scale(sz, 13);
    Widened(sz, 13, ez - 1);
    WidenedAddend(sz);
  }

  lemma WidenedAddend(sz: nat)
    requires 0x400 <= sz < 0x800
    ensures Full(Scale(sz, 13)) && Spare(Scale(sz, 13))
  {
    ScaleIsMultiple(sz, 13);
    SmallPowers();
  }

  // ----- Adding full mantissas -----

  /** Aligning a full mantissa by d places: exact for the two spare bits, and otherwise far below
      the larger mantissa. */
  lemma AlignedMantissa(m: nat, d: nat, k: nat)
    requires Full(m) && Spare(m)
    requires k == if d < 23 then StickyShr(m, d) else 1
    ensures Approx(Shift(m as real, 0 - d), k, 1)
    ensures Shift(m as real, 0 - d) == k as real || k <= 0x20_0000
    ensures k < 0x100_0000
  {
    if d < 23 {
      if d <= 2 {
        FewBits(m, d);
      } else {
        ManyBits(m, d);
      }
      StickyShrApproximates(m, d);
    } else {
      ShrDecreases(m, 23, d);
      ShrIsDivision(m, 23);
      SmallPowers();
      ShiftedOut(m, d);
    }
  }

  lemma FewBits(m: nat, d: nat)
    requires Spare(m) && d <= 2
    ensures !AnyBelow(m, d) && StickyShr(m, d) <= m
  {
    assert Scale(m / 4, 2) == 2 * Scale(m / 4, 1) == m;
    ShrOfScale(m / 4, 2, d);
    ShrDecreases(m, 0, d);
  }

  lemma ManyBits(m: nat, d: nat)
    requires m < 0x100_0000 && d >= 3
    ensures StickyShr(m, d) <= 0x20_0000
  {
    ShrDecreases(m, 3, d);
    ShrIsDivision(m, 3);
    SmallPowers();
  }

  /** v is the exact magnitude, x its exact mantissa at exponent exp, m the computed one. */
  ghost predicate Tracked(x: real, m: int, u: int, exp: int, v: real) {
    && 0 < m < 0x100_0000 && Approx(x, m, u) && v == Shift(x, exp - 14)
    && (x == m as real || (u == 1 && m >= 0x40_0000) || m >= 0x80_0000)
  }

  /** The mantissa m at exponent exp stands for the exact magnitude v. */
  ghost predicate Represents(m: nat, exp: int, v: real) {
    Full(m) && exists x: real, u: int :: Tracked(x, m, u, exp, v)
  }

  /** The exact mantissa of the smaller operand on the larger one's scale. */
  lemma CommonScale(mz: nat, exp: int, expz: int)
    requires expz <= exp
    ensures Shift(Shift(mz as real, expz - exp), exp - 14) == Shift(mz as real, expz - 14)
  {
    ShiftTwice(mz as real, expz - exp, exp - 14);
  }

  method Subtract(m0: nat, exp0: int, k: nat, ghost y: real) returns (m: nat, exp: int)
    requires Full(m0) && Spare(m0) && Approx(y, k, 1) && k < 0x100_0000
    requires y <= m0 as real && (y == k as real || k <= 0x20_0000)
    ensures m == 0 <==> y == m0 as real
    ensures m != 0 ==> Represents(m, exp, Shift(m0 as real - y, exp0 - 14))
  {
    ghost var v := Shift(m0 as real - y, exp0 - 14);
    ghost var x, u := m0 as real - y, 1;
    TrackStart(m0, exp0, k, y);
    exp := exp0;
    var diff := m0 - k;
    if diff == 0 {
      return 0, exp;
    }
    while diff < 0x80_0000
      invariant Tracked(x, diff, u, exp, v)
      decreases 0x80_0000 - diff
    {
      TrackDouble(x, diff, u, exp, v);
      x, u := 2.0 * x, if u == 1 then 2 else 1;
      diff, exp := 2 * diff, exp - 1;
    }
    m := diff;
  }

  lemma TrackStart(m: nat, exp: int, k: nat, y: real)
    requires Full(m) && Spare(m) && Approx(y, k, 1) && k < 0x100_0000
    requires y <= m as real && (y == k as real || k <= 0x20_0000)
    ensures m == k <==> y == m as real
    ensures m != k ==> Tracked(m as real - y, m - k, 1, exp, Shift(m as real - y, exp - 14))
  {
    ApproxCombined(m, y, k);
  }

  lemma TrackDouble(x: real, m: int, u: int, exp: int, v: real)
    requires Tracked(x, m, u, exp, v) && m < 0x80_0000
    ensures Tracked(2.0 * x, 2 * m, if u == 1 then 2 else 1, exp - 1, v)
  {
    ShiftMove(x, exp - 15);
    ApproxDouble(x, m, u);
  }

  method Sum(m0: nat, exp0: int, k: nat, ghost y: real) returns (m: nat, exp: int)
    requires Full(m0) && Spare(m0) && Approx(y, k, 1) && k < 0x100_0000
    ensures Represents(m, exp, Shift(m0 as real + y, exp0 - 14))
  {
    ApproxCombined(m0, y, k);
    exp, m := exp0, m0 + k;
    CarriedSum(m0 as real + y, m, exp);
    var i := m / 0x100_0000;
    m := StickyShr(m, i);
    exp := exp + i;
  }

  lemma CarriedSum(x: real, m: nat, exp: int)
    requires Approx(x, m, 1) && 0x80_0000 <= m < 0x200_0000
    ensures var i := m / 0x100_0000; Represents(StickyShr(m, i), exp + i, Shift(x, exp - 14))
  {
    var v := Shift(x, exp - 14);
    if m < 0x100_0000 {
      assert StickyShr(m, 0) == m;
      assert Tracked(x, m, 1, exp, v);
    } else {
      CarryTracked(x, m, exp - 14);
      assert Tracked(x / 2.0, StickyShr(m, 1), 1, exp + 1, v);
    }
  }

  /** A carry out of the mantissa moves one bit into the sticky position. */
  lemma CarryTracked(x: real, m: nat, e: int)
    requires Approx(x, m, 1) && 0x100_0000 <= m < 0x200_0000
    ensures Approx(x / 2.0, StickyShr(m, 1), 1) && Shift(x, e) == Shift(x / 2.0, e + 1)
    ensures Full(StickyShr(m, 1))
  {
    HalveApproximates(x, m);
    ShiftMove(x / 2.0, e);
    assert Shr(m, 1) == m / 2;
  }

  // ----- The final rounding -----

  lemma NormalFixed(m: nat, exp: int, x: real, u: int, v: real)
    requires Full(m) && 0 <= exp <= 29 && Approx(x, m, u) && v == Shift(x, exp - 13)
    ensures NearestEven(v, RoundedCode(m, 13, exp))
  {
    ShrIsDivision(m, 13);
    SmallPowers();
    RoundedCodeIsNearest(x, m, u, 13, exp, v);
  }

  lemma SubnormalFixed(m: nat, exp: int, x: real, u: int, v: real)
    requires Full(m) && -11 <= exp < 0 && Approx(x, m, u) && v == Shift(x, exp - 13)
    ensures NearestEven(v, RoundedCode(m, 13 - exp, 0))
  {
    SubnormalCut(m, 13 - exp);
    RoundedCodeIsNearest(x, m, u, 13 - exp, 0, v);
  }

  lemma SubnormalCut(m: nat, k: nat)
    requires Full(m) && k >= 14
    ensures Shr(m, k) <= 2047
  {
    ShrDecreases(m, 14, k);
    ShrIsDivision(m, 14);
    SmallPowers();
  }

  /** Fixed-point mantissa with 23 fractional bits to a code; a negative exponent cuts more bits. */
  method Fixed2Half(m: nat, exp: int, ghost x: real, ghost u: int) returns (r: nat)
    requires Full(m) && -11 <= exp <= 29 && Approx(x, m, u)
    ensures NearestEven(Shift(x, exp - 13), r)
  {
    ghost var v := Shift(x, exp - 13);
    if exp < 0 {
      SubnormalFixed(m, exp, x, u, v);
      return RoundedCode(m, 13 - exp, 0);
    }
    NormalFixed(m, exp, x, u, v);
    r := RoundedCode(m, 13, exp);
  }

  /** Adds or subtracts the smaller mantissa, aligned to the larger one. */
  method Combine(m0: nat, exp0: int, mz: nat, expz: int, sub: bool) returns (m: nat, exp: int)
    requires Full(m0) && Full(mz) && Spare(m0) && Spare(mz)
    requires expz < exp0 || (expz == exp0 && mz <= m0)
    ensures var p, q := Shift(m0 as real, exp0 - 14), Shift(mz as real, expz - 14);
            && (m == 0 <==> sub && p == q)
            && (m != 0 ==> Represents(m, exp, if sub then p - q else p + q))
  {
    var d := exp0 - expz;
    var k := if d < 23 then StickyShr(mz, d) else 1;
    ghost var y := Shift(mz as real, expz - exp0);
    AlignedMantissa(mz, d, k);
    CommonScale(mz, exp0, expz);
    ShiftSum(m0 as real, y, exp0 - 14);
    if sub {
      ShiftExponentOrder(mz as real, expz - exp0, 0);
      if d > 0 {
        ShiftExponentOrder(mz as real, expz - exp0, -1);
      }
      ShiftOrder(m0 as real, y, exp0 - 14);
      m, exp := Subtract(m0, exp0, k, y);
    } else {
      m, exp := Sum(m0, exp0, k, y);
    }
  }

  /** Overflow, underflow to zero, or rounding. */
  method Finish(m: nat, exp: int, ghost v: real) returns (r: nat)
    requires Represents(m, exp, v)
    ensures v > 0.0 && NearestEven(v, r)
  {
    ghost var x, u :| Tracked(x, m, u, exp, v);
    ShiftZero(exp - 14);
    ShiftOrder(0.0, x, exp - 14);
    SmallPowers();
    if exp > 30 {
      LargeOverflows(x, exp - 14, 13, v);
      return INFINITY;
    } else if exp < -10 {
      SmallUnderflows(x, exp - 14, 24, v);
      return 0;
    }
    r := Fixed2Half(m, exp - 1, x, u);
  }

  // ----- The operation -----

  /** x * y + z exactly, in units of 2^-48. */
  function ExactFma(x: nat, y: nat, z: nat): int {
    Value(x) * Value(y) + 0x100_0000 * Value(z)
  }

  function ProductSign(x: nat, y: nat): nat {
    if SignOf(x) != SignOf(y) then SIGN else 0
  }

  /** What a fused multiply-add must be (IEEE 754-2008, sections 5.4.1, 6.2, 6.3 and 7.2). */
  ghost predicate IsFma(x: nat, y: nat, z: nat, r: nat) {
    if IsNaN(x) || IsNaN(y) || IsNaN(z) then IsNaN(r)
    else if IsInfinite(x) || IsInfinite(y) then
      if AbsCode(x) == 0 || AbsCode(y) == 0 || (IsInfinite(z) && SignOf(z) != ProductSign(x, y)) then IsNaN(r)
      else r == ProductSign(x, y) + INFINITY
    else if IsInfinite(z) then r == z
    else IsFiniteFma(x, y, z, r)
  }

  ghost predicate IsFiniteFma(x: nat, y: nat, z: nat, r: nat) {
    if ExactFma(x, y, z) == 0 then r == if z == SIGN && ProductSign(x, y) == SIGN then SIGN else 0
    else RoundsTo(Shift(ExactFma(x, y, z) as real, -24), r)
  }

  /** Magnitudes of the product and of the addend in units of 2^-48. */
  function ProductMag(x: nat, y: nat): nat {
    Times(Mag(AbsCode(x)), Mag(AbsCode(y)))
  }

  function Times(a: nat, b: nat): nat {
    a * b
  }

  function AddendMag(z: nat): nat {
    0x100_0000 * Mag(AbsCode(z))
  }

  lemma SignedProduct(s: nat, a: int, t: nat, b: int)
    requires (s == 0 || s == SIGN) && (t == 0 || t == SIGN)
    ensures Signed(s, a) * Signed(t, b) == Signed(if s != t then SIGN else 0, a * b)
  {
    if s == SIGN && t == SIGN {
      assert (-a) * (-b) == a * b;
    }
  }

  lemma ExactParts(x: nat, y: nat, z: nat)
    ensures ExactFma(x, y, z) == Signed(ProductSign(x, y), ProductMag(x, y)) + Signed(SignOf(z), AddendMag(z))
    ensures ProductMag(x, y) == 0 <==> AbsCode(x) == 0 || AbsCode(y) == 0
    ensures AddendMag(z) == 0 <==> AbsCode(z) == 0
  {
    var a, b := Mag(AbsCode(x)), Mag(AbsCode(y));
    SignedProduct(SignOf(x), a, SignOf(y), b);
    ZeroMagnitude(AbsCode(x));
    ZeroMagnitude(AbsCode(y));
    ZeroMagnitude(AbsCode(z));
    NonzeroProduct(a, b);
  }

  lemma NonzeroProduct(a: nat, b: nat)
    ensures a * b == 0 <==> a == 0 || b == 0
  {
  }

  /** A magnitude on the finer scale of the product. */
  lemma UnitsValue(c: nat)
    ensures Shift((0x100_0000 * c) as real, -24) == c as real
  {
    ScaleIsMultiple(c, 24);
    SmallPowers();
    Widened(c, 24, 0);
  }

  lemma ShiftSigned(s: nat, m: int, e: int)
    ensures Shift(Signed(s, m) as real, e) == if s == SIGN then -Shift(m as real, e) else Shift(m as real, e)
  {
    ShiftSum(0.0, m as real, e);
    ShiftZero(e);
  }

  /** The magnitude of the exact result, and its sign: the sign of the part of larger magnitude. */
  function FmaMag(x: nat, y: nat, z: nat): int {
    var p, q := ProductMag(x, y), AddendMag(z);
    if SignOf(z) == ProductSign(x, y) then p + q else if q > p then q - p else p - q
  }

  function FmaSign(x: nat, y: nat, z: nat): nat {
    if AddendMag(z) > ProductMag(x, y) then SignOf(z) else ProductSign(x, y)
  }

  lemma FmaValue(x: nat, y: nat, z: nat, v: real, w: real)
    requires v == Shift(FmaMag(x, y, z) as real, -24) && w == Shift(ExactFma(x, y, z) as real, -24)
    ensures w == if FmaSign(x, y, z) == SIGN then -v else v
  {
    ExactParts(x, y, z);
    assert ExactFma(x, y, z) == Signed(FmaSign(x, y, z), FmaMag(x, y, z));
    ShiftSigned(FmaSign(x, y, z), FmaMag(x, y, z), -24);
  }

  /** Rounding the magnitude of the exact result and attaching the sign rounds the result. */
  lemma FmaRounded(x: nat, y: nat, z: nat, v: real, r: nat, signed: nat)
    requires v > 0.0 && v == Shift(FmaMag(x, y, z) as real, -24) && NearestEven(v, r)
    requires signed == FmaSign(x, y, z) + r
    ensures IsFiniteFma(x, y, z, signed)
  {
    var w := Shift(ExactFma(x, y, z) as real, -24);
    FmaValue(x, y, z, v, w);
    SignedRounding(v, FmaSign(x, y, z), r, w);
    NonzeroResult(x, y, z, w, signed);
  }

  lemma NonzeroResult(x: nat, y: nat, z: nat, w: real, r: nat)
    requires w == Shift(ExactFma(x, y, z) as real, -24) && w != 0.0 && RoundsTo(w, r)
    ensures IsFiniteFma(x, y, z, r)
  {
    ShiftZero(-24);
  }

  /** Adds or subtracts two mantissas, the smaller from the larger one, and tells which is which. */
  method CombineOrdered(mx: nat, expx: int, mz: nat, expz: int, sub: bool, ghost v: real, ghost w: real,
                        ghost total: real)
    returns (m: nat, exp: int, swapped: bool)
    requires Full(mx) && Spare(mx) && Full(mz) && Spare(mz)
    requires v == Shift(mx as real, expx - 14) && w == Shift(mz as real, expz - 14)
    requires total == if !sub then v + w else if w > v then w - v else v - w
    ensures m == 0 ==> total == 0.0
    ensures m != 0 ==> Represents(m, exp, total)
    ensures swapped <==> w > v
  {
    MantissaOrder(mx, expx, mz, expz);
    swapped := expz > expx || (expz == expx && mz > mx);
    if swapped {
      m, exp := Combine(mz, expz, mx, expx, sub);
    } else {
      m, exp := Combine(mx, expx, mz, expz, sub);
    }
  }

  /** Brings the addend to the product. */
  method AddAddend(x: nat, y: nat, z: nat, m0: nat, exp0: int)
    returns (m: nat, exp: int, sign: nat)
    requires IsFinite(z) && AbsCode(z) > 0 && Full(m0) && Spare(m0)
    requires Shift(m0 as real, exp0 - 14) == Shift(ProductMag(x, y) as real, -24)
    ensures m == 0 ==> Shift(FmaMag(x, y, z) as real, -24) == 0.0
    ensures m != 0 ==> Represents(m, exp, Shift(FmaMag(x, y, z) as real, -24)) && sign == FmaSign(x, y, z)
  {
    sign := ProductSign(x, y);
    var sub := SignOf(z) != sign;
    var mz, expz := Widen(AbsCode(z));
    ghost var v, w := Shift(ProductMag(x, y) as real, -24), Shift(AddendMag(z) as real, -24);
    UnitsValue(Mag(AbsCode(z)));
    PartsCombined(x, y, z);
    var swapped;
    m, exp, swapped := CombineOrdered(m0, exp0, mz, expz, sub, v, w, Shift(FmaMag(x, y, z) as real, -24));
    if swapped && sub {
      sign := SignOf(z);
    }
  }

  /** The exact result on the scale of the parts. */
  lemma PartsCombined(x: nat, y: nat, z: nat)
    ensures var v, w := Shift(ProductMag(x, y) as real, -24), Shift(AddendMag(z) as real, -24);
            var sub := SignOf(z) != ProductSign(x, y);
            && Shift(FmaMag(x, y, z) as real, -24) == (if !sub then v + w else if w > v then w - v else v - w)
            && (w > v <==> AddendMag(z) > ProductMag(x, y))
  {
    var p, q := ProductMag(x, y), AddendMag(z);
    ShiftedSums(p, q, -24);
    ShiftedSums(q, p, -24);
  }

  lemma ShiftedSums(p: nat, q: nat, e: int)
    ensures var v, w := Shift(p as real, e), Shift(q as real, e);
            && v - w == Shift((p - q) as real, e) && v + w == Shift((p + q) as real, e)
            && (v < w <==> p < q)
  {
    ShiftSum(p as real, q as real, e);
    ShiftOrder(p as real, q as real, e);
    assert p as real - q as real == (p - q) as real && p as real + q as real == (p + q) as real;
  }

  /** Without an addend the product is all there is. */
  lemma NoAddend(x: nat, y: nat, z: nat, m: nat, exp: int)
    requires AddendMag(z) == 0 && Full(m)
    requires Shift(m as real, exp - 14) == Shift(ProductMag(x, y) as real, -24)
    ensures Represents(m, exp, Shift(FmaMag(x, y, z) as real, -24)) && FmaSign(x, y, z) == ProductSign(x, y)
  {
    assert FmaMag(x, y, z) == ProductMag(x, y);
    assert Tracked(m as real, m, 1, exp, Shift(ProductMag(x, y) as real, -24));
  }

  lemma NoMagnitude(x: nat, y: nat, z: nat)
    requires Shift(FmaMag(x, y, z) as real, -24) == 0.0
    ensures IsFiniteFma(x, y, z, if z == SIGN && ProductSign(x, y) == SIGN then SIGN else 0)
  {
    var f := FmaMag(x, y, z);
    ShiftZero(-24);
    ShiftOrder(f as real, 0.0, -24);
    ExactParts(x, y, z);
    assert f == 0;
  }

  /** The exact result as mantissa, exponent and sign; the mantissa is zero only if the result is. */
  method Accumulate(x: nat, y: nat, z: nat) returns (m: nat, exp: int, sign: nat)
    requires IsFinite(x) && IsFinite(y) && IsFinite(z) && AbsCode(x) > 0 && AbsCode(y) > 0
    ensures m == 0 ==> AbsCode(z) != 0 && Shift(FmaMag(x, y, z) as real, -24) == 0.0
    ensures m != 0 ==> Represents(m, exp, Shift(FmaMag(x, y, z) as real, -24)) && sign == FmaSign(x, y, z)
  {
    sign := ProductSign(x, y);
    m, exp := Multiply(AbsCode(x), AbsCode(y));
    ExactParts(x, y, z);
    if AbsCode(z) != 0 {
      m, exp, sign := AddAddend(x, y, z, m, exp);
    } else {
      NoAddend(x, y, z, m, exp);
    }
  }

  method FmaNonzero(x: nat, y: nat, z: nat) returns (r: nat)
    requires IsFinite(x) && IsFinite(y) && IsFinite(z) && AbsCode(x) > 0 && AbsCode(y) > 0
    ensures IsFiniteFma(x, y, z, r)
  {
    var m, exp, sign := Accumulate(x, y, z);
    if m == 0 {
      NoMagnitude(x, y, z);
      assert z != SIGN;
      return 0;
    }
    ghost var v := Shift(FmaMag(x, y, z) as real, -24);
    var rounded := Finish(m, exp, v);
    r := sign + rounded;
    FmaRounded(x, y, z, v, rounded, r);
  }

  /** Comparing exponents, then mantissas, compares the values. */
  lemma MantissaOrder(m: nat, exp: int, mz: nat, expz: int)
    requires Full(m) && Full(mz)
    ensures expz > exp || (expz == exp && mz > m) <==> Shift(mz as real, expz - 14) > Shift(m as real, exp - 14)
  {
    if expz > exp {
      FullOrder(m, exp - 14, mz, expz - 14);
    } else if expz == exp {
      ShiftOrder(m as real, mz as real, exp - 14);
    } else {
      FullOrder(mz, expz - 14, m, exp - 14);
    }
  }

  lemma FullOrder(m: nat, e: int, n: nat, f: int)
    requires Full(m) && Full(n) && e < f
    ensures Shift(m as real, e) < Shift(n as real, f)
  {
    ShiftMove(n as real, e);
    ShiftOrder(m as real, 2.0 * n as real, e);
    ShiftExponentOrder(n as real, e + 1, f);
  }

  method Fma(x: nat, y: nat, z: nat) returns (r: nat)
    requires IsCode(x) && IsCode(y) && IsCode(z)
    ensures IsFma(x, y, z, r)
  {
    var absx, absy, absz, sign := AbsCode(x), AbsCode(y), AbsCode(z), ProductSign(x, y);
    var sub := SignOf(z) != sign;
    if absx >= INFINITY || absy >= INFINITY || absz >= INFINITY {
      return if absx > INFINITY then Quiet(x)
             else if absy > INFINITY then Quiet(y)
             else if absz > INFINITY then Quiet(z)
        else if absx == INFINITY then if absy == 0 || (sub && absz == INFINITY) then INVALID else sign + INFINITY
        else if absy == INFINITY then if absx == 0 || (sub && absz == INFINITY) then INVALID else sign + INFINITY
        else z;
    }
    if absx == 0 || absy == 0 {
      ZeroProduct(x, y, z);
      return if absz != 0 then z else if z == SIGN && sign == SIGN then SIGN else 0;
    }
    r := FmaNonzero(x, y, z);
  }

  /** With a zero product the addend, or a zero with the sign of a sum of zeros, is the result. */
  lemma ZeroProduct(x: nat, y: nat, z: nat)
    requires IsCode(z) && IsFinite(z) && (AbsCode(x) == 0 || AbsCode(y) == 0)
    ensures var r := if AbsCode(z) != 0 then z else if z == SIGN && ProductSign(x, y) == SIGN then SIGN else 0;
            IsFiniteFma(x, y, z, r)
  {
    ExactParts(x, y, z);
    if AbsCode(z) != 0 {
      AddendAlone(x, y, z);
      assert z == SignOf(z) + AbsCode(z);
    }
  }

  lemma NoProduct(x: nat, y: nat, z: nat)
    requires ProductMag(x, y) == 0 && AddendMag(z) > 0
    ensures FmaMag(x, y, z) == AddendMag(z) && FmaSign(x, y, z) == SignOf(z)
  {
  }

  lemma AddendAlone(x: nat, y: nat, z: nat)
    requires ProductMag(x, y) == 0 && AddendMag(z) > 0 && AbsCode(z) <= INFINITY
    ensures IsFiniteFma(x, y, z, SignOf(z) + AbsCode(z))
  {
    NoProduct(x, y, z);
    AddendValue(z);
    FmaRounded(x, y, z, Magnitude(AbsCode(z)), AbsCode(z), SignOf(z) + AbsCode(z));
  }

  lemma AddendValue(z: nat)
    requires AddendMag(z) > 0 && AbsCode(z) <= INFINITY
    ensures var v := Magnitude(AbsCode(z));
            v > 0.0 && v == Shift(AddendMag(z) as real, -24) && NearestEven(v, AbsCode(z))
  {
    UnitsValue(Mag(AbsCode(z)));
    ExactIsNearest(AbsCode(z));
  }

  // ----- Agreement with addition -----

  const ONE := 0x3C00

  /** Multiplying by one and adding is adding, rounded and signed alike. */
  lemma FmaByOneIsSum(x: nat, z: nat, r: nat, s: nat)
    requires IsCode(x) && IsCode(z) && IsFma(x, ONE, z, r) && IsSum(x, z, s)
    ensures r == s || (IsNaN(r) && IsNaN(s))
  {
    if IsFinite(x) && IsFinite(z) {
      OneTimes(x, z);
      ZeroMagnitude(AbsCode(x));
      ZeroMagnitude(AbsCode(z));
      if Value(x) + Value(z) != 0 {
        RoundsUnique((Value(x) + Value(z)) as real, r, s);
      }
    }
  }

  lemma OneTimes(x: nat, z: nat)
    ensures ExactFma(x, ONE, z) == 0x100_0000 * (Value(x) + Value(z))
    ensures Shift(ExactFma(x, ONE, z) as real, -24) == (Value(x) + Value(z)) as real
    ensures ProductSign(x, ONE) == SignOf(x)
  {
    MagOfCode(ONE, 14, 1024);
    ScaleIsMultiple(1024, 14);
    SmallPowers();
    assert Value(ONE) == 0x100_0000;
    UnitsOfInteger(Value(x) + Value(z));
  }

  lemma UnitsOfInteger(c: int)
    ensures Shift((0x100_0000 * c) as real, -24) == c as real
  {
    if c >= 0 {
      UnitsValue(c);
    } else {
      UnitsValue(-c);
      ShiftSigned(SIGN, 0x100_0000 * -c, -24);
    }
  }
}
