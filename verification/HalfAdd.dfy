/** Addition of half-precision numbers: align, add or subtract, normalise, round. */
module HalfAdd {
  import opened HalfFormat
  import opened HalfRounding

  // ----- Alignment -----

  /** The three spare bits make short shifts exact; a longer shift leaves a small operand. */
  lemma ShortShift(sig: nat, d: nat)
    requires d <= 3
    ensures !AnyBelow(8 * sig, d)
  {
    assert Scale(sig, 3) == 2 * Scale(sig, 2) == 4 * Scale(sig, 1) == 8 * sig;
    ShrOfScale(sig, 3, d);
  }

  lemma LongShift(m: nat, d: nat)
    requires m < 0x4000 && d >= 4
    ensures StickyShr(m, d) <= 0x401
  {
    ShrDecreases(m, 4, d);
    ShrIsDivision(m, 4);
    SmallPowers();
  }

  /** Exact mantissa of the smaller operand on the larger one's scale. */
  function Lowered(ax: nat, ay: nat): real
    requires ExpOf(ay) <= ExpOf(ax)
  {
    Shift((8 * SigOf(ay)) as real, ExpOf(ay) - ExpOf(ax))
  }

  lemma AlignedValue(ax: nat, ay: nat)
    requires ExpOf(ay) <= ExpOf(ax)
    ensures Shift((8 * SigOf(ax)) as real, ExpOf(ax) - 4) == Magnitude(ax)
    ensures Shift(Lowered(ax, ay), ExpOf(ax) - 4) == Magnitude(ay)
  {
    EightfoldValue(ax);
    EightfoldValue(ay);
    ShiftTwice((8 * SigOf(ay)) as real, ExpOf(ay) - ExpOf(ax), ExpOf(ax) - 4);
  }

  lemma EightfoldValue(a: nat)
    ensures Shift((8 * SigOf(a)) as real, ExpOf(a) - 4) == Magnitude(a)
  {
    var s, e := SigOf(a) as real, ExpOf(a);
    MagOfParts(a);
    ScaleIsShift(SigOf(a), e - 1);
    ShiftMove(s, e - 2);
    ShiftMove(2.0 * s, e - 3);
    ShiftMove(4.0 * s, e - 4);
  }

  /** The aligned integer mantissa of the smaller operand: it is exact, or the larger operand is
      normal and much larger. */
  lemma AlignedOperand(ax: nat, ay: nat, my: nat)
    requires 0 < ay <= ax < INFINITY
    requires var d := ExpOf(ax) - ExpOf(ay); d >= 0 && my == if d < 13 then StickyShr(8 * SigOf(ay), d) else 1
    ensures Approx(Lowered(ax, ay), my, 1)
    ensures Lowered(ax, ay) == my as real || (SigOf(ax) >= 0x400 && my <= 0x401)
    ensures my <= 8 * SigOf(ax) || Lowered(ax, ay) == my as real
    ensures my < 0x4000
  {
    var d, m := ExpOf(ax) - ExpOf(ay), 8 * SigOf(ay);
    MagOfParts(ax);
    MagOfParts(ay);
    if d <= 3 {
      ShortShift(SigOf(ay), d);
    } else {
      LongShift(m, d);
    }
    if d < 13 {
      StickyShrApproximates(m, d);
      ShrDecreases(m, 0, d);
    } else {
      ShrDecreases(m, 13, d);
      ShrIsDivision(m, 13);
      SmallPowers();
      ShiftedOut(m, d);
    }
  }

  // ----- Addition -----

  /** The larger and the smaller of two codes. */
  function Larger(a: nat, b: nat): nat {
    if b > a then b else a
  }

  function Smaller(a: nat, b: nat): nat {
    if b > a then a else b
  }

  /** The state of the subtraction: v is the exact difference, x its exact mantissa at exponent exp,
      m the computed mantissa. Cancellation of more than one bit only happens when nothing was lost
      by the alignment, so one sticky unit is enough. */
  ghost predicate Tracked(x: real, m: int, u: int, exp: int, v: real) {
    && 0 < m < 0x4000 && 1 <= exp <= 30
    && Approx(x, m, u) && v == Shift(x, exp - 4)
    && (x == m as real || (u == 1 && m >= 0x1000) || m >= 0x2000)
  }

  lemma DifferenceSign(ax: nat, ay: nat, x: real, e: int)
    requires ay <= ax && Shift(x, e) == Magnitude(ax) - Magnitude(ay)
    ensures x >= 0.0 && (x == 0.0 <==> ax == ay)
  {
    MagMonotone(ay, ax);
    ShiftZero(e);
    ShiftOrder(0.0, x, e);
  }

  lemma EightTimes(s: nat)
    requires s < 0x800
    ensures 8 * s < 0x4000 && (8 * s) % 2 == 0 && (s >= 0x400 ==> 8 * s >= 0x2000)
  {
  }

  /** The significand with its three spare bits. */
  lemma MantissaRange(a: nat)
    requires 0 < a < INFINITY
    ensures 8 * SigOf(a) < 0x4000 && (8 * SigOf(a)) % 2 == 0 && ExpOf(a) <= 30
    ensures 8 * SigOf(a) >= 0x2000 || ExpOf(a) == 1
  {
    MagOfParts(a);
    EightTimes(SigOf(a));
  }

  lemma TrackFrom(a: nat, y: real, my: nat, x: real, m: int, exp: int, v: real)
    requires a < 0x4000 && a % 2 == 0 && 1 <= exp <= 30 && Approx(y, my, 1)
    requires y == my as real || (a >= 0x2000 && my <= 0x401)
    requires x == a as real - y && m == a - my && v == Shift(x, exp - 4) && x >= 0.0
    ensures m == 0 <==> x == 0.0
    ensures m != 0 ==> Tracked(x, m, 1, exp, v)
  {
    ApproxCombined(a, y, my);
  }

  lemma TrackStart(ax: nat, ay: nat, my: nat)
    requires 0 < ay <= ax < INFINITY && my < 0x4000
    requires ExpOf(ay) <= ExpOf(ax) && Approx(Lowered(ax, ay), my, 1)
    requires Lowered(ax, ay) == my as real || (SigOf(ax) >= 0x400 && my <= 0x401)
    ensures var x, m := (8 * SigOf(ax)) as real - Lowered(ax, ay), 8 * SigOf(ax) - my;
            && (ax == ay <==> m == 0)
            && (ax != ay ==> Tracked(x, m, 1, ExpOf(ax), Magnitude(ax) - Magnitude(ay)))
  {
    var y, exp, a := Lowered(ax, ay), ExpOf(ax), 8 * SigOf(ax);
    DifferenceValue(ax, ay);
    DifferenceSign(ax, ay, a as real - y, exp - 4);
    MantissaRange(ax);
    TrackFrom(a, y, my, a as real - y, a - my, exp, Magnitude(ax) - Magnitude(ay));
  }

  lemma DifferenceValue(ax: nat, ay: nat)
    requires ExpOf(ay) <= ExpOf(ax)
    ensures var s, y := (8 * SigOf(ax)) as real, Lowered(ax, ay);
            && Shift(s - y, ExpOf(ax) - 4) == Magnitude(ax) - Magnitude(ay)
            && Shift(s + y, ExpOf(ax) - 4) == Magnitude(ax) + Magnitude(ay)
  {
    AlignedValue(ax, ay);
    ShiftSum((8 * SigOf(ax)) as real, Lowered(ax, ay), ExpOf(ax) - 4);
  }

  lemma TrackDouble(x: real, m: int, u: int, exp: int, v: real)
    requires Tracked(x, m, u, exp, v) && m < 0x2000 && exp > 1
    ensures Tracked(2.0 * x, 2 * m, if u == 1 then 2 else 1, exp - 1, v)
  {
    ShiftMove(x, exp - 5);
    ApproxDouble(x, m, u);
  }

  /** Both branches end by packing the significand and rounding away its three spare bits. */
  lemma PackedIsNearest(x: real, m: nat, u: int, exp: int, v: real)
    requires Approx(x, m, u) && m < 0x4000 && 1 <= exp <= 30 && (m >= 0x2000 || exp == 1)
    requires v == Shift(x, exp - 4)
    ensures NearestEven(v, RoundedCode(m, 3, exp - 1))
  {
    ShrIsDivision(m, 3);
    SmallPowers();
    RoundedCodeIsNearest(x, m, u, 3, exp - 1, v);
  }

  method Subtract(ax: nat, ay: nat, my: nat) returns (r: nat)
    requires 0 < ay <= ax < INFINITY && my < 0x4000
    requires ExpOf(ay) <= ExpOf(ax) && Approx(Lowered(ax, ay), my, 1)
    requires Lowered(ax, ay) == my as real || (SigOf(ax) >= 0x400 && my <= 0x401)
    ensures ax == ay ==> r == 0
    ensures ax != ay ==> NearestEven(Magnitude(ax) - Magnitude(ay), r)
  {
    var exp, m := ExpOf(ax), 8 * SigOf(ax) - my;
    ghost var x, u, v := (8 * SigOf(ax)) as real - Lowered(ax, ay), 1, Magnitude(ax) - Magnitude(ay);
    TrackStart(ax, ay, my);
    if m == 0 {
      return 0;
    }
    while m < 0x2000 && exp > 1
      invariant Tracked(x, m, u, exp, v)
      decreases exp
    {
      TrackDouble(x, m, u, exp, v);
      x, u := 2.0 * x, if u == 1 then 2 else 1;
      m, exp := 2 * m, exp - 1;
    }
    PackedIsNearest(x, m, u, exp, v);
    r := RoundedCode(m, 3, exp - 1);
  }

  /** A carry out of the significand moves one bit into the sticky position. */
  lemma CarryTracked(x: real, m: nat, e: int)
    requires Approx(x, m, 1) && 0x4000 <= m < 0x8000
    ensures Approx(x / 2.0, StickyShr(m, 1), 1) && Shift(x, e) == Shift(x / 2.0, e + 1)
    ensures x / 2.0 >= 8192.0 && 0x2000 <= StickyShr(m, 1) < 0x4000
  {
    HalveApproximates(x, m);
    ShiftMove(x / 2.0, e);
    assert Shr(m, 1) == m / 2;
  }

  method SumMantissas(mx: nat, my: nat, exp0: int, ghost x: real, ghost v: real) returns (r: nat)
    requires mx + my < 0x8000 && 1 <= exp0 <= 30 && (mx + my >= 0x2000 || exp0 == 1)
    requires Approx(x, mx + my, 1) && v == Shift(x, exp0 - 4)
    ensures NearestEven(v, r)
  {
    var exp, m := exp0, mx + my;
    ghost var t := x;
    var i := m / 0x4000;
    if i == 1 {
      CarryTracked(x, m, exp - 4);
      t := x / 2.0;
    }
    exp := exp + i;
    if exp > 30 {
      LargeOverflows(t, exp - 4, 3, v);
      return INFINITY;
    }
    m := StickyShr(m, i);
    PackedIsNearest(t, m, 1, exp, v);
    r := RoundedCode(m, 3, exp - 1);
  }

  method Sum(ax: nat, ay: nat, my: nat) returns (r: nat)
    requires 0 < ay <= ax < INFINITY && my < 0x4000
    requires ExpOf(ay) <= ExpOf(ax) && Approx(Lowered(ax, ay), my, 1)
    ensures NearestEven(Magnitude(ax) + Magnitude(ay), r)
  {
    var mx := 8 * SigOf(ax);
    ghost var y, v := Lowered(ax, ay), Magnitude(ax) + Magnitude(ay);
    MantissaRange(ax);
    ApproxCombined(mx, y, my);
    DifferenceValue(ax, ay);
    r := SumMantissas(mx, my, ExpOf(ax), mx as real + y, v);
  }

  /** What the sum of two codes must be (IEEE 754-2008, sections 5.4.1, 6.2 and 6.3). */
  ghost predicate IsSum(x: nat, y: nat, r: nat) {
    if IsNaN(x) || IsNaN(y) then IsNaN(r)
    else if IsInfinite(x) && IsInfinite(y) && SignOf(x) != SignOf(y) then IsNaN(r)
    else if IsInfinite(x) then r == x
    else if IsInfinite(y) then r == y
    else IsFiniteSum(x, y, r)
  }

  ghost predicate IsFiniteSum(x: nat, y: nat, r: nat) {
    if Value(x) + Value(y) == 0 then r == if x == SIGN && y == SIGN then SIGN else 0
    else RoundsTo((Value(x) + Value(y)) as real, r)
  }

  lemma SumWithZero(x: nat, y: nat)
    requires IsCode(x) && IsCode(y) && IsFinite(x) && IsFinite(y) && (AbsCode(x) == 0 || AbsCode(y) == 0)
    ensures IsFiniteSum(x, y, if AbsCode(x) == 0 && AbsCode(y) == 0 then if x == SIGN && y == SIGN then SIGN else 0
                              else if AbsCode(x) == 0 then y else x)
  {
    ZeroMagnitude(AbsCode(x));
    ZeroMagnitude(AbsCode(y));
    ExactIsNearest(AbsCode(x));
    ExactIsNearest(AbsCode(y));
  }

  /** The magnitude of a sum, and the sign of the operand of larger magnitude as its sign. */
  lemma SumSign(x: nat, y: nat)
    requires AbsCode(x) > 0 && AbsCode(y) > 0
    ensures var m := SumMagnitude(x, y);
            && m >= 0 && (m == 0 <==> SignOf(x) != SignOf(y) && AbsCode(x) == AbsCode(y))
            && Value(x) + Value(y) == Signed(SumSignOf(x, y), m)
  {
    ZeroMagnitude(AbsCode(x));
    ZeroMagnitude(AbsCode(y));
    MagMonotone(Smaller(AbsCode(x), AbsCode(y)), Larger(AbsCode(x), AbsCode(y)));
  }

  function SumMagnitude(x: nat, y: nat): int {
    var a, b := Mag(Larger(AbsCode(x), AbsCode(y))), Mag(Smaller(AbsCode(x), AbsCode(y)));
    if SignOf(x) != SignOf(y) then a - b else a + b
  }

  function SumSignOf(x: nat, y: nat): nat {
    if SignOf(x) != SignOf(y) && AbsCode(y) > AbsCode(x) then SignOf(y) else SignOf(x)
  }

  /** Rounding the magnitude of a sum and attaching the sign rounds the sum. */
  lemma SumRounded(x: nat, y: nat, r: nat)
    requires AbsCode(x) > 0 && AbsCode(y) > 0 && NearestEven(SumMagnitude(x, y) as real, r)
    requires SignOf(x) == SignOf(y) || AbsCode(x) != AbsCode(y)
    ensures IsFiniteSum(x, y, SumSignOf(x, y) + r)
  {
    var m, s := SumMagnitude(x, y), SumSignOf(x, y);
    SumSign(x, y);
    SignedAsReal(s, m);
    SignedRounding(m as real, s, r, (Value(x) + Value(y)) as real);
  }

  method AddNonzero(x: nat, y: nat) returns (r: nat)
    requires IsFinite(x) && IsFinite(y) && AbsCode(x) > 0 && AbsCode(y) > 0
    ensures IsFiniteSum(x, y, r)
  {
    var sub, sign := SignOf(x) != SignOf(y), SumSignOf(x, y);
    var absx, absy := Larger(AbsCode(x), AbsCode(y)), Smaller(AbsCode(x), AbsCode(y));
    ghost var v := if sub then Magnitude(absx) - Magnitude(absy) else Magnitude(absx) + Magnitude(absy);
    var d := ExpOf(absx) - ExpOf(absy);
    var my := if d < 13 then StickyShr(8 * SigOf(absy), d) else 1;
    AlignedOperand(absx, absy, my);
    if sub {
      r := Subtract(absx, absy, my);
      if absx == absy {
        return 0;
      }
    } else {
      r := Sum(absx, absy, my);
    }
    assert v == SumMagnitude(x, y) as real;
    SumRounded(x, y, r);
    r := sign + r;
  }

  method Add(x: nat, y: nat) returns (r: nat)
    requires IsCode(x) && IsCode(y)
    ensures IsSum(x, y, r)
  {
    var absx, absy := AbsCode(x), AbsCode(y);
    if absx >= INFINITY || absy >= INFINITY {
      return if absx > INFINITY then Quiet(x) else if absy > INFINITY then Quiet(y)
        else if absy != INFINITY then x
        else if SignOf(x) != SignOf(y) && absx == INFINITY then INVALID else y;
    }
    if absx == 0 || absy == 0 {
      SumWithZero(x, y);
      if absx == 0 {
        return if absy != 0 then y else if x == SIGN && y == SIGN then SIGN else 0;
      }
      return x;
    }
    r := AddNonzero(x, y);
  }

  /** Addition is commutative, rounding, signs of zero and infinities included. */
  lemma SumCommutes(x: nat, y: nat, r: nat, s: nat)
    requires IsCode(x) && IsCode(y) && IsSum(x, y, r) && IsSum(y, x, s)
    ensures r == s || (IsNaN(r) && IsNaN(s))
  {
    if IsFinite(x) && IsFinite(y) && Value(x) + Value(y) != 0 {
      RoundsUnique((Value(x) + Value(y)) as real, r, s);
    }
  }
}
