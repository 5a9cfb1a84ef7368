/** The rounding step shared by the half-precision operations: a mantissa is cut, and the cut bits
    are summed up by a guard and a sticky bit. */
module HalfRounding {
  import opened HalfFormat

  // ----- Bit fields of non-negative integers -----

  /** m >> k */
  function Shr(m: nat, k: nat): nat {
    if k == 0 then m else Shr(m, k - 1) / 2
  }

  /** (m & ((1 << k) - 1)) != 0 */
  predicate AnyBelow(m: nat, k: nat) {
    m != Scale(Shr(m, k), k)
  }

  lemma {:induction false} ShrBounds(m: nat, k: nat)
    ensures Scale(Shr(m, k), k) <= m < Scale(Shr(m, k) + 1, k)
  {
    if k > 0 {
      ShrBounds(m, k - 1);
      var h, q := Shr(m, k - 1), Shr(m, k);
      ScaleTwice(q, k - 1);
      ScaleTwice(q + 1, k - 1);
      ScaleOrder(2 * q, h, k - 1);
      ScaleOrder(h + 1, 2 * q + 2, k - 1);
    }
  }

  lemma ScaleOrder(q: nat, r: nat, e: nat)
    requires q <= r
    ensures Scale(q, e) <= Scale(r, e)
  {
    if q < r {
      ScaleLess(q, r, e);
    }
  }

  /** A shift is determined by its bounds. */
  lemma ShrUnique(m: nat, k: nat, q: nat)
    requires Scale(q, k) <= m < Scale(q + 1, k)
    ensures Shr(m, k) == q
  {
    ShrBounds(m, k);
    var s := Shr(m, k);
    if s < q {
      ScaleOrder(s + 1, q, k);
    } else if s > q {
      ScaleOrder(q + 1, s, k);
    }
  }

  lemma {:induction false} ShrDecreases(m: nat, k: nat, d: nat)
    requires k <= d
    ensures Shr(m, d) <= Shr(m, k)
    decreases d
  {
    if k < d {
      ShrDecreases(m, k, d - 1);
    }
  }

  lemma {:induction false} ScaleIsMultiple(q: nat, e: nat)
    ensures Scale(q, e) == q * Pow2(e)
  {
    if e > 0 {
      ScaleIsMultiple(q, e - 1);
      var a := Pow2(e - 1);
      assert 2 * (q * a) == q * (2 * a);
    }
  }

  lemma MultipleBounds(d: int, y: nat)
    ensures d >= 1 ==> d * y >= y
    ensures d <= -1 ==> d * y <= -(y as int)
  {
    if d >= 1 {
      assert d * y == (d - 1) * y + y;
    } else if d <= -1 {
      assert d * y == (d + 1) * y - y;
    }
  }

  lemma DivisionUnique(m: nat, d: nat, q: nat)
    requires d > 0 && q * d <= m < q * d + d
    ensures m / d == q && m % d == m - q * d
  {
    var a, b := m / d, m % d;
    assert m == a * d + b;
    MultipleBounds(q - a, d);
    assert (q - a) * d == q * d - a * d;
  }

  lemma NextMultiple(q: nat, d: nat)
    ensures (q + 1) * d == q * d + d
  {
  }

  /** The shift and the bits below it are quotient and remainder by a power of two. */
  lemma ShrIsDivision(m: nat, k: nat)
    ensures Shr(m, k) == m / Pow2(k)
    ensures AnyBelow(m, k) <==> m % Pow2(k) != 0
  {
    var q, d := Shr(m, k), Pow2(k);
    ShrBounds(m, k);
    ScaleIsMultiple(q, k);
    ScaleIsMultiple(q + 1, k);
    NextMultiple(q, d);
    DivisionUnique(m, d, q);
  }

  lemma {:induction false} Pow2IsScale(k: nat, e: nat)
    ensures Pow2(k + e) == Scale(Pow2(k), e)
  {
    if e > 0 {
      Pow2IsScale(k, e - 1);
    }
  }

  lemma {:induction false} ScaleScale(q: nat, a: nat, b: nat)
    ensures Scale(Scale(q, a), b) == Scale(q, a + b)
  {
    if b > 0 {
      ScaleScale(q, a, b - 1);
    }
  }

  /** Shifting out trailing zeros loses nothing. */
  lemma {:induction false} ShrOfScale(q: nat, n: nat, d: nat)
    requires d <= n
    ensures Shr(Scale(q, n), d) == Scale(q, n - d) && !AnyBelow(Scale(q, n), d)
  {
    if d > 0 {
      ShrOfScale(q, n, d - 1);
    }
    ScaleScale(q, n - d, d);
  }

  // ----- Rounding -----

  /** Adds one unit if the guard bit is set and the rest, or the last kept bit, is too. */
  function Rounded(value: nat, guard: nat, sticky: bool): nat {
    value + if guard == 1 && (sticky || value % 2 == 1) then 1 else 0
  }

  /** Scaling keeps a number on its side of the midpoint of an interval. */
  lemma ScaledMidpoint(e: int, low: real, t: real, high: real)
    ensures 2.0 * t >= low + high <==> 2.0 * Shift(t, e) >= Shift(low, e) + Shift(high, e)
    ensures 2.0 * t == low + high <==> 2.0 * Shift(t, e) == Shift(low, e) + Shift(high, e)
  {
    ShiftSum(low, high, e);
    ShiftDouble(t, e);
    ShiftOrder(2.0 * t, low + high, e);
  }

  lemma ScaledEnds(e: int, low: real, t: real, high: real)
    requires low <= t < high
    ensures Shift(low, e) <= Shift(t, e) < Shift(high, e)
  {
    ShiftOrder(t, low, e);
    ShiftOrder(t, high, e);
  }

  lemma ScaledCell(e: nat, q: nat, t: real)
    requires q as real <= t < (q + 1) as real
    ensures var v, a, b := Shift(t, e), Scale(q, e) as real, Scale(q + 1, e) as real;
            && a <= v < b
            && (2.0 * t >= (2 * q + 1) as real <==> 2.0 * v >= a + b)
            && (2.0 * t == (2 * q + 1) as real <==> 2.0 * v == a + b)
  {
    ScaleIsShift(q, e);
    ScaleIsShift(q + 1, e);
    ScaledEnds(e, q as real, t, (q + 1) as real);
    ScaledMidpoint(e, q as real, t, (q + 1) as real);
    MidpointOfCell(q);
  }

  lemma MidpointOfCell(q: nat)
    ensures (2 * q + 1) as real == q as real + (q + 1) as real
  {
  }

  lemma CodeCell(c: nat, e: nat, q: nat, t: real)
    requires q <= 2047 && (q >= 1024 || e == 0) && c == e * 1024 + q && q as real <= t < (q + 1) as real
    ensures var v, a, b := Shift(t, e), Magnitude(c), Magnitude(c + 1);
            && a <= v < b
            && (2.0 * t >= (2 * q + 1) as real <==> 2.0 * v >= a + b)
            && (2.0 * t == (2 * q + 1) as real <==> 2.0 * v == a + b)
  {
    MagOfCode(c, e, q);
    MagOfCode(c + 1, e, q + 1);
    ScaledCell(e, q, t);
  }

  /** With t the exact mantissa, guard and sticky decide the side of the midpoint, and the carry
      into the exponent field is the right one, up to infinity. */
  lemma RoundedIsNearest(e: nat, q: nat, guard: nat, sticky: bool, t: real, v: real)
    requires q <= 2047 && (q >= 1024 || e == 0) && e <= 29 && guard <= 1
    requires q as real <= t < (q + 1) as real
    requires guard == 1 <==> 2.0 * t >= (2 * q + 1) as real
    requires sticky <==> 2.0 * t != (2 * q + guard) as real
    requires v == Shift(t, e)
    ensures NearestEven(v, Rounded(e * 1024 + q, guard, sticky))
  {
    var c := e * 1024 + q;
    CodeCell(c, e, q, t);
    CellRounding(c, guard, sticky, v);
  }

  lemma LowerIsNearest(c: nat, v: real)
    requires c < INFINITY && Magnitude(c) <= v && 2.0 * v <= Magnitude(c) + Magnitude(c + 1)
    requires 2.0 * v == Magnitude(c) + Magnitude(c + 1) ==> c % 2 == 0
    ensures NearestEven(v, c)
  {
    if c > 0 {
      MagStep(c - 1);
    }
    MagStep(c);
    NearestByMidpoints(v, c);
  }

  lemma UpperIsNearest(c: nat, v: real)
    requires c < INFINITY && v < Magnitude(c + 1) && 2.0 * v >= Magnitude(c) + Magnitude(c + 1)
    requires 2.0 * v == Magnitude(c) + Magnitude(c + 1) ==> (c + 1) % 2 == 0
    ensures NearestEven(v, c + 1)
  {
    MagStep(c);
    MagStep(c + 1);
    NearestByMidpoints(v, c + 1);
  }

  /** The same on magnitudes: v lies between the codes c and c + 1. */
  lemma CellRounding(c: nat, guard: nat, sticky: bool, v: real)
    requires c < INFINITY && guard <= 1
    requires Magnitude(c) <= v < Magnitude(c + 1)
    requires guard == 1 <==> 2.0 * v >= Magnitude(c) + Magnitude(c + 1)
    requires guard == 1 && !sticky ==> 2.0 * v == Magnitude(c) + Magnitude(c + 1)
    requires guard == 1 && sticky ==> 2.0 * v != Magnitude(c) + Magnitude(c + 1)
    ensures NearestEven(v, Rounded(c, guard, sticky))
  {
    if guard == 1 && (sticky || c % 2 == 1) {
      UpperIsNearest(c, v);
    } else {
      LowerIsNearest(c, v);
    }
  }

  // ----- Sticky approximation -----

  /** The integer m stands for the exact x: it equals it, or it is an odd multiple of u and x lies
      strictly within one u of it. Every multiple of 2u is on the same side of both. */
  ghost predicate Approx(x: real, m: int, u: int) {
    || x == m as real
    || (((u == 1 && m % 2 == 1) || (u == 2 && m % 4 == 2)) && (m - u) as real < x < (m + u) as real)
  }

  /** m >> d with the lost bits collapsed into the lowest bit. */
  function StickyShr(m: nat, d: nat): nat {
    var b := Shr(m, d);
    if AnyBelow(m, d) && b % 2 == 0 then b + 1 else b
  }

  lemma StickyShrApproximates(m: nat, d: nat)
    ensures Approx(Shift(m as real, 0 - d), StickyShr(m, d), 1)
    ensures !AnyBelow(m, d) ==> Shift(m as real, 0 - d) == StickyShr(m, d) as real
  {
    var b, x := Shr(m, d), Shift(m as real, 0 - d);
    ShiftBetween(m, d);
  }

  /** Where the exact quotient lies relative to the shifted integer. */
  lemma ShiftBetween(m: nat, d: nat)
    ensures var b, x := Shr(m, d), Shift(m as real, 0 - d);
            && b as real <= x < (b + 1) as real
            && (x == b as real <==> !AnyBelow(m, d))
  {
    var b, x := Shr(m, d), Shift(m as real, 0 - d);
    ShrBounds(m, d);
    ScaleIsShift(b, d);
    ScaleIsShift(b + 1, d);
    ShiftTwice(m as real, 0 - d, d);
    ShiftOrder(b as real, x, d);
    ShiftOrder(x, (b + 1) as real, d);
  }

  /** Multiples of four on either side of m are on the same side of what m approximates. */
  lemma InsideFourfold(x: real, m: int, u: int, low: int, high: int)
    requires Approx(x, m, u) && x != m as real && 4 * low <= m < 4 * high
    ensures (4 * low) as real < x < (4 * high) as real
  {
    if u == 1 {
      assert 4 * low + 1 <= m <= 4 * high - 1;
    } else {
      assert m % 4 == 2;
      assert 4 * low + 2 <= m <= 4 * high - 2;
    }
  }

  lemma ScaleFourfold(q: nat, e: nat)
    requires e >= 2
    ensures Scale(q, e) == 4 * Scale(q, e - 2)
  {
  }

  lemma CutInexact(x: real, m: nat, u: int, d: nat)
    requires d >= 2 && Approx(x, m, u) && x != m as real
    ensures Shr(m, d) as real < Shift(x, 0 - d) < (Shr(m, d) + 1) as real
  {
    var h, y := Shr(m, d), Shift(x, 0 - d);
    ShrBounds(m, d);
    ScaleFourfold(h, d);
    ScaleFourfold(h + 1, d);
    InsideFourfold(x, m, u, Scale(h, d - 2), Scale(h + 1, d - 2));
    ScaleIsShift(h, d);
    ScaleIsShift(h + 1, d);
    ShiftTwice(x, 0 - d, d);
    ShiftOrder(h as real, y, d);
    ShiftOrder(y, (h + 1) as real, d);
  }

  lemma InexactHasLowBits(x: real, m: nat, u: int, d: nat)
    requires d >= 2 && Approx(x, m, u) && x != m as real
    ensures AnyBelow(m, d)
  {
    ScaleFourfold(Shr(m, d), d);
    assert m % 4 != 0;
  }

  /** Cutting k >= 3 bits off an approximation decides the cell, the guard and the sticky bit as
      the exact number would. */
  lemma CutDecides(x: real, m: nat, u: int, k: nat)
    requires k >= 3 && Approx(x, m, u)
    ensures var h, y := Shr(m, k - 1), Shift(x, 1 - k);
            && h as real <= y < (h + 1) as real
            && (y == h as real <==> !AnyBelow(m, k - 1))
  {
    if x == m as real {
      ShiftBetween(m, k - 1);
    } else {
      CutInexact(x, m, u, k - 1);
      InexactHasLowBits(x, m, u, k - 1);
    }
  }

  /** The code rounded from mantissa m at exponent e, cutting k bits. */
  function RoundedCode(m: nat, k: nat, e: nat): nat
    requires k >= 1
  {
    Rounded(e * 1024 + Shr(m, k), Shr(m, k - 1) % 2, AnyBelow(m, k - 1))
  }

  /** Splitting the guard bit off. */
  lemma GuardOf(h: nat, y: real, t: real)
    requires h as real <= y < (h + 1) as real && y == 2.0 * t
    ensures (h / 2) as real <= t < (h / 2 + 1) as real
    ensures h % 2 == 1 <==> 2.0 * t >= (2 * (h / 2) + 1) as real
    ensures 2 * (h / 2) + h % 2 == h
  {
  }

  /** With h the mantissa cut but for the guard bit, and y the exact one at that place. */
  lemma GuardedIsNearest(h: nat, q: nat, sticky: bool, y: real, t: real, e: nat, v: real, r: nat)
    requires h as real <= y < (h + 1) as real && (sticky <==> y != h as real)
    requires q == h / 2 && y == 2.0 * t && v == Shift(t, e)
    requires q <= 2047 && (q >= 1024 || e == 0) && e <= 29
    requires r == Rounded(e * 1024 + q, h % 2, sticky)
    ensures NearestEven(v, r)
  {
    GuardOf(h, y, t);
    RoundedIsNearest(e, q, h % 2, sticky, t, v);
  }

  lemma OneMoreBit(x: real, m: nat, k: nat)
    requires k >= 1
    ensures Shift(x, 1 - k) == 2.0 * Shift(x, 0 - k) && Shr(m, k) == Shr(m, k - 1) / 2
  {
  }

  /** Rounding an approximation rounds the exact value. */
  lemma RoundedCodeIsNearest(x: real, m: nat, u: int, k: nat, e: nat, v: real)
    requires k >= 3 && Approx(x, m, u) && e <= 29
    requires Shr(m, k) <= 2047 && (Shr(m, k) >= 1024 || e == 0)
    requires v == Shift(x, e - k)
    ensures NearestEven(v, RoundedCode(m, k, e))
  {
    CutDecides(x, m, u, k);
    OneMoreBit(x, m, k);
    ShiftTwice(x, 0 - k, e);
    GuardedIsNearest(Shr(m, k - 1), Shr(m, k), AnyBelow(m, k - 1), Shift(x, 1 - k), Shift(x, 0 - k), e, v,
                     RoundedCode(m, k, e));
  }

  /** Collapsing one more bit of an approximation. */
  lemma HalveApproximates(x: real, m: nat)
    requires Approx(x, m, 1)
    ensures Approx(x / 2.0, StickyShr(m, 1), 1)
  {
    assert Scale(Shr(m, 1), 1) == 2 * (m / 2);
  }

  /** An operand shifted out completely still counts as one sticky unit. */
  lemma ShiftedOut(m: nat, d: nat)
    requires 0 < m && Shr(m, d) <= 1
    ensures Approx(Shift(m as real, 0 - d), 1, 1)
  {
    ShiftBetween(m, d);
    ShiftZero(0 - d);
    ShiftOrder(0.0, m as real, 0 - d);
  }

  /** Doubling an approximation; one of an even number of units is exact. */
  lemma ApproxDouble(x: real, m: int, u: int)
    requires Approx(x, m, u) && (u == 1 || x == m as real)
    ensures Approx(2.0 * x, 2 * m, if u == 1 then 2 else 1)
    ensures x == m as real <==> 2.0 * x == (2 * m) as real
  {
    if x != m as real {
      assert (2 * m) % 4 == 2;
    }
  }

  lemma ApproxCombined(a: int, y: real, m: int)
    requires a % 2 == 0 && Approx(y, m, 1)
    ensures Approx(a as real - y, a - m, 1) && Approx(a as real + y, a + m, 1)
  {
    assert m % 2 == 1 ==> (a - m) % 2 == 1 && (a + m) % 2 == 1;
  }

  /** Values from 2^16 up round to infinity. */
  lemma LargeOverflows(x: real, e: int, k: nat, v: real)
    requires x >= (1024 * Pow2(k)) as real && e + k >= 30 && v == Shift(x, e)
    ensures NearestEven(v, INFINITY)
  {
    var t := (1024 * Pow2(k)) as real;
    ScaleIsMultiple(1024, k);
    ScaleIsShift(1024, k);
    ShiftTwice(1024.0, k, e);
    ShiftOrder(t, x, e);
    ShiftExponentOrder(1024.0, 30, k + e);
    OverflowIsNearest(v);
  }

  /** Values up to half the smallest subnormal round to zero. */
  lemma SmallUnderflows(x: real, e: int, k: nat, v: real)
    requires 0.0 <= x <= Pow2(k) as real && e + k + 1 <= 0 && v == Shift(x, e)
    ensures NearestEven(v, 0)
  {
    ShiftExponentOrder(x, e, -1 - k);
    ShiftOrder(x, Pow2(k) as real, -1 - k);
    ScaleIsMultiple(1, k);
    ScaleIsShift(1, k);
    ShiftTwice(1.0, k, -1 - k);
    NearestByMidpoints(v, 0);
  }

  lemma SignedRounding(v: real, sign: nat, r: nat, w: real)
    requires (sign == 0 || sign == SIGN) && v > 0.0 && NearestEven(v, r)
    requires w == if sign == SIGN then -v else v
    ensures RoundsTo(w, sign + r)
  {
    assert Abs(w) == v && AbsCode(sign + r) == r;
  }

  lemma SignedAsReal(sign: nat, m: int)
    ensures Signed(sign, m) as real == if sign == SIGN then -(m as real) else m as real
  {
  }
}
