/** Square root of half-precision numbers, digit by digit on integers. */
module HalfSqrt {
  import opened HalfFormat
  import opened HalfRounding
  import opened HalfUnpacking

  // ----- Integer square root -----

  /** Before the digit of weight 2^k: p is the root found so far, m is 2^(k+1) * p, r what is left
      of n after removing p's square, and bit is 4^k, or 0 when no digit is left. */
  ghost predicate Rooting(n: nat, p: nat, m: int, r: int, bit: nat, k: int) {
    && -1 <= k
    && m == p * Pow2(k + 1)
    && 0 <= r && n == p * p + r
    && bit == (if k < 0 then 0 else Pow2(k) * Pow2(k))
    && r <= 2 * m + (if k < 0 then 0 else 4 * bit - 1)
  }

  /** Trying a digit of weight h: the square of p + h exceeds the square of p by 2 * p * h + h * h. */
  lemma TriedDigit(p: int, h: int)
    ensures (p + h) * h == p * h + h * h
    ensures (p + h) * (p + h) == p * p + 2 * (p * h) + h * h
    ensures p * (2 * h) == 2 * (p * h)
  {
  }

  lemma RootStep(n: nat, p: nat, m: int, r: int, bit: nat, k: nat)
    requires Rooting(n, p, m, r, bit, k)
    ensures r < m + bit ==> Rooting(n, p, m / 2, r, bit / 4, k - 1)
    ensures r >= m + bit ==> Rooting(n, p + Pow2(k), m / 2 + bit, r - (m + bit), bit / 4, k - 1)
  {
    var h := Pow2(k);
    TriedDigit(p, h);
    QuarterBit(k);
    assert Pow2(k + 1) == 2 * h;
  }

  lemma QuarterBit(k: nat)
    ensures var b := Pow2(k) * Pow2(k); k > 0 ==> b / 4 == Pow2(k - 1) * Pow2(k - 1) && b % 4 == 0
    ensures k == 0 ==> Pow2(k) * Pow2(k) == 1
  {
    if k > 0 {
      var g := Pow2(k - 1);
      assert (2 * g) * (2 * g) == 4 * (g * g);
    }
  }

  lemma Pow2Sum(a: nat, b: nat)
    ensures Pow2(a + b) == Pow2(a) * Pow2(b)
  {
    Pow2IsScale(a, b);
    ScaleIsMultiple(Pow2(a), b);
  }

  /** The digits of the root of n, from the one of weight 2^k0 down. */
  method Digits(n: nat, bit0: nat, ghost k0: int) returns (m: int, r: int)
    requires Rooting(n, 0, 0, n, bit0, k0)
    ensures IsRoot(n, m, r)
  {
    var bit := bit0;
    m, r := 0, n;
    ghost var p: nat, k := 0, k0;
    while bit != 0
      invariant Rooting(n, p, m, r, bit, k)
      decreases k
    {
      RootStep(n, p, m, r, bit, k);
      if r < m + bit {
        m := m / 2;
      } else {
        r, m, p := r - (m + bit), m / 2 + bit, p + Pow2(k);
      }
      bit, k := bit / 4, k - 1;
    }
  }

  /** Square root with f fractional bits: the exponent is made even and halved, and the root of the
      radicand is the largest one, with its exact remainder. */
  method IntegerSqrt(f: nat, r0: nat, exp0: int) returns (m: int, r: int, exp: int)
    requires f % 2 == 0 && r0 < Pow2(f + 1)
    ensures IsRoot(r0 * Pow2(exp0 % 2), m, r)
    ensures 2 * exp == exp0 - exp0 % 2
  {
    var i := exp0 % 2;
    RootStart(f, r0, i);
    exp := (exp0 - i) / 2;
    m, r := Digits(r0 * Pow2(i), Pow2(f), f / 2);
  }

  lemma RootStart(f: nat, r0: nat, i: nat)
    requires f % 2 == 0 && r0 < Pow2(f + 1) && i <= 1
    ensures Rooting(r0 * Pow2(i), 0, 0, r0 * Pow2(i), Pow2(f), f / 2)
  {
    Pow2Sum(f / 2, f / 2);
    assert Pow2(i) == if i == 0 then 1 else 2;
    assert Pow2(f + 1) == 2 * Pow2(f);
  }

  // ----- Rounding the root -----

  /** The root of the exact number w lies strictly between the midpoints around the code r, so r is
      the nearest code. No root lies on a midpoint. */
  ghost predicate BestRoot(w: nat, r: nat) {
    && r < INFINITY
    && (r > 0 ==> Square(Mag(r - 1) + Mag(r)) < 4 * w)
    && 4 * w < Square(Mag(r) + Mag(r + 1))
  }

  function Square(x: int): int {
    x * x
  }

  lemma SquareOrder(x: int, y: int)
    requires x >= 0 && y >= 0
    ensures x < y <==> Square(x) < Square(y)
  {
    RealSquareOrder(x as real, y as real);
  }

  lemma RealSquareOrder(x: real, y: real)
    requires x >= 0.0 && y >= 0.0
    ensures x < y <==> x * x < y * y
  {
    if x < y {
      Nonnegative(x, y - x);
      assert x * (y - x) == x * y - x * x && y * (y - x) == y * y - x * y;
    } else {
      Nonnegative(y, x - y);
      Nonnegative(x, x - y);
      assert y * (x - y) == x * y - y * y && x * (x - y) == x * x - x * y;
    }
  }

  lemma Nonnegative(a: real, b: real)
    requires a >= 0.0 && b >= 0.0
    ensures a * b >= 0.0
  {
  }

  /** m is the largest integer root of n, with remainder rem. */
  ghost predicate IsRoot(n: nat, m: int, rem: int) {
    n == m * m + rem && 0 <= rem <= 2 * m
  }

  /** Any real root is rounded to nearest. */
  lemma BestRootIsNearest(w: nat, r: nat, v: real)
    requires BestRoot(w, r) && v >= 0.0 && v * v == w as real
    ensures NearestEven(v, r)
  {
    RootBelow(w, Mag(r) + Mag(r + 1), v);
    if r > 0 {
      RootBelow(w, Mag(r - 1) + Mag(r), v);
    }
    NearestByMidpoints(v, r);
  }

  lemma RootBelow(w: nat, a: nat, v: real)
    requires v >= 0.0 && v * v == w as real
    ensures Square(a) < 4 * w ==> (a as real) < 2.0 * v
    ensures 4 * w < Square(a) ==> 2.0 * v < a as real
  {
    var x, y := a as real, 2.0 * v;
    RealSquareOrder(x, y);
    RealSquareOrder(y, x);
    assert y * y == 4.0 * (v * v);
  }

  /** The remainder tells on which side of the cell's midpoint the root lies. */
  lemma RootCell(n: nat, m: nat, rem: nat)
    requires n == m * m + rem && rem <= 2 * m
    ensures Square(2 * m) <= 4 * n < Square(2 * m + 2)
    ensures if rem > m then Square(2 * m + 1) < 4 * n else 4 * n < Square(2 * m + 1)
  {
    var s := m * m;
    assert Square(2 * m) == 4 * s && Square(2 * m + 1) == 4 * s + 4 * m + 1 && Square(2 * m + 2) == 4 * s + 8 * m + 4;
  }

  lemma ScaledSquare(a: int, n: int, p: int, ap: int, np: int)
    requires p > 0 && ap == a * p && np == n * Square(p)
    ensures Square(a) < n ==> Square(ap) < np
    ensures Square(a) <= n ==> Square(ap) <= np
    ensures n < Square(a) ==> np < Square(ap)
  {
    var s := Square(p);
    assert Square(ap) == Square(a) * s;
    assert s > 0;
  }

  lemma CellProducts(m: int, p: int, a: int)
    requires a == m * p
    ensures (2 * m) * p == 2 * a && (2 * m + 1) * p == 2 * a + p && (2 * m + 2) * p == 2 * a + 2 * p
  {
  }

  lemma FourTimes(n: int, s: int, w: int)
    requires w == n * s
    ensures (4 * n) * s == 4 * w
  {
  }

  /** The same after scaling the root by p and the number by its square. */
  lemma ScaledCell(n: nat, m: nat, rem: nat, p: nat, a: nat, w: nat)
    requires n == m * m + rem && rem <= 2 * m && p > 0 && a == m * p && w == n * Square(p)
    ensures Square(2 * a) <= 4 * w < Square(2 * (a + p))
    ensures if rem > m then Square(a + (a + p)) < 4 * w else 4 * w < Square(a + (a + p))
  {
    RootCell(n, m, rem);
    CellProducts(m, p, a);
    FourTimes(n, Square(p), w);
    ScaledSquare(2 * m, 4 * n, p, 2 * a, 4 * w);
    ScaledSquare(2 * m + 1, 4 * n, p, a + (a + p), 4 * w);
    ScaledSquare(2 * m + 2, 4 * n, p, 2 * (a + p), 4 * w);
  }

  /** The integer root with its remainder decides the rounding of the scaled root. */
  lemma RootRounds(n: nat, m: nat, rem: nat, e: nat, w: nat, r: nat)
    requires 0x400 <= m < 0x800 && e <= 28 && IsRoot(n, m, rem)
    requires w == n * Square(Pow2(e))
    requires r == Rounded(e * 1024 + m, if rem > m then 1 else 0, rem != 0)
    ensures BestRoot(w, r)
  {
    var c, p := e * 1024 + m, Pow2(e);
    ScaledCell(n, m, rem, p, m * p, w);
    CodeCell(c, e, m, p);
    CellRoot(c, w, rem > m, r);
  }

  lemma MagIsProduct(c: nat, e: nat, m: nat, p: nat)
    requires 0x400 <= m <= 0x800 && c == e * 1024 + m && p == Pow2(e)
    ensures Mag(c) == m * p
  {
    MagOfCode(c, e, m);
    ScaleIsMultiple(m, e);
  }

  lemma CodeCell(c: nat, e: nat, m: nat, p: nat)
    requires 0x400 <= m < 0x800 && c == e * 1024 + m && p == Pow2(e)
    ensures Mag(c) == m * p && Mag(c + 1) == m * p + p
  {
    MagIsProduct(c, e, m, p);
    MagIsProduct(c + 1, e, m + 1, p);
    NextMultiple(m, p);
  }

  lemma CellRoot(c: nat, w: nat, up: bool, r: nat)
    requires 0 < c && c + 1 < INFINITY && r == if up then c + 1 else c
    requires Square(2 * Mag(c)) <= 4 * w < Square(2 * Mag(c + 1))
    requires if up then Square(Mag(c) + Mag(c + 1)) < 4 * w else 4 * w < Square(Mag(c) + Mag(c + 1))
    ensures BestRoot(w, r)
  {
    MagStep(c - 1);
    MagStep(c + 1);
    SquareOrder(2 * Mag(c + 1), Mag(c + 1) + Mag(c + 2));
    SquareOrder(Mag(c - 1) + Mag(c), 2 * Mag(c));
  }

  // ----- The operation -----

  /** What a square root must be (IEEE 754-2008, section 5.4.1): for a positive finite x the code
      nearest to the root of the exact value, in units of 2^-24. */
  ghost predicate IsSqrt(x: nat, r: nat) {
    if IsNaN(x) then IsNaN(r)
    else if AbsCode(x) == 0 then r == x
    else if x >= SIGN then IsNaN(r)
    else if IsInfinite(x) then r == x
    else BestRoot(0x100_0000 * Mag(x), r)
  }

  method Sqrt(x: nat) returns (r: nat)
    requires IsCode(x)
    ensures IsSqrt(x, r)
  {
    var abs := AbsCode(x);
    if abs == 0 || x >= INFINITY {
      return if abs > INFINITY then Quiet(x) else if x > SIGN then INVALID else x;
    }
    r := SqrtPositive(x);
  }

  method SqrtPositive(x: nat) returns (r: nat)
    requires 0 < x < INFINITY
    ensures BestRoot(0x100_0000 * Mag(x), r)
  {
    var sig, e := Normalize(x);
    Pow2Of21();
    var m, rem, exp := IntegerSqrt(20, 0x400 * sig, 15 + e);
    assert IsRoot(Radicand(sig, e), m, rem);
    SqrtRounded(x, sig, e, m, rem, exp);
    FractionBits(exp, m);
    r := Rounded(exp * 0x400 + m % 0x400, if rem > m then 1 else 0, rem != 0);
  }

  /** Dropping the hidden bit. */
  lemma FractionBits(exp: int, m: int)
    requires 0x400 <= m < 0x800
    ensures exp * 0x400 + m % 0x400 == (exp - 1) * 1024 + m
  {
  }

  /** Assembling the result from the root of the radicand. */
  lemma SqrtRounded(x: nat, sig: nat, e: int, m: int, rem: int, exp: int)
    requires Unpacked(x, sig, e) && IsRoot(Radicand(sig, e), m, rem) && 2 * exp == 15 + e - (15 + e) % 2
    ensures 0x400 <= m < 0x800 && 3 <= exp <= 22
    ensures BestRoot(0x100_0000 * Mag(x), Rounded((exp - 1) * 1024 + m, if rem > m then 1 else 0, rem != 0))
  {
    var n := Radicand(sig, e);
    RootRange(sig, e, n, m, rem);
    RootScale(x, sig, e, exp, n);
    RootRounds(n, m, rem, exp - 1, 0x100_0000 * Mag(x),
               Rounded((exp - 1) * 1024 + m, if rem > m then 1 else 0, rem != 0));
  }

  /** The significand with twenty fractional bits, doubled for an odd exponent. */
  function Radicand(sig: nat, e: int): nat {
    0x400 * sig * Pow2((15 + e) % 2)
  }

  lemma Pow2Of21()
    ensures Pow2(21) == 0x20_0000
  {
    SmallPowers();
  }

  /** The root of a normalised radicand is a normalised significand. */
  lemma RootRange(sig: nat, e: int, n: nat, m: int, rem: int)
    requires 0x400 <= sig < 0x800 && IsRoot(n, m, rem) && n == Radicand(sig, e)
    ensures 0x400 <= m < 0x800
  {
    assert Pow2((15 + e) % 2) == if (15 + e) % 2 == 0 then 1 else 2;
    assert 0x10_0000 <= n < 0x40_0000;
    assert Square(m + 1) == m * m + 2 * m + 1;
    SquareOrder(0x400, m + 1);
    SquareOrder(m, 0x800);
  }

  /** The radicand times the square of the result's scale is the exact value. */
  lemma RootScale(x: nat, sig: nat, e: int, exp: int, n: nat)
    requires Unpacked(x, sig, e) && 2 * exp == 15 + e - (15 + e) % 2
    requires n == Radicand(sig, e)
    ensures 3 <= exp <= 22
    ensures 0x100_0000 * Mag(x) == n * Square(Pow2(exp - 1))
  {
    var i, k := (15 + e) % 2, e + 13;
    Pow2Sum(exp - 1, exp - 1);
    Pow2Sum(i, 2 * exp - 2);
    assert i + (2 * exp - 2) == k;
    Regroup(sig, Pow2(i), Square(Pow2(exp - 1)));
    RadicandValue(x, sig, e);
  }

  lemma Regroup(s: int, a: int, b: int)
    ensures 0x400 * s * a * b == 0x400 * (s * (a * b))
  {
  }

  lemma RadicandValue(x: nat, sig: nat, e: int)
    requires Unpacked(x, sig, e)
    ensures 0x400 * (sig * Pow2(e + 13)) == 0x100_0000 * Mag(x)
  {
    ShiftTwice(sig as real, e - 1, 14);
    ScaleIsShift(sig, e + 13);
    ScaleIsShift(Mag(x), 14);
    ScaleIsMultiple(sig, e + 13);
    ScaleIsMultiple(Mag(x), 14);
    SmallPowers();
  }

  /** Any real root of the exact value is rounded to nearest, and the root's value is unique. */
  lemma SqrtIsNearest(x: nat, r: nat, v: real)
    requires 0 < x < INFINITY && IsSqrt(x, r)
    requires v >= 0.0 && v * v == (0x100_0000 * Mag(x)) as real
    ensures NearestEven(v, r)
  {
    var w := 0x100_0000 * Mag(x);
    PositiveRoot(x, r, w);
    BestRootIsNearest(w, r, v);
  }

  lemma PositiveRoot(x: nat, r: nat, w: nat)
    requires 0 < x < INFINITY && IsSqrt(x, r) && w == 0x100_0000 * Mag(x)
    ensures BestRoot(w, r)
  {
    assert AbsCode(x) == x;
  }
}
