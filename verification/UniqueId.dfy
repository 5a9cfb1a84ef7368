/** Quantised identifiers of shapes: four numbers, each rounded to half precision and then to a
    multiple of eight. */
module UniqueIds {
  import opened HalfConvert
  import opened HalfFormat
  import opened HalfRounding
  import opened HalfWiden

  /** The double nearest to one tenth. */
  const ZERO_THRESHOLD: real := 3602879701896397.0 / 36028797018963968.0
  const ROUND_PRECISION_MASK := 8
  const ID_ITEM_COUNT := 4
  const ID_ITEM_BITS := 16

  // ----- Rounding the code -----

  /** Nearest multiple of tol in 16-bit unsigned arithmetic, halves upwards. */
  function Round(value: nat, tol: nat): nat
    requires tol > 0
  {
    var r := value / tol + if value % tol >= tol / 2 then 1 else 0;
    r * tol % 0x1_0000
  }

  function Distance(a: int, b: int): int {
    if a < b then b - a else a - b
  }

  /** The result is a nearest multiple of 8 exactly if it does not wrap around. */
  lemma RoundIsNearestMultiple(value: nat)
    requires value <= 0xFFFF
    ensures var r := Round(value, 8);
            && r % 8 == 0
            && (value < 0xFFFC <==> forall k: nat :: Distance(r, value) <= Distance(8 * k, value))
            && (value >= 0xFFFC ==> r == 0)
  {
    var r := Round(value, 8);
    if value >= 0xFFFC {
      assert Distance(8 * 8191, value) < Distance(r, value);
    }
  }

  lemma RoundMonotone(a: nat, b: nat)
    requires a <= b < 0xFFFC
    ensures Round(a, 8) <= Round(b, 8)
  {
  }

  // ----- Narrowing -----

  /** f is the single-precision pattern nearest to v >= 0, in units of 2^-24, ties to even; values too
      large become infinity. This is what a cast from double to float does (IEEE 754-2008, section 5.4.2). */
  ghost predicate NearestFloat(v: real, f: nat) {
    && f <= FLOAT_INFINITY
    && forall g: nat :: g <= FLOAT_INFINITY ==>
         && Abs(v - FloatMag(f)) <= Abs(v - FloatMag(g))
         && (g != f && Abs(v - FloatMag(f)) == Abs(v - FloatMag(g)) ==> f % 2 == 0)
  }

  lemma NearestFloatMonotone(v: real, w: real, f: nat, g: nat)
    requires v <= w && NearestFloat(v, f) && NearestFloat(w, g)
    ensures f <= g
  {
    var between := FloatMag(g + 1);
    if g < f {
      FloatOrder(g, f);
      FloatStep(g);
      FloatOrder(g + 1, f);
    }
  }

  /** f is the pattern a cast of v gives: the magnitude rounded to nearest, with the sign of v. */
  ghost predicate IsCast(v: real, f: nat) {
    var a := if v < 0.0 then f - FLOAT_SIGN else f;
    a >= 0 && NearestFloat(Shift(Abs(v), 24), a)
  }

  // ----- The quantiser -----

  /** Numbers close to zero are taken as zero before the cast. */
  function Thresholded(value: real): real {
    if Abs(value) < ZERO_THRESHOLD then 0.0 else value
  }

  /** The item for the number whose thresholded value is cast to the pattern f. */
  function Double2Uint16(f: nat): nat {
    Round(FloatToHalf(f), ROUND_PRECISION_MASK)
  }

  lemma SignedPattern(a: nat, f: nat)
    requires a <= FLOAT_INFINITY && (f == a || f == FLOAT_SIGN + a)
    ensures FloatAbs(f) == a && f <= 0xFFFF_FFFF
  {
  }

  lemma FiniteBound(r: nat)
    requires IsCode(r) && AbsCode(r) <= INFINITY
    ensures r <= SIGN + INFINITY
  {
  }

  lemma CastCode(v: real, f: nat)
    requires IsCast(v, f)
    ensures FloatToHalf(f) <= SIGN + INFINITY
  {
    SignedPattern(if v < 0.0 then f - FLOAT_SIGN else f, f);
    FloatToHalfIsNearest(f);
    FiniteBound(FloatToHalf(f));
  }

  /** Larger non-negative numbers get no smaller items. */
  lemma QuantiserMonotone(value: real, other: real, f: nat, g: nat)
    requires 0.0 <= value <= other && IsCast(Thresholded(value), f) && IsCast(Thresholded(other), g)
    ensures Double2Uint16(f) <= Double2Uint16(g)
  {
    var v, w := Thresholded(value), Thresholded(other);
    ShiftOrder(v, w, 24);
    NearestFloatMonotone(Shift(v, 24), Shift(w, 24), f, g);
    FloatToHalfMonotone(f, g);
    RoundMonotone(FloatToHalf(f), FloatToHalf(g));
  }

  /** Every item is a nearest multiple of eight to the half code. */
  lemma QuantiserRounds(value: real, f: nat, k: nat)
    requires IsCast(Thresholded(value), f)
    ensures var r, c := Double2Uint16(f), FloatToHalf(f);
            r % 8 == 0 && Distance(r, c) <= Distance(8 * k, c)
  {
    CastCode(Thresholded(value), f);
    RoundIsNearestMultiple(FloatToHalf(f));
  }

  /** From one tenth up the item is a nearest multiple of eight to the half code nearest to the
      single-precision cast of the number itself, and the code has the number's sign. */
  lemma QuantiserMeaning(value: real, f: nat, k: nat)
    requires Abs(value) >= 3602879701896397.0 / 36028797018963968.0 && IsCast(Thresholded(value), f)
    ensures var a, c, item := FloatAbs(f), FloatToHalf(f), Double2Uint16(f);
            && NearestFloat(Shift(Abs(value), 24), a)
            && SignOf(c) == (if value < 0.0 then SIGN else 0)
            && (a < FLOAT_INFINITY ==> NearestEven(FloatMag(a), AbsCode(c)))
            && (a == FLOAT_INFINITY ==> AbsCode(c) == INFINITY)
            && item % 8 == 0 && Distance(item, c) <= Distance(8 * k, c)
  {
    var a := if value < 0.0 then f - FLOAT_SIGN else f;
    SignedPattern(a, f);
    FloatToHalfIsNearest(f);
    QuantiserRounds(value, f, k);
  }

  /** Closer to zero than one tenth the item is zero. */
  lemma QuantiserZero(value: real, f: nat)
    requires Abs(value) < 3602879701896397.0 / 36028797018963968.0 && IsCast(Thresholded(value), f)
    ensures Double2Uint16(f) == 0
  {
    ShiftZero(24);
    ZeroPattern(f);
    assert FloatAbs(0) == 0 && FloatSign(0) == 0 && FloatCode(0) == 0;
  }

  lemma ZeroPattern(f: nat)
    requires NearestFloat(0.0, f)
    ensures f == 0
  {
    ShiftZero(-125);
    assert FloatMag(0) == 0.0;
    FloatOrder(0, f);
  }

  // ----- The identifier -----

  /** Exclusive or, bit by bit. */
  function Xor(a: nat, b: nat): nat {
    if a == 0 && b == 0 then 0 else 2 * Xor(a / 2, b / 2) + (a + b) % 2
  }

  lemma {:induction false} XorZero(t: nat)
    ensures Xor(0, t) == t
  {
    if t > 0 {
      XorZero(t / 2);
    }
  }

  lemma XorStep(a: nat, b: nat)
    ensures Xor(a, b) == 2 * Xor(a / 2, b / 2) + (a + b) % 2
  {
  }

  lemma EvenHalf(a: nat, b: nat, s: nat)
    requires b == 2 * s
    ensures b / 2 == s && (a + b) % 2 == a % 2 && a == 2 * (a / 2) + a % 2
  {
  }

  /** On disjoint bits, exclusive or is addition. */
  lemma {:induction false} XorDisjoint(a: nat, t: nat, k: nat)
    requires a < Pow2(k)
    ensures Xor(a, Scale(t, k)) == a + Scale(t, k)
  {
    if k == 0 {
      XorZero(t);
    } else {
      XorDisjoint(a / 2, t, k - 1);
      XorStep(a, Scale(t, k));
      EvenHalf(a, Scale(t, k), Scale(t, k - 1));
    }
  }

  /** The number whose base-65536 digits are the items, lowest first. */
  function Pack(items: seq<nat>): nat {
    if items == [] then 0 else items[0] + Scale(Pack(items[1..]), ID_ITEM_BITS)
  }

  predicate IsItems(items: seq<nat>) {
    forall i :: 0 <= i < |items| ==> items[i] < 0x1_0000
  }

  lemma {:induction false} PackSnoc(items: seq<nat>, item: nat)
    requires IsItems(items)
    ensures Pack(items + [item]) == Pack(items) + Scale(item, ID_ITEM_BITS * |items|)
    ensures Pack(items) < Pow2(ID_ITEM_BITS * |items|)
  {
    if items == [] {
      assert Pack([item]) == item + Scale(Pack([]), ID_ITEM_BITS);
      ScaleIsMultiple(0, ID_ITEM_BITS);
    } else {
      var rest, k := items[1..], ID_ITEM_BITS * |items[1..]|;
      assert (items + [item])[1..] == rest + [item];
      PackSnoc(rest, item);
      ScaleIsMultiple(Pack(rest), ID_ITEM_BITS);
      ScaleIsMultiple(Pack(rest + [item]), ID_ITEM_BITS);
      ScaleScale(item, k, ID_ITEM_BITS);
      ScaleIsMultiple(Scale(item, k), ID_ITEM_BITS);
      Pow2Sum16(k);
    }
  }

  lemma Pow2Sum16(k: nat)
    ensures Pow2(ID_ITEM_BITS) == 0x1_0000 && Pow2(k + ID_ITEM_BITS) == 0x1_0000 * Pow2(k)
  {
    ScaleIsMultiple(Pow2(k), ID_ITEM_BITS);
    Pow2IsScale(k, ID_ITEM_BITS);
    SmallPowers();
    assert Pow2(16) == 4 * Pow2(14);
  }

  lemma PackFirst(items: seq<nat>, rest: seq<nat>)
    requires items != [] && rest == items[1..]
    ensures Pack(items) == items[0] + 0x1_0000 * Pack(rest)
  {
    SixteenBits(Pack(rest));
  }

  /** The first item is in the lowest sixteen bits, the last one in the highest. */
  lemma PackedFour(a: nat, b: nat, c: nat, d: nat)
    ensures Pack([a, b, c, d]) == a + 0x1_0000 * (b + 0x1_0000 * (c + 0x1_0000 * d))
  {
    PackFirst([a, b, c, d], [b, c, d]);
    PackFirst([b, c, d], [c, d]);
    PackFirst([c, d], [d]);
    PackFirst([d], []);
  }

  /** The items of the numbers cast to the given patterns. */
  function Items(casts: seq<nat>): (items: seq<nat>)
    ensures IsItems(items) && |items| == |casts|
  {
    seq(|casts|, i requires 0 <= i < |casts| => Double2Uint16(casts[i]))
  }

  method UniqueId(casts: seq<nat>) returns (id: nat)
    requires |casts| == ID_ITEM_COUNT
    ensures id == Pack(Items(casts)) < Pow2(64)
  {
    id := 0;
    ghost var items := Items(casts);
    for i := 0 to |casts|
      invariant id == Pack(items[..i])
    {
      var tmp := Double2Uint16(casts[i]);
      PackSnoc(items[..i], tmp);
      XorDisjoint(id, tmp, ID_ITEM_BITS * i);
      assert items[..i + 1] == items[..i] + [tmp];
      id := Xor(id, Scale(tmp, ID_ITEM_BITS * i));
    }
    assert items[..|items|] == items;
    PackSnoc(items, 0);
  }

  /** Two shapes get the same identifier exactly if all their items agree. */
  lemma IdentifiersCoincide(f: seq<nat>, g: seq<nat>)
    requires |f| == |g|
    ensures Pack(Items(f)) == Pack(Items(g)) <==> Items(f) == Items(g)
  {
    if Pack(Items(f)) == Pack(Items(g)) {
      forall i | 0 <= i < |f|
        ensures Items(f)[i] == Items(g)[i]
      {
        FieldOfPack(Items(f), i);
        FieldOfPack(Items(g), i);
      }
    }
  }

  /** The field at position i of an identifier. */
  function Field(id: nat, i: nat): (c: nat)
    ensures IsCode(c)
  {
    Shr(id, ID_ITEM_BITS * i) % 0x1_0000
  }

  /** The fields of a packed identifier are its items. */
  lemma FieldsOfPacked(items: seq<nat>)
    requires IsItems(items)
    ensures forall i :: 0 <= i < |items| ==> Field(Pack(items), i) == items[i]
  {
    forall i | 0 <= i < |items|
      ensures Field(Pack(items), i) == items[i]
    {
      FieldOfPack(items, i);
    }
  }

  /** Reads an identifier as four double-precision numbers, with the exact values of its items. */
  method UniqueIdToGeometry(id: nat) returns (values: seq<nat>)
    ensures |values| == ID_ITEM_COUNT
    ensures forall items :: |items| == ID_ITEM_COUNT && IsItems(items) && id == Pack(items) ==>
              forall i :: 0 <= i < ID_ITEM_COUNT ==> SameNumber(values[i], items[i])
  {
    values := [];
    for i := 0 to ID_ITEM_COUNT
      invariant |values| == i
      invariant forall j :: 0 <= j < i ==> SameNumber(values[j], Field(id, j))
    {
      var v := HalfToDouble(Field(id, i));
      values := values + [v];
    }
    forall items | |items| == ID_ITEM_COUNT && IsItems(items) && id == Pack(items)
      ensures forall i :: 0 <= i < ID_ITEM_COUNT ==> SameNumber(values[i], items[i])
    {
      FieldsOfPacked(items);
    }
  }

  lemma SixteenBits(x: nat)
    ensures Scale(x, ID_ITEM_BITS) == 0x1_0000 * x && Shr(x, ID_ITEM_BITS) == x / 0x1_0000
  {
    Pow2Sum16(0);
    ScaleIsMultiple(x, ID_ITEM_BITS);
    ShrIsDivision(x, ID_ITEM_BITS);
  }

  lemma LowestDigit(p: nat, low: nat, high: nat)
    requires low < 0x1_0000 && p == low + 0x1_0000 * high
    ensures p % 0x1_0000 == low && p / 0x1_0000 == high
  {
  }

  /** The lowest field is the first item, and the fields above are those of the other items. */
  lemma FirstField(items: seq<nat>)
    requires IsItems(items) && items != []
    ensures Pack(items) % 0x1_0000 == items[0] && Shr(Pack(items), ID_ITEM_BITS) == Pack(items[1..])
  {
    var p, low, high := Pack(items), items[0], Pack(items[1..]);
    SixteenBits(high);
    SixteenBits(p);
    LowestDigit(p, low, high);
  }

  /** Each item comes back from its field. */
  lemma {:induction false} FieldOfPack(items: seq<nat>, i: nat)
    requires IsItems(items) && i < |items|
    ensures Field(Pack(items), i) == items[i]
    decreases i
  {
    FirstField(items);
    if i > 0 {
      FieldOfPack(items[1..], i - 1);
      ShrShr(Pack(items), ID_ITEM_BITS, ID_ITEM_BITS * (i - 1));
    }
  }

  lemma {:induction false} ShrShr(m: nat, a: nat, b: nat)
    ensures Shr(Shr(m, a), b) == Shr(m, a + b)
  {
    if b > 0 {
      ShrShr(m, a, b - 1);
    }
  }
}
