/** Scanning and printing of Matrix Market text ("Coordinate Format" of NISTIR 5935). */
module MatrixMarketText {

  // ----- Characters and white space -----

  predicate IsSpace(c: char) {
    c == ' ' || 9 <= c as int <= 13
  }

  predicate IsDigit(c: char) {
    '0' <= c <= '9'
  }

  function SkipSpace(s: string): (r: string)
    ensures |r| <= |s|
  {
    if s != "" && IsSpace(s[0]) then SkipSpace(s[1..]) else s
  }

  // ----- Decimal numbers -----

  function DigitChar(d: nat): char
    requires d < 10
  {
    '0' + d as char
  }

  /** What %d prints. */
  function Decimal(n: nat): string {
    if n < 10 then [DigitChar(n)] else Decimal(n / 10) + [DigitChar(n % 10)]
  }

  function Printed(i: int): string {
    if i < 0 then "-" + Decimal(-i) else Decimal(i)
  }

  predicate AllDigits(s: string) {
    forall i :: 0 <= i < |s| ==> IsDigit(s[i])
  }

  function DigitsValue(s: string): nat
    requires AllDigits(s)
  {
    if s == "" then 0 else 10 * DigitsValue(s[..|s| - 1]) + (s[|s| - 1] - '0') as nat
  }

  lemma {:induction false} DecimalValue(n: nat)
    ensures AllDigits(Decimal(n)) && |Decimal(n)| > 0 && DigitsValue(Decimal(n)) == n
  {
    if n < 10 {
      assert DigitsValue("") == 0;
      assert Decimal(n)[..0] == "";
    } else {
      DecimalValue(n / 10);
      var s := Decimal(n);
      assert s[..|s| - 1] == Decimal(n / 10);
    }
  }

  /** Number of leading digits. */
  function DigitCount(s: string): (n: nat)
    ensures n <= |s| && AllDigits(s[..n])
  {
    if s == "" || !IsDigit(s[0]) then 0
    else var n := 1 + DigitCount(s[1..]); assert s[..n] == [s[0]] + s[1..][..n - 1]; n
  }

  predicate Ends(tail: string) {
    tail == "" || (!IsDigit(tail[0]) && IsSpace(tail[0]))
  }

  lemma {:induction false} DigitCountOf(s: string, tail: string)
    requires AllDigits(s) && (tail == "" || !IsDigit(tail[0]))
    ensures DigitCount(s + tail) == |s|
  {
    if s == "" {
      assert s + tail == tail;
    } else {
      DigitCountOf(s[1..], tail);
      assert (s + tail)[1..] == s[1..] + tail;
    }
  }

  /** One %d conversion: white space, an optional sign, digits. */
  datatype Scan = Scan(matched: bool, value: int, rest: string)

  function ScanDigits(u: string, negative: bool): (r: Scan)
    ensures |r.rest| <= |u| && (r.matched ==> |r.rest| < |u|)
  {
    var n := DigitCount(u);
    var v: int := DigitsValue(u[..n]);
    Scan(n > 0, if negative then -v else v, u[n..])
  }

  /** After the white space: a sign, then digits. */
  function ScanSigned(t: string): (r: Scan)
    ensures |r.rest| <= |t| && (r.matched ==> |r.rest| < |t|)
  {
    if t != "" && t[0] == '-' then ScanDigits(t[1..], true)
    else if t != "" && t[0] == '+' then ScanDigits(t[1..], false)
    else ScanDigits(t, false)
  }

  function ScanInt(s: string): (r: Scan)
    ensures |r.rest| <= |SkipSpace(s)| <= |s| && (r.matched ==> |r.rest| < |s|)
  {
    ScanSigned(SkipSpace(s))
  }

  lemma ScanDecimal(n: nat, negative: bool, tail: string)
    requires Ends(tail)
    ensures ScanDigits(Decimal(n) + tail, negative) == Scan(true, if negative then -(n as int) else n, tail)
  {
    var d := Decimal(n);
    var u := d + tail;
    DecimalValue(n);
    DigitCountOf(d, tail);
    assert u[..|d|] == d && u[|d|..] == tail;
  }

  lemma PrintedStart(i: int)
    ensures Printed(i) != "" && !IsSpace(Printed(i)[0])
    ensures if i < 0 then Printed(i)[0] == '-' else IsDigit(Printed(i)[0])
  {
    DecimalValue(if i < 0 then -i else i);
  }

  lemma ScanMinus(d: string, tail: string)
    ensures ScanSigned("-" + d + tail) == ScanDigits(d + tail, true)
  {
    assert ("-" + d + tail)[1..] == d + tail;
  }

  lemma ScanUnsigned(d: string, tail: string)
    requires d != "" && IsDigit(d[0])
    ensures ScanSigned(d + tail) == ScanDigits(d + tail, false)
  {
    assert (d + tail)[0] == d[0];
  }

  lemma ScanSignedPrinted(i: int, tail: string)
    requires Ends(tail)
    ensures ScanSigned(Printed(i) + tail) == Scan(true, i, tail)
  {
    if i < 0 {
      ScanMinus(Decimal(-i), tail);
      ScanDecimal(-i, true, tail);
    } else {
      PrintedStart(i);
      ScanUnsigned(Decimal(i), tail);
      ScanDecimal(i, false, tail);
    }
  }

  /** One blank before a text that starts with no white space is skipped. */
  lemma SkipBlank(t: string)
    requires t != "" && !IsSpace(t[0])
    ensures SkipSpace(t) == t && SkipSpace(" " + t) == t
  {
    assert (" " + t)[1..] == t;
  }

  /** Scanning undoes printing, after any white space. */
  lemma ScanPrinted(i: int, tail: string)
    requires Ends(tail)
    ensures ScanInt(Printed(i) + tail) == Scan(true, i, tail)
    ensures ScanInt(" " + (Printed(i) + tail)) == Scan(true, i, tail)
  {
    PrintedStart(i);
    ScanSignedPrinted(i, tail);
    SkipBlank(Printed(i) + tail);
  }

  // ----- Numbers with a fraction -----

  /** One %lg conversion of a decimal number, keeping only whether its digits are all zero: that is what
      the cast to bool looks at. */
  datatype Number = Number(matched: bool, nonzero: bool, rest: string)

  function ScanNumber(s: string): (r: Number)
    ensures |r.rest| <= |s|
  {
    ScanParted(AfterSign(SkipSpace(s)))
  }

  function AfterSign(t: string): (r: string)
    ensures |r| <= |t|
  {
    if t != "" && (t[0] == '-' || t[0] == '+') then t[1..] else t
  }

  /** After the sign: digits, and a fraction if there is a point. */
  function ScanParted(u: string): (r: Number)
    ensures |r.rest| <= |u|
  {
    var n := DigitCount(u);
    if n < |u| && u[n] == '.' then ScanFractionOf(u[..n], u[n + 1..])
    else if n == 0 then Number(false, false, u)
    else ScanExponent(u[n..], DigitsValue(u[..n]) != 0)
  }

  /** After the point, with the digits before it. */
  function ScanFractionOf(whole: string, f: string): (r: Number)
    requires AllDigits(whole)
    ensures |r.rest| <= |f|
  {
    var m := DigitCount(f);
    if |whole| + m == 0 then Number(false, false, f)
    else ScanExponent(f[m..], DigitsValue(whole) != 0 || DigitsValue(f[..m]) != 0)
  }

  function ScanExponent(s: string, nonzero: bool): (r: Number)
    ensures |r.rest| <= |s|
  {
    if s != "" && (s[0] == 'e' || s[0] == 'E') then
      var e := ScanSigned(s[1..]);
      Number(e.matched, nonzero, e.rest)
    else Number(true, nonzero, s)
  }

  function FlagText(b: bool): string {
    if b then "1" else "0"
  }

  lemma ScanFlag(b: bool, tail: string)
    ensures ScanNumber(" " + (FlagText(b) + ("\n" + tail))) == Number(true, b, "\n" + tail)
  {
    var end := "\n" + tail;
    var t := FlagText(b) + end;
    assert AllDigits(FlagText(b));
    SkipBlank(t);
    DigitCountOf(FlagText(b), end);
    assert t[0] == FlagText(b)[0] && t[..1] == FlagText(b) && t[1..] == end && t[1] == '\n';
    assert FlagText(b)[..0] == "" && DigitsValue("") == 0;
    assert end[0..] == end && end[..0] == "";
  }

  predicate AllZeros(s: string) {
    forall i :: 0 <= i < |s| ==> s[i] == '0'
  }

  lemma {:induction false} DigitsZero(s: string)
    requires AllDigits(s)
    ensures DigitsValue(s) == 0 <==> AllZeros(s)
  {
    if s != "" {
      var n := |s| - 1;
      DigitsZero(s[..n]);
      assert forall i :: 0 <= i < n ==> s[..n][i] == s[i];
      assert s[n] == '0' <==> s[n] - '0' == 0 as char;
    }
  }

  lemma ScanParts(t: string, a: string, b: string, tail: string)
    requires AllDigits(a) && AllDigits(b) && a != "" && Ends(tail)
    requires t == a + ("." + (b + tail))
    ensures DigitCount(t) == |a| && t[..|a|] == a && t[|a|] == '.' && t[|a| + 1..] == b + tail
    ensures DigitCount(b + tail) == |b| && (b + tail)[..|b|] == b && (b + tail)[|b|..] == tail
  {
    DigitCountOf(a, "." + (b + tail));
    DigitCountOf(b, tail);
  }

  lemma PlainStart(t: string)
    requires t != "" && IsDigit(t[0])
    ensures AfterSign(SkipSpace(t)) == t
  {
  }

  lemma EndsNumber(tail: string, nonzero: bool)
    requires Ends(tail)
    ensures ScanExponent(tail, nonzero) == Number(true, nonzero, tail)
  {
  }

  /** A number with a fraction counts as zero exactly if all its digits are zeros. */
  lemma ScanFraction(a: string, b: string, tail: string)
    requires AllDigits(a) && AllDigits(b) && a != "" && Ends(tail)
    ensures ScanNumber(a + ("." + (b + tail))) == Number(true, !AllZeros(a) || !AllZeros(b), tail)
  {
    var t := a + ("." + (b + tail));
    ScanParts(t, a, b, tail);
    assert t[0] == a[0];
    PlainStart(t);
    assert ScanParted(t) == ScanFractionOf(a, b + tail);
    EndsNumber(tail, DigitsValue(a) != 0 || DigitsValue(b) != 0);
    DigitsZero(a);
    DigitsZero(b);
  }

  // ----- Words and lines -----

  predicate IsWord(w: string) {
    w != "" && forall i :: 0 <= i < |w| ==> !IsSpace(w[i])
  }

  function WordLength(s: string): (n: nat)
    ensures n <= |s|
  {
    if s == "" || IsSpace(s[0]) then 0 else 1 + WordLength(s[1..])
  }

  /** One %s conversion; the word is empty if there is none. */
  datatype Word = Word(text: string, rest: string)

  function ScanWord(s: string): Word {
    var t := SkipSpace(s);
    var n := WordLength(t);
    Word(t[..n], t[n..])
  }

  lemma {:induction false} WordLengthOf(w: string, tail: string)
    requires forall i :: 0 <= i < |w| ==> !IsSpace(w[i])
    requires tail == "" || IsSpace(tail[0])
    ensures WordLength(w + tail) == |w|
  {
    if w == "" {
      assert w + tail == tail;
    } else {
      WordLengthOf(w[1..], tail);
      assert (w + tail)[1..] == w[1..] + tail;
    }
  }

  lemma ScanPlainWord(w: string, tail: string)
    requires IsWord(w) && (tail == "" || IsSpace(tail[0]))
    ensures ScanWord(w + tail) == Word(w, tail)
    ensures ScanWord(" " + (w + tail)) == Word(w, tail)
  {
    var t := w + tail;
    WordLengthOf(w, tail);
    SkipBlank(t);
    assert t[..|w|] == w && t[|w|..] == tail;
  }

  const MM_MAX_LINE_LENGTH := 1025

  /** Length of what fgets reads: up to and with the first newline, or as much as fits. */
  function LineLength(s: string, room: nat): (n: nat)
    ensures n <= |s| && (s != "" && room > 0 ==> n > 0)
  {
    if s == "" || room == 0 then 0 else if s[0] == '\n' then 1 else 1 + LineLength(s[1..], room - 1)
  }

  lemma {:induction false} LineLengthOf(a: string, tail: string, room: nat)
    requires '\n' !in a && |a| < room
    ensures LineLength(a + ("\n" + tail), room) == |a| + 1
  {
    if a == "" {
      assert a + ("\n" + tail) == "\n" + tail;
    } else {
      LineLengthOf(a[1..], tail, room - 1);
      assert (a + ("\n" + tail))[1..] == a[1..] + ("\n" + tail);
    }
  }

  // ----- Lower case -----

  function ToLower(c: char): char {
    if 'A' <= c <= 'Z' then c - 'A' + 'a' else c
  }

  /** The word in lower case. */
  function Lowered(w: string): string {
    seq(|w|, i requires 0 <= i < |w| => ToLower(w[i]))
  }

  method LowerCase(w: string) returns (lower: string)
    ensures lower == Lowered(w)
  {
    lower := w;
    for p := 0 to |w|
      invariant |lower| == |w|
      invariant forall i :: 0 <= i < |w| ==> lower[i] == if i < p then ToLower(w[i]) else w[i]
    {
      lower := lower[p := ToLower(lower[p])];
    }
  }
}
