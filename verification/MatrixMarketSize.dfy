/** When the size reader never returns, told from the text alone. */
module MatrixMarketSizes {
  import opened MatrixMarketText
  import opened MatrixMarket

  // ----- What there is to see in a text -----

  predicate IsSign(c: char) {
    c == '-' || c == '+'
  }

  predicate IsNumeric(c: char) {
    IsDigit(c) || IsSign(c) || IsSpace(c)
  }

  /** The first digit of a number is at n. */
  predicate NumberAt(t: string, n: nat)
    requires n < |t|
  {
    IsDigit(t[n]) && (n == 0 || !IsDigit(t[n - 1]))
  }

  /** A sign with no digit behind it is at n. */
  predicate LoneSignAt(t: string, n: nat)
    requires n < |t|
  {
    IsSign(t[n]) && (n + 1 == |t| || !IsDigit(t[n + 1]))
  }

  /** The numbers that start in the first n characters, since the last lone sign among these. */
  function NumbersInRow(t: string, n: nat): nat
    requires n <= |t|
  {
    CountRow(t, n)
  }

  function CountRow(t: string, n: nat): nat
    requires n <= |t|
  {
    if n == 0 || LoneSignAt(t, n - 1) then 0
    else CountRow(t, n - 1) + if NumberAt(t, n - 1) then 1 else 0
  }

  ghost predicate AllNumeric(t: string, n: nat) {
    n <= |t| && forall m :: 0 <= m < n ==> IsNumeric(t[m])
  }

  ghost predicate FewInRow(t: string, n: nat) {
    n <= |t| && forall m :: 0 <= m <= n ==> NumbersInRow(t, m) < 3
  }

  /** The first character that cannot belong to a number is at n, and no three numbers come before it
      without a lone sign between them. */
  ghost predicate BlockedAt(t: string, n: nat) {
    n < |t| && !IsNumeric(t[n]) && AllNumeric(t, n) && FewInRow(t, n)
  }

  // ----- One conversion -----

  /** No number goes on across p. */
  predicate Boundary(t: string, p: nat)
    requires p <= |t|
  {
    p == 0 || p == |t| || !IsDigit(t[p - 1]) || !IsDigit(t[p])
  }

  /** The text from p to q is numeric and the row never gets longer than `most` there. */
  ghost predicate Between(t: string, p: nat, q: nat, most: nat) {
    && p <= q <= |t|
    && (forall n :: p <= n < q ==> IsNumeric(t[n]))
    && (forall n :: p <= n <= q ==> NumbersInRow(t, n) <= most)
  }

  lemma SpaceStep(t: string, p: nat)
    requires p < |t| && IsSpace(t[p])
    ensures NumbersInRow(t, p + 1) == NumbersInRow(t, p)
    ensures SkipSpace(t[p..]) == SkipSpace(t[p + 1..]) && !IsDigit(t[p]) && IsNumeric(t[p])
  {
    assert t[p..][1..] == t[p + 1..];
  }

  lemma NoSpace(t: string, p: nat)
    requires p <= |t| && (p == |t| || !IsSpace(t[p]))
    ensures SkipSpace(t[p..]) == t[p..] && Between(t, p, p, NumbersInRow(t, p))
  {
  }

  lemma DigitStep(t: string, p: nat)
    requires 0 < p < |t| && IsDigit(t[p - 1]) && IsDigit(t[p])
    ensures NumbersInRow(t, p + 1) == NumbersInRow(t, p)
    ensures DigitCount(t[p..]) == 1 + DigitCount(t[p + 1..])
  {
    assert t[p..][1..] == t[p + 1..];
  }

  /** One more numeric character in front. */
  lemma OneBefore(t: string, p: nat, q: nat, most: nat)
    requires p < |t| && IsNumeric(t[p]) && NumbersInRow(t, p) <= most
    requires Between(t, p + 1, q, most)
    ensures Between(t, p, q, most)
  {
  }

  lemma {:induction false} SpacesBetween(t: string, p: nat) returns (q: nat)
    requires p <= |t|
    ensures Between(t, p, q, NumbersInRow(t, p)) && NumbersInRow(t, q) == NumbersInRow(t, p)
    ensures SkipSpace(t[p..]) == t[q..] && (q == |t| || !IsSpace(t[q]))
    ensures q == p || !IsDigit(t[q - 1])
    decreases |t| - p
  {
    if p < |t| && IsSpace(t[p]) {
      SpaceStep(t, p);
      q := SpacesBetween(t, p + 1);
      OneBefore(t, p, q, NumbersInRow(t, p));
    } else {
      q := p;
      NoSpace(t, p);
    }
  }

  lemma {:induction false} DigitsBetween(t: string, p: nat) returns (q: nat)
    requires 0 < p <= |t| && IsDigit(t[p - 1])
    ensures Between(t, p, q, NumbersInRow(t, p)) && NumbersInRow(t, q) == NumbersInRow(t, p)
    ensures q == p + DigitCount(t[p..]) && (q == |t| || !IsDigit(t[q]))
    decreases |t| - p
  {
    if p < |t| && IsDigit(t[p]) {
      DigitStep(t, p);
      q := DigitsBetween(t, p + 1);
      OneBefore(t, p, q, NumbersInRow(t, p));
    } else {
      q := p;
    }
  }

  /** From p, a conversion matched up to q: the row is longer by one. */
  ghost predicate Matched(t: string, p: nat, q: nat) {
    p < q <= |t| && Boundary(t, q) && NumbersInRow(t, q) == NumbersInRow(t, p) + 1
    && Between(t, p, q, NumbersInRow(t, q))
  }

  /** From p, a conversion read a lone sign up to q and failed behind it. */
  ghost predicate SignRead(t: string, p: nat, q: nat) {
    && p < q <= |t| && Boundary(t, q) && NumbersInRow(t, q) == 0
    && Between(t, p, q, NumbersInRow(t, p))
    && |t| - q < |SkipSpace(t[p..])|
  }

  /** From p, a conversion failed at q, where the text ends or no number can start. */
  ghost predicate Halted(t: string, p: nat, q: nat) {
    && p <= q <= |t| && Boundary(t, q)
    && Between(t, p, q, NumbersInRow(t, p))
    && SkipSpace(t[p..]) == t[q..] && (q == |t| || !IsNumeric(t[q]))
  }

  lemma Join(t: string, p: nat, b: nat, q: nat, m: nat, most: nat)
    requires Between(t, p, b, m) && Between(t, b, q, most) && m <= most
    ensures Between(t, p, q, most)
  {
  }

  lemma DigitsMatch(t: string, p: nat, q: nat)
    requires p < q <= |t| && IsDigit(t[p]) && Boundary(t, p)
    requires Between(t, p + 1, q, NumbersInRow(t, p + 1)) && NumbersInRow(t, q) == NumbersInRow(t, p + 1)
    requires q == |t| || !IsDigit(t[q])
    ensures Matched(t, p, q)
  {
    assert !LoneSignAt(t, p) && NumberAt(t, p);
    assert NumbersInRow(t, p + 1) == NumbersInRow(t, p) + 1;
    Join(t, p, p + 1, q, NumbersInRow(t, q), NumbersInRow(t, q));
  }

  lemma FromDigit(t: string, p: nat, negative: bool) returns (q: nat)
    requires p < |t| && Boundary(t, p) && IsDigit(t[p])
    ensures var a := ScanDigits(t[p..], negative);
            a.matched && Matched(t, p, q) && a.rest == t[q..]
  {
    q := DigitsBetween(t, p + 1);
    DigitsMatch(t, p, q);
    CountFrom(t, p, q);
  }

  lemma CountFrom(t: string, p: nat, q: nat)
    requires p < q <= |t| && IsDigit(t[p]) && q == p + 1 + DigitCount(t[p + 1..])
    ensures DigitCount(t[p..]) == q - p > 0 && t[p..][q - p..] == t[q..]
  {
    assert t[p..][1..] == t[p + 1..];
  }

  lemma SignScan(t: string, p: nat)
    requires p < |t| && IsSign(t[p])
    ensures ScanSigned(t[p..]) == ScanDigits(t[p + 1..], t[p] == '-')
    ensures NumbersInRow(t, p + 1) == if LoneSignAt(t, p) then 0 else NumbersInRow(t, p)
  {
    assert t[p..][1..] == t[p + 1..];
  }

  lemma LoneSignFails(t: string, p: nat)
    requires p < |t| && LoneSignAt(t, p)
    ensures ScanSigned(t[p..]) == Scan(false, 0, t[p + 1..])
  {
    SignScan(t, p);
    NoDigits(t, p + 1);
  }

  lemma AcrossSign(t: string, p: nat)
    requires p < |t| && IsSign(t[p])
    ensures Between(t, p, p + 1, NumbersInRow(t, p)) && Boundary(t, p + 1)
    ensures NumbersInRow(t, p + 1) == if LoneSignAt(t, p) then 0 else NumbersInRow(t, p)
  {
    SignScan(t, p);
  }

  lemma SignedNumber(t: string, p: nat) returns (q: nat)
    requires p < |t| && IsSign(t[p]) && !LoneSignAt(t, p)
    ensures var a := ScanSigned(t[p..]);
            a.matched && Matched(t, p, q) && a.rest == t[q..]
  {
    SignScan(t, p);
    AcrossSign(t, p);
    q := FromDigit(t, p + 1, t[p] == '-');
    Join(t, p, p + 1, q, NumbersInRow(t, p), NumbersInRow(t, q));
  }

  lemma FromSign(t: string, p: nat) returns (q: nat)
    requires p < |t| && IsSign(t[p])
    ensures var a := ScanSigned(t[p..]);
            && p < q <= |t| && a.rest == t[q..]
            && if a.matched then Matched(t, p, q)
               else Boundary(t, q) && NumbersInRow(t, q) == 0 && Between(t, p, q, NumbersInRow(t, p))
  {
    if LoneSignAt(t, p) {
      q := p + 1;
      LoneSignFails(t, p);
      AcrossSign(t, p);
    } else {
      q := SignedNumber(t, p);
    }
  }

  lemma NoDigits(t: string, p: nat)
    requires p <= |t| && (p == |t| || !IsDigit(t[p]))
    ensures forall negative :: ScanDigits(t[p..], negative) == Scan(false, 0, t[p..])
  {
    assert t[p..][0..] == t[p..];
  }

  /** One conversion, from where no number goes on. */
  lemma Conversion(t: string, p: nat) returns (q: nat)
    requires p <= |t| && Boundary(t, p)
    ensures var a := ScanInt(t[p..]);
            && q <= |t| && a.rest == t[q..]
            && if a.matched then Matched(t, p, q) else SignRead(t, p, q) || Halted(t, p, q)
  {
    var b := SpacesBetween(t, p);
    if b == |t| || !IsNumeric(t[b]) {
      q := b;
      NoDigits(t, b);
    } else {
      if IsSign(t[b]) {
        q := FromSign(t, b);
      } else {
        q := FromDigit(t, b, false);
      }
      Join(t, p, b, q, NumbersInRow(t, b), if ScanInt(t[p..]).matched then NumbersInRow(t, q) else NumbersInRow(t, b));
    }
  }

  // ----- Three conversions, again and again -----

  /** From p, `count` conversions matched, up to q. */
  ghost predicate AllMatched(t: string, p: nat, q: nat, count: nat) {
    && p <= q <= |t| && Boundary(t, q) && (count > 0 ==> p < q)
    && Between(t, p, q, NumbersInRow(t, p) + count) && NumbersInRow(t, q) == NumbersInRow(t, p) + count
  }

  /** From p, `count` conversions matched and the next one failed, at q. */
  ghost predicate ThenFailed(t: string, p: nat, q: nat, count: nat) {
    && p <= q <= |t| && Boundary(t, q) && (count > 0 ==> p < q)
    && Between(t, p, q, NumbersInRow(t, p) + count)
    && (NumbersInRow(t, q) == 0 || q == |t| || !IsNumeric(t[q]))
    && (count == 0 ==> SignRead(t, p, q) || Halted(t, p, q))
  }

  lemma MatchedNext(t: string, p: nat, b: nat, q: nat, count: nat, more: nat)
    requires p <= |t| && AllMatched(t, p, b, count) && Matched(t, b, q) && more == count + 1
    ensures AllMatched(t, p, q, more)
  {
    Join(t, p, b, q, NumbersInRow(t, b), NumbersInRow(t, q));
  }

  lemma FailedNext(t: string, p: nat, b: nat, q: nat, count: nat)
    requires p <= |t| && AllMatched(t, p, b, count) && (count == 0 ==> b == p)
    requires SignRead(t, b, q) || Halted(t, b, q)
    ensures ThenFailed(t, p, q, count)
  {
    Join(t, p, b, q, NumbersInRow(t, b), NumbersInRow(t, b));
  }

  lemma NextConversion(t: string, p: nat, b: nat, count: nat, more: nat) returns (q: nat)
    requires p <= |t| && AllMatched(t, p, b, count) && (count == 0 ==> b == p) && more == count + 1
    ensures var a := ScanInt(t[b..]);
            && q <= |t| && a.rest == t[q..]
            && if a.matched then AllMatched(t, p, q, more) else ThenFailed(t, p, q, count)
  {
    q := Conversion(t, b);
    if ScanInt(t[b..]).matched {
      MatchedNext(t, p, b, q, count, more);
    } else {
      FailedNext(t, p, b, q, count);
    }
  }

  lemma ThreeConversions(t: string, p: nat, z: Sizes) returns (q: nat)
    requires p <= |t| && Boundary(t, p)
    ensures var r := ScanThree(t[p..], z);
            && q <= |t| && r.rest == t[q..]
            && if r.count == 3 then AllMatched(t, p, q, 3) else ThenFailed(t, p, q, r.count)
  {
    q := NextConversion(t, p, p, 0, 1);
    if ScanInt(t[p..]).matched {
      var a := q;
      q := NextConversion(t, p, a, 1, 2);
      if ScanInt(t[a..]).matched {
        q := NextConversion(t, p, q, 2, 3);
      }
    }
  }

  lemma Further(t: string, p: nat, q: nat, most: nat)
    requires AllNumeric(t, p) && FewInRow(t, p) && Between(t, p, q, most) && most < 3
    ensures AllNumeric(t, q) && FewInRow(t, q)
  {
  }

  lemma ThreeInRow(t: string, q: nat)
    requires q <= |t| && AllNumeric(t, q) && NumbersInRow(t, q) >= 3
    ensures !exists n :: BlockedAt(t, n)
  {
  }

  /** Scanning goes on from p for ever exactly if something in the whole text blocks it. */
  lemma {:induction false} EndlessFrom(t: string, p: nat, z: Sizes)
    requires p <= |t| && Boundary(t, p) && AllNumeric(t, p) && FewInRow(t, p)
    requires NumbersInRow(t, p) == 0 || p == |t| || !IsNumeric(t[p])
    ensures Rescanned(t[p..], z).Endless? <==> exists n :: BlockedAt(t, n)
    decreases |t| - p
  {
    var text := t[p..];
    var r := ScanThree(text, z);
    var b := SpacesBetween(t, p);
    var q := ThreeConversions(t, p, z);
    if b == |t| {
      Further(t, p, b, NumbersInRow(t, p));
    } else if r.count == 3 {
      assert Between(t, p, q, NumbersInRow(t, p) + 3);
      ThreeInRow(t, q);
    } else {
      Further(t, p, q, NumbersInRow(t, p) + r.count);
      if IsStuck(text, r) {
        assert BlockedAt(t, q);
      } else {
        EndlessFrom(t, q, r.sizes);
      }
    }
  }

  // ----- The size reader -----

  /** The size reader never returns exactly if the first line that is no comment does not start with
      three numbers and the text behind it is blocked: a character that is neither digit, sign nor
      white space comes before any three numbers that no lone sign separates. */
  lemma SizeEndlessIff(text: string)
    ensures var (line, rest) := AfterComments(text);
            SizeOf(text).Endless? <==>
              line != "" && ScanThree(line, Sizes(0, 0, 0)).count < 3 && exists n :: BlockedAt(rest, n)
  {
    var (line, rest) := AfterComments(text);
    if line != "" {
      var r := ScanThree(line, Sizes(0, 0, 0));
      assert rest[0..] == rest;
      EndlessFrom(rest, 0, r.sizes);
    }
  }

  /** A letter where the sizes should be. */
  lemma LetterBlocks()
    ensures SizeOf("x\ny").Endless?
  {
    var text := "x\ny";
    assert text[0] == 'x' && text[1] == '\n' && text[1..][0] == '\n';
    assert LineLength(text[1..], MM_MAX_LINE_LENGTH - 2) == 1;
    assert LineLength(text, MM_MAX_LINE_LENGTH - 1) == 2;
    assert text[..2] == "x\n" && text[2..] == "y";
    assert AfterComments(text) == ("x\n", "y");
    var line := "x\n";
    assert line[0..] == line && SkipSpace(line) == line && DigitCount(line) == 0;
    assert ScanThree(line, Sizes(0, 0, 0)).count == 0;
    assert BlockedAt("y", 0);
    SizeEndlessIff(text);
  }
}
