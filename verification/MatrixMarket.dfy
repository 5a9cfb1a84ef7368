/** The header of a Matrix Market file: type code, banner line and size line. */
module MatrixMarket {
  import opened MatrixMarketText

  const MM_COULD_NOT_WRITE_FILE := 17
  const MM_PREMATURE_EOF := 12
  const MM_NO_HEADER := 14
  const MM_UNSUPPORTED_TYPE := 15
  const MATRIX_MARKET_BANNER := "%%MatrixMarket"

  // ----- Type codes -----

  /** The four characters of a type code. */
  datatype Typecode = Typecode(kind: char, format: char, field: char, symmetry: char)

  const CLEARED := Typecode(' ', ' ', ' ', 'G')

  /** The code of the matrices written here: coordinate, integer, symmetric. */
  const WRITTEN := Typecode('M', 'C', 'I', 'S')

  function FormatText(c: char): string {
    if c == 'C' then "coordinate" else if c == 'A' then "array" else ""
  }

  function FieldText(c: char): string {
    if c == 'R' then "real" else if c == 'C' then "complex" else if c == 'P' then "pattern"
    else if c == 'I' then "integer" else ""
  }

  function SymmetryText(c: char): string {
    if c == 'G' then "general" else if c == 'S' then "symmetric" else if c == 'H' then "hermitian"
    else if c == 'K' then "skew-symmetric" else ""
  }

  /** Codes that have a name. */
  predicate IsTypecode(t: Typecode) {
    t.kind == 'M' && FormatText(t.format) != "" && FieldText(t.field) != "" && SymmetryText(t.symmetry) != ""
  }

  /** Words separated by single blanks. */
  function Spaced(a: string, b: string, c: string, d: string, e: string): string {
    a + (" " + (b + (" " + (c + (" " + (d + (" " + e)))))))
  }

  function BannerLine(t: Typecode): string {
    Spaced(MATRIX_MARKET_BANNER, "matrix", FormatText(t.format), FieldText(t.field), SymmetryText(t.symmetry))
  }

  /** Result code, type code as far as it was set, and the text after the line. */
  datatype Banner = Banner(code: nat, typecode: Typecode, rest: string)

  /** The character for a word of the banner line in lower case, or a blank. */
  function FormatOf(crd: string): char {
    if crd == "coordinate" then 'C' else if crd == "array" then 'A' else ' '
  }

  function FieldOf(data: string): char {
    if data == "real" then 'R' else if data == "complex" then 'C' else if data == "pattern" then 'P'
    else if data == "integer" then 'I' else ' '
  }

  function SymmetryOf(storage: string): char {
    if storage == "general" then 'G' else if storage == "symmetric" then 'S'
    else if storage == "hermitian" then 'H' else if storage == "skew-symmetric" then 'K' else ' '
  }

  /** What the words of the banner line, all but the first in lower case, mean. */
  function Recognised(banner: string, mtx: string, crd: string, data: string, storage: string): (nat, Typecode) {
    if !(MATRIX_MARKET_BANNER <= banner) then (MM_NO_HEADER, CLEARED)
    else if mtx != "matrix" then (MM_UNSUPPORTED_TYPE, CLEARED)
    else
      var t := CLEARED.(kind := 'M');
      if FormatOf(crd) == ' ' then (MM_UNSUPPORTED_TYPE, t)
      else
        var t := t.(format := FormatOf(crd));
        if FieldOf(data) == ' ' then (MM_UNSUPPORTED_TYPE, t)
        else
          var t := t.(field := FieldOf(data));
          if SymmetryOf(storage) == ' ' then (MM_UNSUPPORTED_TYPE, t) else (0, t.(symmetry := SymmetryOf(storage)))
  }

  /** The five words of a line. */
  function FiveWords(line: string): (string, string, string, string, string) {
    var a := ScanWord(line);
    var b := ScanWord(a.rest);
    var c := ScanWord(b.rest);
    var d := ScanWord(c.rest);
    var e := ScanWord(d.rest);
    (a.text, b.text, c.text, d.text, e.text)
  }

  function BannerOf(text: string): Banner {
    if text == "" then Banner(MM_PREMATURE_EOF, CLEARED, text)
    else
      var n := LineLength(text, MM_MAX_LINE_LENGTH - 1);
      BannerOfWords(FiveWords(text[..n]), text[n..])
  }

  function BannerOfWords(w: (string, string, string, string, string), rest: string): Banner {
    if w.4 == "" then Banner(MM_PREMATURE_EOF, CLEARED, rest)
    else
      var r := Recognised(w.0, Lowered(w.1), Lowered(w.2), Lowered(w.3), Lowered(w.4));
      Banner(r.0, r.1, rest)
  }

  method ReadBanner(text: string) returns (r: Banner)
    ensures r == BannerOf(text)
  {
    if text == "" {
      return Banner(MM_PREMATURE_EOF, CLEARED, text);
    }
    var n := LineLength(text, MM_MAX_LINE_LENGTH - 1);
    var w := FiveWords(text[..n]);
    if w.4 == "" {
      return Banner(MM_PREMATURE_EOF, CLEARED, text[n..]);
    }
    var mtx := LowerCase(w.1);
    var crd := LowerCase(w.2);
    var data := LowerCase(w.3);
    var storage := LowerCase(w.4);
    var code := Recognised(w.0, mtx, crd, data, storage);
    r := Banner(code.0, code.1, text[n..]);
  }

  // ----- Banner round trip -----

  predicate IsLowerWord(w: string) {
    IsWord(w) && Lowered(w) == w
  }

  lemma FormatIsWord(c: char)
    requires FormatText(c) != ""
    ensures IsLowerWord(FormatText(c)) && |FormatText(c)| <= 10
  {
  }

  lemma FieldIsWord(c: char)
    requires FieldText(c) != ""
    ensures IsLowerWord(FieldText(c)) && |FieldText(c)| <= 8
  {
  }

  lemma SymmetryIsWord(c: char)
    requires SymmetryText(c) != ""
    ensures IsLowerWord(SymmetryText(c)) && |SymmetryText(c)| <= 14
  {
  }

  lemma NamesAreWords(t: Typecode)
    requires IsTypecode(t)
    ensures IsLowerWord(FormatText(t.format)) && IsLowerWord(FieldText(t.field))
    ensures IsLowerWord(SymmetryText(t.symmetry))
    ensures |FormatText(t.format)| <= 10 && |FieldText(t.field)| <= 8 && |SymmetryText(t.symmetry)| <= 14
  {
    FormatIsWord(t.format);
    FieldIsWord(t.field);
    SymmetryIsWord(t.symmetry);
  }

  lemma WrittenIsTypecode()
    ensures IsTypecode(WRITTEN)
  {
    assert |FormatText('C')| == 10 && |FieldText('I')| == 7 && |SymmetryText('S')| == 9;
  }

  lemma FixedWords()
    ensures IsWord(MATRIX_MARKET_BANNER) && IsLowerWord("matrix")
  {
  }

  lemma FiveWordsOf(a: string, b: string, c: string, d: string, e: string, end: string)
    requires IsWord(a) && IsWord(b) && IsWord(c) && IsWord(d) && IsWord(e) && (end == "" || IsSpace(end[0]))
    ensures FiveWords(Spaced(a, b, c, d, e) + end) == (a, b, c, d, e)
  {
    var s4 := e + end;
    var s3 := d + (" " + s4);
    var s2 := c + (" " + s3);
    var s1 := b + (" " + s2);
    ScanPlainWord(a, " " + s1);
    ScanPlainWord(b, " " + s2);
    ScanPlainWord(c, " " + s3);
    ScanPlainWord(d, " " + s4);
    ScanPlainWord(e, end);
    SpacedAssociates(a, b, c, d, e, end);
  }

  lemma SpacedAssociates(a: string, b: string, c: string, d: string, e: string, end: string)
    ensures Spaced(a, b, c, d, e) + end
            == a + (" " + (b + (" " + (c + (" " + (d + (" " + (e + end))))))))
  {
    var x := d + (" " + e);
    assert x + end == d + (" " + (e + end));
    var y := c + (" " + x);
    assert y + end == c + (" " + (x + end));
    var z := b + (" " + y);
    assert z + end == b + (" " + (y + end));
  }

  lemma BannerIsLine(t: Typecode)
    requires IsTypecode(t)
    ensures '\n' !in BannerLine(t) && |BannerLine(t)| < 100
  {
    NamesAreWords(t);
    FixedWords();
  }

  lemma BannerOfLine(line: string, tail: string)
    requires '\n' !in line && |line| < MM_MAX_LINE_LENGTH - 1
    ensures BannerOf(line + ("\n" + tail)) == BannerOfWords(FiveWords(line + "\n"), tail)
  {
    var text := line + ("\n" + tail);
    LineLengthOf(line, tail, MM_MAX_LINE_LENGTH - 1);
    assert text[..|line| + 1] == line + "\n" && text[|line| + 1..] == tail;
  }

  /** Reading a banner back gives its type code, for every code that has a name. */
  lemma BannerRoundTrip(t: Typecode, tail: string)
    requires IsTypecode(t)
    ensures BannerOf(BannerLine(t) + ("\n" + tail)) == Banner(0, t, tail)
  {
    BannerIsLine(t);
    BannerOfLine(BannerLine(t), tail);
    NamesAreWords(t);
    FixedWords();
    FiveWordsOf(MATRIX_MARKET_BANNER, "matrix", FormatText(t.format), FieldText(t.field), SymmetryText(t.symmetry),
                "\n");
    NamesRecognised(t);
  }

  lemma NamesRecognised(t: Typecode)
    requires IsTypecode(t)
    ensures (0, t) == Recognised(MATRIX_MARKET_BANNER, "matrix", FormatText(t.format), FieldText(t.field),
                                 SymmetryText(t.symmetry))
  {
  }

  lemma CapitalsLowered()
    ensures Lowered("MATRIX") == "matrix" && Lowered("Coordinate") == "coordinate"
    ensures Lowered("PATTERN") == "pattern" && Lowered("Skew-Symmetric") == "skew-symmetric"
  {
  }

  lemma CapitalsAreWords()
    ensures IsWord("%%MatrixMarket") && IsWord("MATRIX") && IsWord("Coordinate") && IsWord("PATTERN")
    ensures IsWord("Skew-Symmetric")
  {
  }

  lemma CapitalsRecognised()
    ensures Recognised("%%MatrixMarket", "matrix", "coordinate", "pattern", "skew-symmetric")
            == (0, Typecode('M', 'C', 'P', 'K'))
  {
  }

  /** Capital letters do not matter in the words of the type code. */
  lemma AnyCase(tail: string)
    ensures BannerOf(Spaced("%%MatrixMarket", "MATRIX", "Coordinate", "PATTERN", "Skew-Symmetric") + ("\n" + tail))
            == Banner(0, Typecode('M', 'C', 'P', 'K'), tail)
  {
    var a, b, c, d, e := "%%MatrixMarket", "MATRIX", "Coordinate", "PATTERN", "Skew-Symmetric";
    CapitalsAreWords();
    BannerOfLine(Spaced(a, b, c, d, e), tail);
    FiveWordsOf(a, b, c, d, e, "\n");
    CapitalsLowered();
    CapitalsRecognised();
  }

  /** The words of the line, in any case but for the first, are the banner and the names of the code. */
  predicate Names(w: (string, string, string, string, string), t: Typecode) {
    && IsTypecode(t)
    && MATRIX_MARKET_BANNER <= w.0 && Lowered(w.1) == "matrix"
    && Lowered(w.2) == FormatText(t.format) && Lowered(w.3) == FieldText(t.field)
    && Lowered(w.4) == SymmetryText(t.symmetry)
  }

  lemma FormatNamed(word: string, c: char)
    ensures c != ' ' && FormatOf(word) == c <==> FormatText(c) != "" && word == FormatText(c)
  {
  }

  lemma FieldNamed(word: string, c: char)
    ensures c != ' ' && FieldOf(word) == c <==> FieldText(c) != "" && word == FieldText(c)
  {
  }

  lemma SymmetryNamed(word: string, c: char)
    ensures c != ' ' && SymmetryOf(word) == c <==> SymmetryText(c) != "" && word == SymmetryText(c)
  {
  }

  lemma WordsAcceptedIff(w: (string, string, string, string, string), rest: string, t: Typecode)
    ensures var b := BannerOfWords(w, rest); b.code == 0 && b.typecode == t <==> Names(w, t)
  {
    assert |Lowered(w.4)| == |w.4|;
    FormatNamed(Lowered(w.2), t.format);
    FieldNamed(Lowered(w.3), t.field);
    SymmetryNamed(Lowered(w.4), t.symmetry);
  }

  /** A banner is accepted with a code exactly if the words of its first line name that code. */
  lemma BannerAcceptedIff(text: string, t: Typecode)
    ensures BannerOf(text).code == 0 && BannerOf(text).typecode == t <==>
              text != "" && Names(FiveWords(text[..LineLength(text, MM_MAX_LINE_LENGTH - 1)]), t)
  {
    if text != "" {
      var n := LineLength(text, MM_MAX_LINE_LENGTH - 1);
      WordsAcceptedIff(FiveWords(text[..n]), text[n..], t);
    }
  }

  // ----- Size line -----

  datatype Sizes = Sizes(m: int, n: int, nz: int)

  function SizeLine(z: Sizes): string {
    Printed(z.m) + (" " + (Printed(z.n) + (" " + Printed(z.nz))))
  }

  /** Three %d conversions, the number of those that succeeded, and the sizes they assigned. */
  datatype Three = Three(count: nat, sizes: Sizes, rest: string)

  function ScanThree(s: string, z: Sizes): (r: Three)
    ensures |r.rest| <= |s| && (r.count > 0 ==> |r.rest| < |s|) && r.count <= 3
    ensures r.count == 0 ==> |r.rest| <= |SkipSpace(s)|
  {
    var a := ScanInt(s);
    if !a.matched then Three(0, z, a.rest)
    else
      var b := ScanInt(a.rest);
      if !b.matched then Three(1, z.(m := a.value), b.rest)
      else
        var c := ScanInt(b.rest);
        if !c.matched then Three(2, z.(m := a.value, n := b.value), c.rest)
        else Three(3, Sizes(a.value, b.value, c.value), c.rest)
  }

  /** Reading the size line ends, or stays for ever at a character that no number can start with. */
  datatype SizeResult = Ended(code: nat, sizes: Sizes, rest: string) | Endless

  /** Comment lines skipped: the first other line and the text after it. */
  function AfterComments(text: string): (string, string)
    decreases |text|
  {
    if text == "" then ("", "")
    else
      var n := LineLength(text, MM_MAX_LINE_LENGTH - 1);
      if text[0] == '%' then AfterComments(text[n..]) else (text[..n], text[n..])
  }

  /** A scan that assigned nothing and read nothing but white space: the next one does the same. */
  predicate IsStuck(text: string, t: Three) {
    t.count == 0 && |t.rest| == |SkipSpace(text)|
  }

  /** Numbers scanned from whatever follows a line that had fewer than three. A sign without a number
      assigns nothing, but it is read, so the next scan starts behind it. */
  function Rescanned(text: string, z: Sizes): SizeResult
    decreases |text|
  {
    if SkipSpace(text) == "" then Ended(MM_PREMATURE_EOF, z, "")
    else
      var t := ScanThree(text, z);
      if t.count == 3 then Ended(0, t.sizes, t.rest)
      else if IsStuck(text, t) then Endless
      else Rescanned(t.rest, t.sizes)
  }

  function SizeOf(text: string): SizeResult {
    var (line, rest) := AfterComments(text);
    if line == "" then Ended(MM_PREMATURE_EOF, Sizes(0, 0, 0), "")
    else
      var t := ScanThree(line, Sizes(0, 0, 0));
      if t.count == 3 then Ended(0, t.sizes, rest) else Rescanned(rest, t.sizes)
  }

  method ReadSize(text: string) returns (r: SizeResult)
    ensures r == SizeOf(text)
  {
    var rest, line := text, "";
    while true
      invariant AfterComments(rest) == AfterComments(text)
      decreases |rest|
    {
      if rest == "" {
        return Ended(MM_PREMATURE_EOF, Sizes(0, 0, 0), "");
      }
      var n := LineLength(rest, MM_MAX_LINE_LENGTH - 1);
      line := rest[..n];
      if line[0] != '%' {
        rest := rest[n..];
        break;
      }
      rest := rest[n..];
    }
    var t := ScanThree(line, Sizes(0, 0, 0));
    if t.count == 3 {
      return Ended(0, t.sizes, rest);
    }
    ghost var after, scanned := rest, t.sizes;
    t := t.(rest := rest);
    while t.count != 3
      invariant t.count != 3 ==> Rescanned(t.rest, t.sizes) == Rescanned(after, scanned)
      invariant t.count == 3 ==> Ended(0, t.sizes, t.rest) == Rescanned(after, scanned)
      decreases t.count != 3, |t.rest|
    {
      if SkipSpace(t.rest) == "" {
        return Ended(MM_PREMATURE_EOF, t.sizes, "");
      }
      var before := t.rest;
      t := ScanThree(before, t.sizes);
      if IsStuck(before, t) {
        return Endless;
      }
    }
    r := Ended(0, t.sizes, t.rest);
  }

  /** A comment line in front makes no difference. */
  lemma CommentSkipped(comment: string, text: string)
    requires '\n' !in comment && |comment| < MM_MAX_LINE_LENGTH - 2
    ensures SizeOf("%" + comment + ("\n" + text)) == SizeOf(text)
  {
    var line := "%" + comment;
    var all := line + ("\n" + text);
    LineLengthOf(line, text, MM_MAX_LINE_LENGTH - 1);
    assert all[0] == '%' && all[|line| + 1..] == text;
  }

  /** Reading a size line back gives the sizes. */
  lemma SizeRoundTrip(z: Sizes, tail: string)
    requires |SizeLine(z)| < MM_MAX_LINE_LENGTH - 1
    ensures SizeOf(SizeLine(z) + ("\n" + tail)) == Ended(0, z, tail)
  {
    var line := SizeLine(z);
    var text := line + ("\n" + tail);
    SizeIsLine(z);
    LineLengthOf(line, tail, MM_MAX_LINE_LENGTH - 1);
    assert text[..|line| + 1] == line + "\n" && text[|line| + 1..] == tail;
    ScanSizes(z, "\n", Sizes(0, 0, 0));
  }

  lemma ScanSizes(z: Sizes, end: string, y: Sizes)
    requires Ends(end)
    ensures ScanThree(SizeLine(z) + end, y) == Three(3, z, end)
  {
    var c := Printed(z.nz) + end;
    var b := Printed(z.n) + (" " + c);
    ScanPrinted(z.nz, end);
    ScanPrinted(z.n, " " + c);
    ScanPrinted(z.m, " " + b);
    SizeLineIs(z, end);
  }

  lemma SizeLineIs(z: Sizes, end: string)
    ensures SizeLine(z) + end == Printed(z.m) + (" " + (Printed(z.n) + (" " + (Printed(z.nz) + end))))
  {
    JoinLast(Printed(z.n), Printed(z.nz), end);
    JoinLast(Printed(z.m), Printed(z.n) + (" " + Printed(z.nz)), end);
  }

  lemma JoinLast(a: string, b: string, end: string)
    ensures a + (" " + b) + end == a + (" " + (b + end))
  {
  }

  lemma SizeIsLine(z: Sizes)
    ensures SizeLine(z) != "" && SizeLine(z)[0] != '%' && '\n' !in SizeLine(z)
  {
    PrintedStart(z.m);
    PrintedPlain(z.m);
    PrintedPlain(z.n);
    PrintedPlain(z.nz);
  }

  lemma PrintedPlain(i: int)
    ensures '\n' !in Printed(i)
  {
    DecimalValue(if i < 0 then -i else i);
  }

  // ----- Reported results -----

  /** The writers compare the number of characters written with a number of items. */
  function BannerStatus(t: Typecode): nat {
    if |BannerLine(t) + "\n"| != 2 then MM_COULD_NOT_WRITE_FILE else 0
  }

  function SizeStatus(z: Sizes): nat {
    if |SizeLine(z) + "\n"| != 3 then MM_COULD_NOT_WRITE_FILE else 0
  }

  /** So they report failure after writing every line, whatever it holds. */
  lemma WritersAlwaysReportFailure(t: Typecode, z: Sizes)
    ensures BannerStatus(t) == MM_COULD_NOT_WRITE_FILE && SizeStatus(z) == MM_COULD_NOT_WRITE_FILE
  {
    PrintedStart(z.m);
    PrintedStart(z.n);
    PrintedStart(z.nz);
  }
}
