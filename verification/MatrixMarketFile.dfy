/** Writing a boolean sparse matrix as Matrix Market text and reading it back. */
module MatrixMarketFiles {
  import opened MatrixMarket
  import opened MatrixMarketText
  import opened SparseMatrices

  // ----- Integer widths -----

  const INT_LIMIT := 0x8000_0000
  const SIZE_LIMIT := 0x1_0000_0000_0000_0000

  /** A cast of a size to a 32-bit int. */
  function ToInt(n: nat): int {
    var w := n % 0x1_0000_0000;
    if w >= INT_LIMIT then w - 0x1_0000_0000 else w
  }

  /** A cast of an int to an unsigned 64-bit size. */
  function ToSize(i: int): nat
    requires -SIZE_LIMIT <= i
  {
    if i < 0 then i + SIZE_LIMIT else i
  }

  // ----- The text of a matrix -----

  datatype Entry = Entry(row: nat, col: nat, val: bool)

  function EntryLine(e: Entry): string {
    Printed(ToInt(e.row + 1)) + (" " + (Printed(ToInt(e.col + 1)) + (" " + FlagText(e.val))))
  }

  function EntryText(e: Entry): string {
    EntryLine(e) + "\n"
  }

  /** Lines printed one after the other. */
  function Joined(lines: seq<string>): string {
    if lines == [] then "" else lines[0] + Joined(lines[1..])
  }

  function Lines(es: seq<Entry>): seq<string> {
    seq(|es|, k requires 0 <= k < |es| => EntryText(es[k]))
  }

  function RowEntries(i: nat, row: SparseRow<bool>): seq<Entry> {
    seq(|row|, k requires 0 <= k < |row| => Entry(i, row[k].0, row[k].1))
  }

  /** The entries of the first n rows, row by row. */
  function Flat(rows: seq<SparseRow<bool>>, n: nat): seq<Entry>
    requires n <= |rows|
  {
    if n == 0 then [] else Flat(rows, n - 1) + RowEntries(n - 1, rows[n - 1])
  }

  /** The row count as the loop bound: an int. */
  function WrittenRows(rows: seq<SparseRow<bool>>): (n: nat)
    ensures n <= |rows| && (|rows| < INT_LIMIT ==> n == |rows|)
  {
    if ToInt(|rows|) < 0 then 0 else ToInt(|rows|)
  }

  function HeaderSizes(rows: seq<SparseRow<bool>>): Sizes {
    Sizes(ToInt(|rows|), ToInt(|rows|), ToInt(ElementCount(rows)))
  }

  function FileText(rows: seq<SparseRow<bool>>): string {
    BannerLine(WRITTEN) + ("\n" + (SizeLine(HeaderSizes(rows)) + ("\n" + Joined(Lines(Flat(rows, WrittenRows(rows)))))))
  }

  method WriteMatrixMarketFile(m: SparseMatrix<bool>) returns (text: string)
    ensures text == FileText(m.mat)
  {
    var matcode := CLEARED.(kind := 'M').(format := 'C').(symmetry := 'S').(field := 'I');
    var elements := m.ElementSize();
    var nRows := ToInt(|m.mat|);
    var printed := WriteRows(m.mat, nRows);
    var sizes := SizeLine(Sizes(nRows, nRows, ToInt(elements)));
    text := BannerLine(matcode) + ("\n" + (sizes + ("\n" + Joined(printed))));
  }

  lemma SmallNumbers()
    ensures Printed(1) == "1" && Printed(2) == "2" && Printed(-305) == "-305"
  {
    assert Decimal(3) == "3" && Decimal(30) == "30" && Decimal(305) == "305";
  }

  lemma WrittenBanner()
    ensures BannerLine(WRITTEN)
            == "%%MatrixMarket"
               + (" " + ("matrix" + (" " + ("coordinate" + (" " + ("integer" + (" " + "symmetric")))))))
  {
  }

  lemma SmallSizes()
    ensures SizeLine(Sizes(2, 2, 1)) == "2 2 1"
  {
    SmallNumbers();
    var b := " " + "1";
    var c := "2" + b;
    var d := " " + c;
    assert c == "2 1";
    assert "2" + d == "2 2 1";
  }

  lemma SmallEntry()
    ensures EntryText(Entry(0, 1, true)) == "1 2 1\n"
  {
    SmallNumbers();
    IntOfSmall(1);
    IntOfSmall(2);
    var b := " " + "1";
    var c := "2" + b;
    var d := " " + c;
    assert c == "2 1";
    assert EntryLine(Entry(0, 1, true)) == "1" + d;
    assert "1" + d + "\n" == "1 2 1\n";
  }

  lemma SmallBody(rows: seq<SparseRow<bool>>)
    requires rows == [[(1, true)], []]
    ensures ElementCount(rows) == 1 && Lines(Flat(rows, 2)) == [EntryText(Entry(0, 1, true))]
  {
    FlatRows(rows, 2);
    assert rows[..2] == rows;
    assert Flat(rows, 0) == [] && Flat(rows, 1) == [Entry(0, 1, true)] && Flat(rows, 2) == Flat(rows, 1);
  }

  /** The text of a matrix of two rows with one entry. */
  lemma SmallText()
    ensures FileText([[(1, true)], []])
            == "%%MatrixMarket"
               + (" " + ("matrix" + (" " + ("coordinate" + (" " + ("integer" + (" " + "symmetric")))))))
               + ("\n" + ("2 2 1" + ("\n" + "1 2 1\n")))
  {
    var rows: seq<SparseRow<bool>> := [[(1, true)], []];
    SmallBody(rows);
    WrittenBanner();
    SmallSizes();
    SmallEntry();
    var lines := ["1 2 1\n"];
    assert Joined(lines) == "1 2 1\n" by {
      assert lines[1..] == [];
    }
  }

  lemma LinesOfNextRow(rows: seq<SparseRow<bool>>, i: nat)
    requires i < |rows|
    ensures Lines(Flat(rows, i + 1)) == Lines(Flat(rows, i)) + Lines(RowEntries(i, rows[i]))
  {
    assert Flat(rows, i + 1) == Flat(rows, i) + RowEntries(i, rows[i]);
  }

  predicate IsLine(line: string, i: nat, e: (nat, bool)) {
    line == EntryText(Entry(i, e.0, e.1))
  }

  /** The lines of a row, entry by entry. */
  ghost predicate AreLines(all: seq<string>, i: nat, row: SparseRow<bool>) {
    |all| == |row| && forall k {:trigger IsLine(all[k], i, row[k])} :: 0 <= k < |row| ==> IsLine(all[k], i, row[k])
  }

  lemma LinesAreLines(i: nat, row: SparseRow<bool>)
    ensures AreLines(Lines(RowEntries(i, row)), i, row)
  {
  }

  /** The lines of all rows. */
  method WriteRows(rows: seq<SparseRow<bool>>, nRows: int) returns (lines: seq<string>)
    requires nRows == ToInt(|rows|)
    ensures lines == Lines(Flat(rows, WrittenRows(rows)))
  {
    lines := [];
    var i := 0;
    while i < nRows
      invariant 0 <= i <= WrittenRows(rows)
      invariant lines == Lines(Flat(rows, i))
    {
      var more := WriteRow(i, rows[i]);
      lines := AppendRow(lines, more, rows, i, i + 1);
      i := i + 1;
    }
  }

  method AppendRow(lines: seq<string>, more: seq<string>, ghost rows: seq<SparseRow<bool>>, ghost i: nat, ghost n: nat)
    returns (all: seq<string>)
    requires n == i + 1 <= |rows| && lines == Lines(Flat(rows, i)) && more == Lines(RowEntries(i, rows[i]))
    ensures all == Lines(Flat(rows, n))
  {
    LinesOfNextRow(rows, i);
    all := lines + more;
  }

  /** The lines of one row. */
  method WriteRow(i: nat, row: SparseRow<bool>) returns (lines: seq<string>)
    ensures lines == Lines(RowEntries(i, row))
  {
    LinesAreLines(i, row);
    lines := WriteEntries(i, row, Lines(RowEntries(i, row)));
  }

  method WriteEntries(i: nat, row: SparseRow<bool>, ghost all: seq<string>) returns (lines: seq<string>)
    requires AreLines(all, i, row)
    ensures lines == all
  {
    lines := [];
    for k := 0 to |row|
      invariant |lines| == k
      invariant forall t :: 0 <= t < k ==> lines[t] == all[t]
    {
      var line := WriteEntry(i, row, k, all);
      lines := lines + [line];
    }
  }

  method WriteEntry(i: nat, row: SparseRow<bool>, k: nat, ghost all: seq<string>) returns (line: string)
    requires AreLines(all, i, row) && k < |row|
    ensures line == all[k]
  {
    assert IsLine(all[k], i, row[k]);
    line := EntryText(Entry(i, row[k].0, row[k].1));
  }

  // ----- Reading -----

  /** The matrix, or how reading fails: an exception, use of a variable that was never set or of the row
      one past the end, or a scan that never ends. */
  datatype ReadResult = Matrix(rows: seq<SparseRow<bool>>) | Throws | Undefined | NeverReturns

  datatype Option = None | Some(value: int)

  /** The variables a scan of one entry assigns; conversions that fail leave them as they were. */
  datatype Scanned = Scanned(i: Option, j: Option, val: bool, rest: string)

  function ScanEntry(s: Scanned): Scanned {
    var a := ScanInt(s.rest);
    if !a.matched then s.(rest := a.rest)
    else
      var b := ScanInt(a.rest);
      if !b.matched then s.(i := Some(a.value), rest := b.rest)
      else
        var c := ScanNumber(b.rest);
        if !c.matched then Scanned(Some(a.value), Some(b.value), s.val, c.rest)
        else Scanned(Some(a.value), Some(b.value), c.nonzero, SkipSpace(c.rest))
  }

  function EmptyRows(n: nat): seq<SparseRow<bool>> {
    seq(n, _ => [])
  }

  /** Numbers an int can hold and be decremented from. */
  predicate Usable(i: int) {
    -INT_LIMIT < i < INT_LIMIT
  }

  predicate IsUndefined(e: Scanned, rowCount: nat) {
    e.i.None? || e.j.None? || !Usable(e.i.value) || !Usable(e.j.value) || e.i.value == rowCount + 1
  }

  predicate IsOutside(i: int, rowCount: nat) {
    i < 1 || i > rowCount
  }

  /** What one scanned entry leads to: an end of reading, or the rows with the entry inserted. */
  datatype Step = Stop(result: ReadResult) | Go(rows: seq<SparseRow<bool>>)

  function StepOf(rows: seq<SparseRow<bool>>, e: Scanned): Step {
    if IsUndefined(e, |rows|) then Stop(Undefined)
    else if IsOutside(e.i.value, |rows|) then Stop(Throws)
    else Go(Insert(rows, e.i.value - 1, ToSize(e.j.value - 1), e.val))
  }

  function ReadEntries(rows: seq<SparseRow<bool>>, count: int, s: Scanned): ReadResult
    decreases count
  {
    if count <= 0 then Matrix(rows)
    else
      var e := ScanEntry(s);
      var step := StepOf(rows, e);
      if step.Stop? then step.result else ReadEntries(step.rows, count - 1, e)
  }

  function Insert(rows: seq<SparseRow<bool>>, row: nat, col: nat, val: bool): seq<SparseRow<bool>>
    requires row < |rows|
  {
    rows[row := rows[row] + [(col, val)]]
  }

  function FileOf(text: string): ReadResult {
    EntriesOf(SizeOf(BannerOf(text).rest))
  }

  /** What follows the size line. */
  function EntriesOf(z: SizeResult): ReadResult {
    if z.Endless? then NeverReturns
    else if !Usable(z.sizes.m) || !Usable(z.sizes.nz) then Undefined
    else if z.sizes.m < 0 then Throws
    else ReadEntries(EmptyRows(z.sizes.m), z.sizes.nz, Scanned(None, None, false, z.rest))
  }

  method ReadMatrixMarketFile(text: string) returns (r: ReadResult)
    ensures r == FileOf(text)
  {
    var banner := ReadBanner(text);
    var size := ReadSize(banner.rest);
    if size.Endless? {
      return NeverReturns;
    }
    var z := size.sizes;
    if !Usable(z.m) || !Usable(z.nz) {
      return Undefined;
    }
    if z.m < 0 {
      return Throws;
    }
    var m := new SparseMatrix<bool>.WithRows(z.m);
    r := ReadInto(m, z.nz, Scanned(None, None, false, size.rest));
  }

  /** The loop over the entry lines. */
  method ReadInto(m: SparseMatrix<bool>, nz: int, s0: Scanned) returns (r: ReadResult)
    modifies m
    ensures r == ReadEntries(old(m.mat), nz, s0)
  {
    r := ReadCounted(m, if nz < 0 then 0 else nz, s0);
  }

  method ReadCounted(m: SparseMatrix<bool>, count: nat, s0: Scanned) returns (r: ReadResult)
    modifies m
    ensures r == ReadEntries(old(m.mat), count, s0)
  {
    var s := s0;
    ghost var left, whole := count, ReadEntries(m.mat, count, s0);
    for k := 0 to count
      invariant left == count - k
      invariant ReadEntries(m.mat, left, s) == whole
    {
      var step;
      s, step := ReadOne(m, s, left, left - 1, whole);
      left := left - 1;
      if step.Stop? {
        return step.result;
      }
    }
    r := Matrix(m.mat);
  }

  /** One entry line, when reading the rest of the text gives `whole`. */
  method ReadOne(m: SparseMatrix<bool>, s: Scanned, ghost count: nat, ghost left: nat, ghost whole: ReadResult)
    returns (e: Scanned, step: Step)
    requires count == left + 1 && ReadEntries(m.mat, count, s) == whole
    modifies m
    ensures if step.Stop? then step.result == whole else ReadEntries(m.mat, left, e) == whole
  {
    UnfoldRead(m.mat, count, left, s, ScanEntry(s));
    e := ScanEntry(s);
    step := InsertScanned(m, e);
  }

  /** The body of that loop: the scanned entry goes into the matrix. */
  method InsertScanned(m: SparseMatrix<bool>, s: Scanned) returns (step: Step)
    modifies m
    ensures step == StepOf(old(m.mat), s) && (step.Go? ==> step.rows == m.mat)
  {
    if IsUndefined(s, |m.mat|) {
      return Stop(Undefined);
    }
    if s.i.value < 1 {
      return Stop(Throws);
    }
    var ok := m.InsertAt(s.i.value - 1, ToSize(s.j.value - 1), s.val);
    step := if ok then Go(m.mat) else Stop(Throws);
  }

  lemma ScanLine(s: Scanned, i: int, j: int, val: bool, tail: string)
    requires tail == "" || !IsSpace(tail[0])
    requires s.rest == Printed(i) + (" " + (Printed(j) + (" " + (FlagText(val) + ("\n" + tail)))))
    ensures ScanEntry(s) == Scanned(Some(i), Some(j), val, tail)
  {
    var t2 := " " + (FlagText(val) + ("\n" + tail));
    var t1 := " " + (Printed(j) + t2);
    ScanPrinted(i, t1);
    ScanPrinted(j, t2);
    ScanFlag(val, tail);
    EndOfLine(tail);
  }

  lemma StepOfLine(rows: seq<SparseRow<bool>>, e: Scanned, i: int, j: int)
    requires -0x8000_0000 < i < 0x8000_0000 && -0x8000_0000 < j < 0x8000_0000
    requires e.i == Some(i) && e.j == Some(j)
    ensures i < 1 || i > |rows| + 1 ==> StepOf(rows, e) == Stop(Throws)
    ensures i == |rows| + 1 ==> StepOf(rows, e) == Stop(Undefined)
    ensures 1 <= i <= |rows| ==>
              var col := if j < 1 then j - 1 + 0x1_0000_0000_0000_0000 else j - 1;
              StepOf(rows, e) == Go(rows[i - 1 := rows[i - 1] + [(col, e.val)]])
  {
  }

  /** One entry line: its row number decides whether reading goes on with the entry at the end of that
      row, throws, or writes one past the last row. A column number below 1 wraps around. */
  lemma LineRead(rows: seq<SparseRow<bool>>, count: nat, left: nat, s: Scanned, i: int, j: int, val: bool, tail: string)
    requires count == left + 1 && -0x8000_0000 < i < 0x8000_0000 && -0x8000_0000 < j < 0x8000_0000
    requires tail == "" || !IsSpace(tail[0])
    requires s.rest == Printed(i) + (" " + (Printed(j) + (" " + (FlagText(val) + ("\n" + tail)))))
    ensures i < 1 || i > |rows| + 1 ==> ReadEntries(rows, count, s) == Throws
    ensures i == |rows| + 1 ==> ReadEntries(rows, count, s) == Undefined
    ensures 1 <= i <= |rows| ==>
              var col := if j < 1 then j - 1 + 0x1_0000_0000_0000_0000 else j - 1;
              ReadEntries(rows, count, s) == ReadEntries(rows[i - 1 := rows[i - 1] + [(col, val)]], left,
                                               Scanned(Some(i), Some(j), val, tail))
  {
    var next := Scanned(Some(i), Some(j), val, tail);
    ScanLine(s, i, j, val, tail);
    UnfoldRead(rows, count, left, s, next);
    StepOfLine(rows, next, i, j);
  }

  lemma NothingScanned(s: Scanned)
    requires s.rest == ""
    ensures ScanEntry(s) == s
  {
  }

  /** When the text ends before all announced entries were read, the last one goes into the matrix again
      for each missing line. */
  lemma {:induction false} MissingLinesRepeat(rows: seq<SparseRow<bool>>, count: nat, s: Scanned, i: int, j: int)
    requires s.rest == "" && s.i == Some(i) && s.j == Some(j)
    requires 1 <= i <= |rows| && i < 0x8000_0000 && 1 <= j < 0x8000_0000
    ensures ReadEntries(rows, count, s)
            == Matrix(rows[i - 1 := rows[i - 1] + seq(count, _ => (j as nat - 1, s.val))])
    decreases count
  {
    if count == 0 {
      assert rows[i - 1] + seq(0, _ => (j as nat - 1, s.val)) == rows[i - 1];
    } else {
      var next := rows[i - 1 := rows[i - 1] + [(j - 1, s.val)]];
      NothingScanned(s);
      UnfoldRead(rows, count, count - 1, s, s);
      StepOfLine(rows, s, i, j);
      MissingLinesRepeat(next, count - 1, s, i, j);
      assert next[i - 1] + seq(count - 1, _ => (j as nat - 1, s.val))
          == rows[i - 1] + seq(count, _ => (j as nat - 1, s.val));
    }
  }

  // ----- What reading makes of a written matrix -----

  /** Row and entry counts that an int can hold. */
  predicate Fits(rows: seq<SparseRow<bool>>) {
    |rows| < INT_LIMIT && ElementCount(rows) < INT_LIMIT
  }

  /** The column comes back as a number that can be decremented. */
  predicate ColumnUsable(col: nat) {
    Usable(ToInt(col + 1))
  }

  function ReadColumn(col: nat): nat {
    if ColumnUsable(col) then ToSize(ToInt(col + 1) - 1) else col
  }

  lemma IntOfSmall(n: nat)
    requires n < INT_LIMIT
    ensures ToInt(n) == n
  {
  }

  lemma ScanEntryText(e: Entry, tail: string, i: Option, j: Option, val: bool)
    requires e.row + 1 < INT_LIMIT && (tail == "" || !IsSpace(tail[0]))
    ensures ScanEntry(Scanned(i, j, val, EntryText(e) + tail))
            == Scanned(Some(e.row + 1), Some(ToInt(e.col + 1)), e.val, tail)
  {
    EntryTextIs(e, tail);
    ScanLine(Scanned(i, j, val, EntryText(e) + tail), e.row + 1, ToInt(e.col + 1), e.val, tail);
  }

  lemma EntryTextIs(e: Entry, tail: string)
    requires e.row + 1 < INT_LIMIT
    ensures EntryText(e) + tail
            == Printed(e.row + 1) + (" " + (Printed(ToInt(e.col + 1)) + (" " + (FlagText(e.val) + ("\n" + tail)))))
  {
    var a, b, c := Printed(e.row + 1), Printed(ToInt(e.col + 1)), FlagText(e.val);
    IntOfSmall(e.row + 1);
    JoinLast(a, b + (" " + c), "\n" + tail);
    JoinLast(b, c, "\n" + tail);
    assert EntryText(e) + tail == a + (" " + (b + (" " + c))) + ("\n" + tail);
  }

  lemma EndOfLine(tail: string)
    requires tail == "" || !IsSpace(tail[0])
    ensures SkipSpace("\n" + tail) == tail
  {
    assert ("\n" + tail)[1..] == tail;
  }

  lemma JoinedStart(es: seq<Entry>)
    ensures Joined(Lines(es)) == "" || !IsSpace(Joined(Lines(es))[0])
  {
    if es != [] {
      PrintedStart(ToInt(es[0].row + 1));
      assert Lines(es)[0] == EntryText(es[0]);
    }
  }

  predicate AllUsable(es: seq<Entry>) {
    es == [] || (ColumnUsable(es[0].col) && AllUsable(es[1..]))
  }

  predicate RowsBelow(es: seq<Entry>, n: nat) {
    forall k :: 0 <= k < |es| ==> es[k].row < n
  }

  /** The rows after inserting the entries with the columns that reading gives. */
  function Inserted(rows: seq<SparseRow<bool>>, es: seq<Entry>): seq<SparseRow<bool>>
    requires RowsBelow(es, |rows|)
    decreases |es|
  {
    if es == [] then rows else Inserted(Insert(rows, es[0].row, ReadColumn(es[0].col), es[0].val), es[1..])
  }

  /** What reading the printed entries into rows gives. */
  function Result(rows: seq<SparseRow<bool>>, es: seq<Entry>): ReadResult
    requires RowsBelow(es, |rows|)
  {
    if AllUsable(es) then Matrix(Inserted(rows, es)) else Undefined
  }

  /** Reading printed entries inserts them in order. */
  lemma {:induction false} ReadPrinted(rows: seq<SparseRow<bool>>, es: seq<Entry>, s: Scanned)
    requires RowsBelow(es, |rows|) && |rows| < INT_LIMIT && s.rest == Joined(Lines(es))
    ensures ReadEntries(rows, |es|, s) == Result(rows, es)
    decreases |es|
  {
    if es != [] {
      var e, rest := es[0], es[1..];
      var next := Scanned(Some(e.row + 1), Some(ToInt(e.col + 1)), e.val, Joined(Lines(rest)));
      SplitLines(es);
      JoinedStart(rest);
      ReadOneEntry(rows, e, |es|, |rest|, s, next);
      StepOfEntry(rows, e, next);
      if ColumnUsable(e.col) {
        ReadPrinted(Insert(rows, e.row, ReadColumn(e.col), e.val), rest, next);
      }
    }
  }

  lemma ReadOneEntry(rows: seq<SparseRow<bool>>, e: Entry, count: nat, left: nat, s: Scanned, next: Scanned)
    requires e.row + 1 < INT_LIMIT && count == left + 1 && (next.rest == "" || !IsSpace(next.rest[0]))
    requires s.rest == EntryText(e) + next.rest
    requires next == Scanned(Some(e.row + 1), Some(ToInt(e.col + 1)), e.val, next.rest)
    ensures ReadEntries(rows, count, s) == Continued(StepOf(rows, next), left, next)
  {
    ScanEntryText(e, next.rest, s.i, s.j, s.val);
    UnfoldRead(rows, count, left, s, next);
  }

  /** What follows a step. */
  function Continued(step: Step, left: nat, e: Scanned): ReadResult {
    if step.Stop? then step.result else ReadEntries(step.rows, left, e)
  }

  lemma UnfoldRead(rows: seq<SparseRow<bool>>, count: nat, left: nat, s: Scanned, next: Scanned)
    requires count == left + 1 && next == ScanEntry(s)
    ensures ReadEntries(rows, count, s) == Continued(StepOf(rows, next), left, next)
  {
    assert count - 1 == left;
  }

  lemma StepOfEntry(rows: seq<SparseRow<bool>>, e: Entry, s: Scanned)
    requires e.row < |rows| < INT_LIMIT
    requires s.i == Some(e.row + 1) && s.j == Some(ToInt(e.col + 1)) && s.val == e.val
    ensures StepOf(rows, s)
            == if ColumnUsable(e.col) then Go(Insert(rows, e.row, ReadColumn(e.col), e.val)) else Stop(Undefined)
  {
  }

  lemma SplitLines(es: seq<Entry>)
    requires es != []
    ensures Joined(Lines(es)) == EntryText(es[0]) + Joined(Lines(es[1..]))
  {
    assert Lines(es)[1..] == Lines(es[1..]);
  }

  lemma {:induction false} InsertedConcat(rows: seq<SparseRow<bool>>, a: seq<Entry>, b: seq<Entry>)
    requires RowsBelow(a, |rows|) && RowsBelow(b, |rows|)
    ensures |Inserted(rows, a)| == |rows| && RowsBelow(a + b, |rows|)
    ensures Inserted(rows, a + b) == Inserted(Inserted(rows, a), b)
    decreases |a|
  {
    if a == [] {
      assert a + b == b;
    } else {
      assert (a + b)[1..] == a[1..] + b;
      InsertedConcat(Insert(rows, a[0].row, ReadColumn(a[0].col), a[0].val), a[1..], b);
    }
  }

  /** A row with the columns that reading gives. */
  function ReadRow(row: SparseRow<bool>): SparseRow<bool> {
    seq(|row|, k requires 0 <= k < |row| => (ReadColumn(row[k].0), row[k].1))
  }

  function ReadRows(rows: seq<SparseRow<bool>>): seq<SparseRow<bool>> {
    seq(|rows|, r requires 0 <= r < |rows| => ReadRow(rows[r]))
  }

  lemma {:induction false} InsertRow(rows: seq<SparseRow<bool>>, i: nat, row: SparseRow<bool>)
    requires i < |rows|
    ensures RowsBelow(RowEntries(i, row), |rows|)
    ensures Inserted(rows, RowEntries(i, row)) == rows[i := rows[i] + ReadRow(row)]
    decreases |row|
  {
    var es := RowEntries(i, row);
    if row == [] {
      assert rows[i] + ReadRow(row) == rows[i];
    } else {
      assert es[1..] == RowEntries(i, row[1..]);
      InsertRow(Insert(rows, i, ReadColumn(row[0].0), row[0].1), i, row[1..]);
      assert ReadRow(row) == [(ReadColumn(row[0].0), row[0].1)] + ReadRow(row[1..]);
      assert (rows[i] + [(ReadColumn(row[0].0), row[0].1)]) + ReadRow(row[1..]) == rows[i] + ReadRow(row);
    }
  }

  lemma {:induction false} FlatRows(rows: seq<SparseRow<bool>>, n: nat)
    requires n <= |rows|
    ensures RowsBelow(Flat(rows, n), n) && |Flat(rows, n)| == ElementCount(rows[..n])
  {
    if n > 0 {
      FlatRows(rows, n - 1);
      assert rows[..n][..n - 1] == rows[..n - 1];
    }
  }

  lemma NextRow(read: seq<SparseRow<bool>>, i: nat)
    requires i < |read|
    ensures var done := read[..i] + EmptyRows(|read| - i);
            |done| == |read| && done[i := done[i] + read[i]] == read[..i + 1] + EmptyRows(|read| - (i + 1))
  {
    var done := read[..i] + EmptyRows(|read| - i);
    assert done[i] + read[i] == read[i];
  }

  /** Inserting the entries of the first n rows into empty rows rebuilds those rows. */
  ghost predicate Rebuilt(rows: seq<SparseRow<bool>>, n: nat)
    requires n <= |rows|
  {
    RowsBelow(Flat(rows, n), |rows|)
    && Inserted(EmptyRows(|rows|), Flat(rows, n)) == ReadRows(rows)[..n] + EmptyRows(|rows| - n)
  }

  lemma {:induction false} InsertFlat(rows: seq<SparseRow<bool>>, n: nat)
    requires n <= |rows|
    ensures Rebuilt(rows, n)
  {
    if n > 0 {
      InsertFlat(rows, n - 1);
      InsertNextRow(rows, n - 1, n);
    }
  }

  lemma InsertNextRow(rows: seq<SparseRow<bool>>, i: nat, n: nat)
    requires n == i + 1 && n <= |rows| && Rebuilt(rows, i)
    ensures Rebuilt(rows, n)
  {
    var read := ReadRows(rows);
    var done := read[..i] + EmptyRows(|rows| - i);
    NextRow(read, i);
    InsertRow(done, i, rows[i]);
    InsertedConcat(EmptyRows(|rows|), Flat(rows, i), RowEntries(i, rows[i]));
  }

  // ----- Round trip -----

  lemma {:induction false} DecimalLength(n: nat, k: nat)
    requires k >= 1 && n < TenTo(k)
    ensures |Decimal(n)| <= k
  {
    if n >= 10 {
      assert k > 1;
      DecimalLength(n / 10, k - 1);
    }
  }

  function TenTo(k: nat): nat {
    if k == 0 then 1 else 10 * TenTo(k - 1)
  }

  lemma IntLength(n: nat)
    requires n < INT_LIMIT
    ensures |Printed(n)| <= 10
  {
    assert TenTo(2) == 100 && TenTo(4) == 10000 && TenTo(6) == 100_0000 && TenTo(8) == 1_0000_0000;
    DecimalLength(n, 10);
  }

  lemma HeaderIsShort(rows: seq<SparseRow<bool>>)
    requires Fits(rows)
    ensures HeaderSizes(rows) == Sizes(|rows|, |rows|, ElementCount(rows))
    ensures |SizeLine(HeaderSizes(rows))| < MM_MAX_LINE_LENGTH - 1
  {
    IntOfSmall(|rows|);
    IntOfSmall(ElementCount(rows));
    IntLength(|rows|);
    IntLength(ElementCount(rows));
  }

  /** The banner and the size line lead the reader to the entries. */
  lemma HeaderRead(rows: seq<SparseRow<bool>>)
    requires Fits(rows)
    ensures FileOf(FileText(rows)) == ReadEntries(EmptyRows(|rows|), ElementCount(rows),
                                        Scanned(None, None, false, Joined(Lines(Flat(rows, |rows|)))))
  {
    var z, body := HeaderSizes(rows), Joined(Lines(Flat(rows, |rows|)));
    HeaderIsShort(rows);
    WrittenIsTypecode();
    BannerRoundTrip(WRITTEN, SizeLine(z) + ("\n" + body));
    SizeRoundTrip(z, body);
    assert FileOf(FileText(rows)) == EntriesOf(Ended(0, z, body));
  }

  /** Reading back what was written gives the same rows with the same entries in the same order, each
      column passed through the int it was printed as. */
  lemma WrittenIsRead(rows: seq<SparseRow<bool>>)
    requires Fits(rows)
    ensures FileOf(FileText(rows)) == if AllUsable(Flat(rows, |rows|)) then Matrix(ReadRows(rows)) else Undefined
  {
    AllInserted(rows);
    HeaderRead(rows);
    var es := Flat(rows, |rows|);
    ReadPrinted(EmptyRows(|rows|), es, Scanned(None, None, false, Joined(Lines(es))));
  }

  lemma AllInserted(rows: seq<SparseRow<bool>>)
    ensures var es := Flat(rows, |rows|);
            && RowsBelow(es, |rows|) && |es| == ElementCount(rows)
            && Inserted(EmptyRows(|rows|), es) == ReadRows(rows)
  {
    var n := |rows|;
    FlatRows(rows, n);
    InsertFlat(rows, n);
    assert rows[..n] == rows;
    assert ReadRows(rows)[..n] + EmptyRows(n - n) == ReadRows(rows);
  }

  /** Columns that an int can hold together with the shift by one. */
  predicate ColumnsFit(row: SparseRow<bool>) {
    forall k :: 0 <= k < |row| ==> row[k].0 + 1 < INT_LIMIT
  }

  predicate ColumnsAddressable(row: SparseRow<bool>) {
    forall k :: 0 <= k < |row| ==> row[k].0 < SIZE_LIMIT / 2
  }

  lemma {:induction false} UsableConcat(a: seq<Entry>, b: seq<Entry>)
    ensures AllUsable(a + b) <==> AllUsable(a) && AllUsable(b)
    decreases |a|
  {
    if a == [] {
      assert a + b == b;
    } else {
      assert (a + b)[1..] == a[1..] + b;
      UsableConcat(a[1..], b);
    }
  }

  lemma {:induction false} UsableRow(i: nat, row: SparseRow<bool>)
    ensures AllUsable(RowEntries(i, row)) <==> forall k :: 0 <= k < |row| ==> ColumnUsable(row[k].0)
    decreases |row|
  {
    if row != [] {
      assert RowEntries(i, row)[1..] == RowEntries(i, row[1..]);
      UsableRow(i, row[1..]);
      assert forall k :: 0 < k < |row| ==> row[k] == row[1..][k - 1];
    }
  }

  predicate UsableAt(rows: seq<SparseRow<bool>>, r: nat)
    requires r < |rows|
  {
    AllUsable(RowEntries(r, rows[r]))
  }

  lemma {:induction false} UsableFlat(rows: seq<SparseRow<bool>>, n: nat)
    requires n <= |rows|
    ensures AllUsable(Flat(rows, n)) <==> forall r :: 0 <= r < n ==> UsableAt(rows, r)
  {
    if n > 0 {
      UsableFlat(rows, n - 1);
      UsableConcat(Flat(rows, n - 1), RowEntries(n - 1, rows[n - 1]));
      assert UsableAt(rows, n - 1) <==> AllUsable(RowEntries(n - 1, rows[n - 1]));
    }
  }

  lemma RowSurvives(i: nat, row: SparseRow<bool>)
    requires ColumnsAddressable(row)
    ensures AllUsable(RowEntries(i, row)) && ReadRow(row) == row <==> ColumnsFit(row)
  {
    UsableRow(i, row);
    forall k | 0 <= k < |row|
      ensures ColumnUsable(row[k].0) && ReadColumn(row[k].0) == row[k].0 <==> row[k].0 + 1 < INT_LIMIT
    {
    }
    if AllUsable(RowEntries(i, row)) && ReadRow(row) == row {
      assert forall k :: 0 <= k < |row| ==> ReadRow(row)[k] == (ReadColumn(row[k].0), row[k].1);
    }
  }

  /** A matrix survives the trip through text exactly if all its columns fit an int. */
  lemma FileRoundTrip(rows: seq<SparseRow<bool>>)
    requires Fits(rows) && forall r :: 0 <= r < |rows| ==> ColumnsAddressable(rows[r])
    ensures FileOf(FileText(rows)) == Matrix(rows) <==> forall r :: 0 <= r < |rows| ==> ColumnsFit(rows[r])
  {
    WrittenIsRead(rows);
    UsableFlat(rows, |rows|);
    forall r | 0 <= r < |rows|
      ensures UsableAt(rows, r) && ReadRow(rows[r]) == rows[r] <==> ColumnsFit(rows[r])
    {
      RowSurvives(r, rows[r]);
    }
    RowsSurvive(rows);
  }

  lemma RowsSurvive(rows: seq<SparseRow<bool>>)
    ensures ReadRows(rows) == rows <==> forall r :: 0 <= r < |rows| ==> ReadRow(rows[r]) == rows[r]
  {
    assert forall r :: 0 <= r < |rows| ==> ReadRows(rows)[r] == ReadRow(rows[r]);
  }
}
