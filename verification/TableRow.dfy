/** Printing a row of table cells and reading it back column by column. */
module TableRow {
  // ---------------------------------------------------------------- reading

  /** Bracket nesting and whether the next character is escaped. */
  datatype Mode = Mode(depth: nat, esc: bool)

  const START := Mode(0, false)

  function Next(m: Mode, c: char): Mode {
    Mode(if c == '[' then m.depth + 1 else if c == ']' && m.depth > 0 then m.depth - 1 else m.depth,
         !m.esc && c == '\\')
  }

  function Run(m: Mode, s: string): Mode
    decreases |s|
  {
    if s == "" then m else Run(Next(m, s[0]), s[1..])
  }

  predicate Delimits(m: Mode, c: char) {
    c == '|' && !m.esc && m.depth == 0
  }

  predicate IsBlank(c: char) {
    c == ' ' || c == '\t'
  }

  /** Whether a character counts as cell content: blanks do only when escaped. */
  predicate Significant(m: Mode, c: char) {
    m.esc || !IsBlank(c)
  }

  datatype Element = TableCell(from: int, to: int) | TableDelimiter(from: int, to: int)

  datatype RowState = RowState(count: nat, first: bool, cellStart: int, cellEnd: int, mode: Mode, elts: seq<Element>)

  const ROW_START := RowState(0, true, -1, -1, START, [])

  function CellElement(st: RowState, offset: int): seq<Element> {
    if st.cellStart > -1 then [TableCell(offset + st.cellStart, offset + st.cellEnd)] else []
  }

  /** Reading the character at index i. */
  function Read(st: RowState, c: char, i: nat, offset: int): RowState {
    var mode := Next(st.mode, c);
    if Delimits(st.mode, c) then
      RowState(if !st.first || st.cellStart > -1 then st.count + 1 else st.count, false, -1, -1, mode,
               st.elts + CellElement(st, offset) + [TableDelimiter(i + offset, i + offset + 1)])
    else if Significant(st.mode, c) then
      st.(cellStart := if st.cellStart < 0 then i else st.cellStart, cellEnd := i + 1, mode := mode)
    else
      st.(mode := mode)
  }

  /** Reading a stretch of text that begins at index `base`. */
  function ReadText(st: RowState, s: string, base: nat, offset: int): RowState
    decreases |s|
  {
    if s == "" then st else ReadText(Read(st, s[0], base, offset), s[1..], base + 1, offset)
  }

  function Finish(st: RowState, offset: int): (nat, seq<Element>) {
    (if st.cellStart > -1 then st.count + 1 else st.count, st.elts + CellElement(st, offset))
  }

  lemma {:induction false} ReadTextConcat(st: RowState, a: string, b: string, base: nat, offset: int)
    ensures ReadText(st, a + b, base, offset) == ReadText(ReadText(st, a, base, offset), b, base + |a|, offset)
    decreases |a|
  {
    if a == "" {
      assert a + b == b;
    } else {
      ReadTextConcat(Read(st, a[0], base, offset), a[1..], b, base + 1, offset);
      assert (a + b)[1..] == a[1..] + b;
    }
  }

  lemma ReadTextStart(st: RowState, base: nat, offset: int)
    ensures ReadText(st, "", base, offset) == st
  {
  }

  lemma ReadTextLast(st: RowState, s: string, base: nat, offset: int)
    requires s != ""
    ensures ReadText(st, s, base, offset) ==
            Read(ReadText(st, s[..|s| - 1], base, offset), s[|s| - 1], base + |s| - 1, offset)
  {
    var last := s[|s| - 1..];
    assert s == s[..|s| - 1] + last;
    var init := ReadText(st, s[..|s| - 1], base, offset);
    assert last[1..] == "" && last[0] == s[|s| - 1];
    hide Read;
    assert ReadText(init, last, base + |s| - 1, offset) == Read(init, last[0], base + |s| - 1, offset);
    hide ReadText;
    ReadTextConcat(st, s[..|s| - 1], last, base, offset);
  }

  /** Counts the columns of a row and, when asked to, lists its cells and delimiters. */
  method ParseRow(line: string, startI: nat, withElements: bool, offset: int) returns (count: nat, elts: seq<Element>)
    requires startI <= |line|
    ensures var (columns, elements) := Finish(ReadText(ROW_START, line[startI..], startI, offset), offset);
            count == columns && elts == if withElements then elements else []
  {
    hide ReadText;
    ReadTextStart(ROW_START, startI, offset);
    assert line[startI..startI] == "";
    count, elts := 0, [];
    var first, cellStart, cellEnd, esc, bracketDepth := true, -1, -1, false, 0;
    ghost var st := ROW_START;
    for i := startI to |line|
      invariant bracketDepth >= 0
      invariant st == ReadText(ROW_START, line[startI..i], startI, offset)
      invariant st == RowState(count, first, cellStart, cellEnd, Mode(bracketDepth, esc), st.elts)
      invariant withElements ==> elts == st.elts
      invariant !withElements ==> elts == []
    {
      var next := line[i];
      ReadTextLast(ROW_START, line[startI..i + 1], startI, offset);
      assert line[startI..i + 1][..i - startI] == line[startI..i];
      st := Read(st, next, i, offset);
      if next == '[' {
        bracketDepth := bracketDepth + 1;
      } else if next == ']' {
        if bracketDepth > 0 {
          bracketDepth := bracketDepth - 1;
        }
      }
      if next == '|' && !esc && bracketDepth == 0 {
        if !first || cellStart > -1 {
          count := count + 1;
        }
        first := false;
        if withElements {
          if cellStart > -1 {
            elts := elts + [TableCell(offset + cellStart, offset + cellEnd)];
          }
          elts := elts + [TableDelimiter(i + offset, i + offset + 1)];
        }
        cellStart, cellEnd := -1, -1;
      } else if esc || (next != ' ' && next != '\t') {
        if cellStart < 0 {
          cellStart := i;
        }
        cellEnd := i + 1;
      }
      esc := !esc && next == '\\';
    }
    assert line[startI..|line|] == line[startI..];
    if cellStart > -1 {
      count := count + 1;
      if withElements {
        elts := elts + [TableCell(offset + cellStart, offset + cellEnd)];
      }
    }
  }

  // ---------------------------------------------------------------- printing

  /** The text with a backslash before every pipe outside brackets. */
  function Escaped(s: string, depth: nat): string {
    if s == "" then ""
    else
      (if s[0] == '|' && depth == 0 then "\\|" else [s[0]]) + Escaped(s[1..], Next(Mode(depth, false), s[0]).depth)
  }

  lemma EscapedStep(s: string, i: nat, depth: nat, result: string)
    requires i < |s|
    ensures var rest := Escaped(s[i + 1..], Next(Mode(depth, false), s[i]).depth);
            result + Escaped(s[i..], depth) ==
            (if s[i] == '|' && depth == 0 then result + "\\" else result) + [s[i]] + rest
  {
    assert s[i..][1..] == s[i + 1..];
    var rest := Escaped(s[i + 1..], Next(Mode(depth, false), s[i]).depth);
    if s[i] == '|' && depth == 0 {
      assert Escaped(s[i..], depth) == "\\|" + rest;
      assert "\\|" == "\\" + [s[i]];
    }
  }

  lemma EscapedNothing(s: string, depth: nat)
    ensures Escaped(s[|s|..], depth) == ""
  {
  }

  method EscapeRegularPipes(s: string) returns (result: string)
    ensures result == Escaped(s, 0)
  {
    result := "";
    var bracketDepth := 0;
    assert s[0..] == s;
    hide Escaped;
    for i := 0 to |s|
      invariant bracketDepth >= 0
      invariant result + Escaped(s[i..], bracketDepth) == Escaped(s, 0)
    {
      EscapedStep(s, i, bracketDepth, result);
      if s[i] == '[' {
        bracketDepth := bracketDepth + 1;
      } else if s[i] == ']' {
        if bracketDepth > 0 {
          bracketDepth := bracketDepth - 1;
        }
      } else if s[i] == '|' && bracketDepth == 0 {
        result := result + "\\";
      }
      result := result + [s[i]];
    }
    EscapedNothing(s, bracketDepth);
  }

  function Join(cells: seq<string>): string
    requires cells != []
  {
    if |cells| == 1 then cells[0] else cells[0] + "|" + Join(cells[1..])
  }

  function EscapedCells(cells: seq<string>): seq<string> {
    seq(|cells|, i requires 0 <= i < |cells| => Escaped(cells[i], 0))
  }

  /** A printed row: the escaped cells between pipes. */
  function PrintRow(cells: seq<string>): string
    requires cells != []
  {
    "|" + Join(EscapedCells(cells)) + "|"
  }

  /** The cells of a row, each escaped and followed by a pipe. */
  function CellsText(cells: seq<string>): string {
    if cells == [] then "" else Escaped(cells[0], 0) + "|" + CellsText(cells[1..])
  }

  lemma {:induction false} PrintedRow(cells: seq<string>)
    requires cells != []
    ensures PrintRow(cells) == "|" + CellsText(cells)
  {
    JoinedCells(cells);
  }

  lemma {:induction false} JoinedCells(cells: seq<string>)
    requires cells != []
    ensures Join(EscapedCells(cells)) + "|" == CellsText(cells)
  {
    assert EscapedCells(cells)[1..] == EscapedCells(cells[1..]);
    if |cells| == 1 {
      assert CellsText(cells[1..]) == "";
      assert Join(EscapedCells(cells)) == Escaped(cells[0], 0);
    } else {
      JoinedCells(cells[1..]);
    }
  }

  // ---------------------------------------------------------------- which cells survive

  /** No pipe outside brackets follows an open escape, and the cell ends with brackets closed and no
      escape open. */
  predicate SafeFrom(m: Mode, cell: string)
    decreases |cell|
  {
    if cell == "" then m == START
    else !(cell[0] == '|' && m.depth == 0 && m.esc) && SafeFrom(Next(m, cell[0]), cell[1..])
  }

  predicate Safe(cell: string) {
    SafeFrom(START, cell)
  }

  /** The reader meets no delimiter inside this stretch. */
  predicate NoDelimiter(m: Mode, s: string)
    decreases |s|
  {
    s == "" || (!Delimits(m, s[0]) && NoDelimiter(Next(m, s[0]), s[1..]))
  }

  /** A cell is safe exactly when its escaped form reads without a delimiter and leaves the reader as it was. */
  lemma {:induction false} SafeMeansClosed(m: Mode, cell: string)
    ensures SafeFrom(m, cell) <==>
            NoDelimiter(m, Escaped(cell, m.depth)) && Run(m, Escaped(cell, m.depth)) == START
    decreases |cell|
  {
    if cell != "" {
      var c, e := cell[0], Escaped(cell, m.depth);
      SafeMeansClosed(Next(m, c), cell[1..]);
      var rest := Escaped(cell[1..], Next(m, c).depth);
      if c == '|' && m.depth == 0 {
        assert e == ['\\', '|'] + rest;
        assert e[1..] == ['|'] + rest && e[1..][1..] == rest;
      } else {
        assert e == [c] + rest && e[1..] == rest;
      }
    }
  }

  /** The bracket counter after the cell. */
  function Brackets(cell: string, depth: nat): nat {
    if cell == "" then depth else Brackets(cell[1..], Next(Mode(depth, false), cell[0]).depth)
  }

  /** Without backslashes a cell is safe exactly when its bracket counter ends at zero. */
  lemma {:induction false} SafeWithoutBackslash(cell: string, depth: nat)
    requires '\\' !in cell
    ensures SafeFrom(Mode(depth, false), cell) <==> Brackets(cell, depth) == 0
    decreases |cell|
  {
    if cell != "" {
      SafeWithoutBackslash(cell[1..], Next(Mode(depth, false), cell[0]).depth);
    }
  }

  // ---------------------------------------------------------------- spans

  /** The first index of content in a cell, or -1. */
  function SpanStart(m: Mode, s: string): int
    decreases |s|
  {
    if s == "" then -1
    else if Significant(m, s[0]) then 0
    else
      var r := SpanStart(Next(m, s[0]), s[1..]);
      if r < 0 then -1 else r + 1
  }

  /** The index after the last content in a cell, or -1. */
  function SpanEnd(m: Mode, s: string): int
    decreases |s|
  {
    if s == "" then -1
    else
      var r := SpanEnd(Next(m, s[0]), s[1..]);
      if r >= 0 then r + 1 else if Significant(m, s[0]) then 1 else -1
  }

  /** Reading a stretch without delimiters only moves the span of the current cell. */
  lemma {:induction false} ReadContent(st: RowState, s: string, base: nat, offset: int)
    requires NoDelimiter(st.mode, s)
    ensures ReadText(st, s, base, offset) ==
            st.(cellStart := if st.cellStart >= 0 || SpanStart(st.mode, s) < 0 then st.cellStart
                             else base + SpanStart(st.mode, s),
                cellEnd := if SpanEnd(st.mode, s) < 0 then st.cellEnd else base + SpanEnd(st.mode, s),
                mode := Run(st.mode, s))
    decreases |s|
  {
    if s != "" {
      ReadContent(Read(st, s[0], base, offset), s[1..], base + 1, offset);
    }
  }

  // ---------------------------------------------------------------- the whole row

  /** The element of a cell whose escaped text begins at `base`; blank cells have none. */
  function ExpectedCell(escaped: string, base: nat, offset: int): seq<Element> {
    if SpanStart(START, escaped) < 0 then []
    else [TableCell(offset + (base + SpanStart(START, escaped)), offset + (base + SpanEnd(START, escaped)))]
  }

  /** The elements of cells that follow one another from `base`, each closed by a delimiter. */
  function ExpectedCells(cells: seq<string>, base: nat, offset: int): seq<Element> {
    if cells == [] then []
    else
      var e := Escaped(cells[0], 0);
      var close := base + |e|;
      ExpectedCell(e, base, offset) + [TableDelimiter(close + offset, close + offset + 1)] +
      ExpectedCells(cells[1..], close + 1, offset)
  }

  /** The elements of a printed row, the leading delimiter included. */
  function Expected(cells: seq<string>, offset: int): seq<Element> {
    [TableDelimiter(offset, offset + 1)] + ExpectedCells(cells, 1, offset)
  }

  /** The reader just after a delimiter. */
  function Fresh(count: nat, elts: seq<Element>): RowState {
    RowState(count, false, -1, -1, START, elts)
  }

  lemma {:induction false} SpanStartIffEnd(m: Mode, s: string)
    ensures SpanStart(m, s) < 0 <==> SpanEnd(m, s) < 0
    ensures SpanStart(m, s) >= -1
    decreases |s|
  {
    if s != "" {
      SpanStartIffEnd(Next(m, s[0]), s[1..]);
    }
  }

  /** A safe cell and the pipe after it read as one column with its span. */
  lemma ReadSafeCell(count: nat, elts: seq<Element>, cell: string, base: nat, offset: int)
    requires Safe(cell)
    ensures var e := Escaped(cell, 0);
            ReadText(Fresh(count, elts), e + "|", base, offset) ==
            Fresh(count + 1, elts + ExpectedCell(e, base, offset) +
                             [TableDelimiter(base + |e| + offset, base + |e| + offset + 1)])
  {
    var e, st := Escaped(cell, 0), Fresh(count, elts);
    SafeMeansClosed(START, cell);
    ReadContent(st, e, base, offset);
    SpanStartIffEnd(START, e);
    ReadTextConcat(st, e, "|", base, offset);
    var read := ReadText(st, e, base, offset);
    assert "|"[1..] == "";
    assert ReadText(read, "|", base + |e|, offset) == Read(read, '|', base + |e|, offset);
  }

  lemma Associate(a: seq<Element>, b: seq<Element>, c: seq<Element>, d: seq<Element>)
    ensures a + b + c + d == a + (b + c + d)
  {
  }

  lemma {:induction false} ReadSafeCells(count: nat, elts: seq<Element>, cells: seq<string>, base: nat, offset: int)
    requires forall i :: 0 <= i < |cells| ==> Safe(cells[i])
    ensures ReadText(Fresh(count, elts), CellsText(cells), base, offset) ==
            Fresh(count + |cells|, elts + ExpectedCells(cells, base, offset))
    decreases |cells|
  {
    if cells == [] {
      assert elts + [] == elts;
    } else {
      var e := Escaped(cells[0], 0);
      var own := ExpectedCell(e, base, offset);
      var close := [TableDelimiter(base + |e| + offset, base + |e| + offset + 1)];
      assert CellsText(cells) == (e + "|") + CellsText(cells[1..]);
      assert ExpectedCells(cells, base, offset) == own + close + ExpectedCells(cells[1..], base + |e| + 1, offset);
      assert |e + "|"| == |e| + 1;
      hide *;
      ReadSafeCell(count, elts, cells[0], base, offset);
      ReadTextConcat(Fresh(count, elts), e + "|", CellsText(cells[1..]), base, offset);
      ReadSafeCells(count + 1, elts + own + close, cells[1..], base + |e| + 1, offset);
      Associate(elts, own, close, ExpectedCells(cells[1..], base + |e| + 1, offset));
    }
  }

  /** The columns and elements that reading a whole line yields. */
  function ReadRow(line: string, offset: int): (nat, seq<Element>) {
    Finish(ReadText(ROW_START, line, 0, offset), offset)
  }

  lemma ReadLeadingPipe(rest: string, offset: int)
    ensures ReadText(ROW_START, "|" + rest, 0, offset) ==
            ReadText(Fresh(0, [TableDelimiter(offset, offset + 1)]), rest, 1, offset)
  {
    assert ("|" + rest)[1..] == rest && ("|" + rest)[0] == '|';
    assert Read(ROW_START, '|', 0, offset) == Fresh(0, [TableDelimiter(offset, offset + 1)]);
  }

  lemma SafeRowsRoundTrip(cells: seq<string>, offset: int)
    requires cells != [] && forall i :: 0 <= i < |cells| ==> Safe(cells[i])
    ensures ReadRow(PrintRow(cells), offset) == (|cells|, Expected(cells, offset))
  {
    PrintedRow(cells);
    ReadLeadingPipe(CellsText(cells), offset);
    ReadSafeCells(0, [TableDelimiter(offset, offset + 1)], cells, 1, offset);
    assert Expected(cells, offset) + [] == Expected(cells, offset);
  }

  // ---------------------------------------------------------------- rows that do not survive

  lemma {:induction false} RunConcat(m: Mode, a: string, b: string)
    ensures Run(m, a + b) == Run(Run(m, a), b)
    decreases |a|
  {
    if a == "" {
      assert a + b == b;
    } else {
      RunConcat(Next(m, a[0]), a[1..], b);
      assert (a + b)[1..] == a[1..] + b;
    }
  }

  /** The reader, in mode m before s, takes s[x] for a delimiter. */
  predicate DelimitsAt(m: Mode, s: string, x: nat) {
    x < |s| && Delimits(Run(m, s[..x]), s[x])
  }

  lemma DelimitsAtTail(m: Mode, s: string, x: nat)
    requires s != ""
    ensures DelimitsAt(Next(m, s[0]), s[1..], x) <==> DelimitsAt(m, s, x + 1)
  {
    if x + 1 <= |s| {
      assert s[..x + 1][0] == s[0] && s[..x + 1][1..] == s[1..][..x];
    }
  }

  function DelimiterAt(x: int, offset: int): Element {
    TableDelimiter(x + offset, x + offset + 1)
  }

  /** The delimiters that reading adds are those of the text. */
  lemma {:induction false} ReadDelimiters(st: RowState, s: string, base: nat, offset: int, x: int)
    ensures DelimiterAt(x, offset) in ReadText(st, s, base, offset).elts <==>
            DelimiterAt(x, offset) in st.elts || (x >= base && DelimitsAt(st.mode, s, x - base))
    decreases |s|
  {
    if s != "" {
      var st' := Read(st, s[0], base, offset);
      ReadDelimiters(st', s[1..], base + 1, offset, x);
      if x > base {
        DelimitsAtTail(st.mode, s, x - base - 1);
      }
      assert s[..0] == "";
    }
  }

  /** Only the places right after the cells are expected to hold delimiters. */
  lemma {:induction false} ExpectedDelimiters(cells: seq<string>, base: nat, offset: int, x: int)
    ensures DelimiterAt(x, offset) in ExpectedCells(cells, base, offset) <==> x >= base && IsClose(cells, x - base)
    decreases |cells|
  {
    if cells != [] {
      ExpectedDelimiters(cells[1..], base + |Escaped(cells[0], 0)| + 1, offset, x);
    }
  }

  /** x is the place of the pipe after one of the cells. */
  predicate IsClose(cells: seq<string>, x: nat) {
    if cells == [] then false
    else
      var n := |Escaped(cells[0], 0)|;
      x == n || (x > n && IsClose(cells[1..], x - n - 1))
  }

  /** If the reader's delimiters are exactly the pipes after the cells, every cell is safe. */
  lemma {:induction false} DelimitersTellSafety(cells: seq<string>)
    requires forall x: nat :: DelimitsAt(START, CellsText(cells), x) <==> IsClose(cells, x)
    ensures forall i :: 0 <= i < |cells| ==> Safe(cells[i])
    decreases |cells|
  {
    if cells != [] {
      var e, rest := Escaped(cells[0], 0), CellsText(cells[1..]);
      var s := e + "|" + rest;
      assert s == CellsText(cells);
      forall x: nat | x < |e|
        ensures !DelimitsAt(START, e, x)
      {
        assert !IsClose(cells, x);
        assert s[..x] == e[..x];
      }
      AllNoDelimiter(START, e);
      assert DelimitsAt(START, s, |e|) && s[..|e|] == e;
      SafeMeansClosed(START, cells[0]);
      ModeAtDelimiter(START, e);
      forall x: nat
        ensures DelimitsAt(START, rest, x) <==> IsClose(cells[1..], x)
      {
        assert IsClose(cells, |e| + 1 + x) <==> IsClose(cells[1..], x);
        DelimitsAfterCell(e, rest, x);
      }
      DelimitersTellSafety(cells[1..]);
    }
  }

  lemma ModeAtDelimiter(m: Mode, e: string)
    requires Delimits(Run(m, e), '|')
    ensures Run(m, e) == START
  {
  }

  lemma {:induction false} AllNoDelimiter(m: Mode, e: string)
    requires forall x: nat :: x < |e| ==> !DelimitsAt(m, e, x)
    ensures NoDelimiter(m, e)
    decreases |e|
  {
    if e != "" {
      assert e[..0] == "" && !DelimitsAt(m, e, 0);
      forall x: nat | x < |e| - 1
        ensures !DelimitsAt(Next(m, e[0]), e[1..], x)
      {
        DelimitsAtTail(m, e, x);
      }
      AllNoDelimiter(Next(m, e[0]), e[1..]);
    }
  }

  lemma {:induction false} DelimitsAfterCell(e: string, rest: string, x: nat)
    requires Run(START, e) == START
    ensures DelimitsAt(START, e + "|" + rest, |e| + 1 + x) <==> DelimitsAt(START, rest, x)
  {
    var s := e + "|" + rest;
    if x < |rest| {
      RunPastCell(e, rest[..x]);
      hide Run;
      assert s[..|e| + 1 + x] == e + "|" + rest[..x];
    }
  }

  lemma RunPastCell(e: string, r: string)
    requires Run(START, e) == START
    ensures Run(START, e + "|" + r) == Run(START, r)
  {
    assert e + "|" + r == e + ("|" + r);
    RunConcat(START, e, "|" + r);
    assert ("|" + r)[1..] == r && ("|" + r)[0] == '|';
    assert Next(START, '|') == START;
  }

  lemma ReadRowDelimiters(cells: seq<string>, offset: int, x: nat)
    requires cells != []
    ensures DelimiterAt(1 + x, offset) in ReadRow(PrintRow(cells), offset).1 <==> DelimitsAt(START, CellsText(cells), x)
  {
    var st := Fresh(0, [TableDelimiter(offset, offset + 1)]);
    PrintedRow(cells);
    ReadLeadingPipe(CellsText(cells), offset);
    ReadDelimiters(st, CellsText(cells), 1, offset, 1 + x);
    hide ReadText, PrintRow, CellsText, DelimitsAt;
  }

  /** The round trip holds for exactly the rows whose cells are all safe. */
  lemma RoundTripExactlyWhenSafe(cells: seq<string>, offset: int)
    requires cells != []
    ensures ReadRow(PrintRow(cells), offset) == (|cells|, Expected(cells, offset)) <==>
            forall i :: 0 <= i < |cells| ==> Safe(cells[i])
  {
    if ReadRow(PrintRow(cells), offset).1 == Expected(cells, offset) {
      forall x: nat
        ensures DelimitsAt(START, CellsText(cells), x) <==> IsClose(cells, x)
      {
        ReadRowDelimiters(cells, offset, x);
        ExpectedDelimiters(cells, 1, offset, 1 + x);
      }
      DelimitersTellSafety(cells);
    }
    if forall i :: 0 <= i < |cells| ==> Safe(cells[i]) {
      SafeRowsRoundTrip(cells, offset);
    }
  }

  // ---------------------------------------------------------------- spans are trimmed cells

  predicate ContentAt(m: Mode, s: string, k: nat) {
    k < |s| && Significant(Run(m, s[..k]), s[k])
  }

  lemma ContentAtTail(m: Mode, s: string, k: nat)
    requires s != ""
    ensures ContentAt(Next(m, s[0]), s[1..], k) <==> ContentAt(m, s, k + 1)
  {
    if k + 1 <= |s| {
      assert s[..k + 1][0] == s[0] && s[..k + 1][1..] == s[1..][..k];
    }
  }

  /** A span runs from the first to the last content. */
  lemma {:induction false} SpanBounds(m: Mode, s: string)
    ensures var a, b := SpanStart(m, s), SpanEnd(m, s);
            if a < 0 then b < 0 && forall k: nat :: !ContentAt(m, s, k)
            else 0 <= a < b <= |s| && ContentAt(m, s, a) && ContentAt(m, s, b - 1) &&
                 forall k: nat :: ContentAt(m, s, k) ==> a <= k < b
    decreases |s|
  {
    if s != "" {
      var m', t := Next(m, s[0]), s[1..];
      SpanBounds(m', t);
      assert s[..0] == "";
      assert ContentAt(m, s, 0) <==> Significant(m, s[0]);
      forall k: nat
        ensures ContentAt(m', t, k) <==> ContentAt(m, s, k + 1)
      {
        ContentAtTail(m, s, k);
      }
      hide Run, Significant;
      var a, b := SpanStart(m', t), SpanEnd(m', t);
      if a >= 0 {
        assert ContentAt(m, s, a + 1) && ContentAt(m, s, b);
      }
      forall k: nat | ContentAt(m, s, k) && k > 0
        ensures ContentAt(m', t, k - 1)
      {
      }
    }
  }

  /** In a cell without backslashes only pipes are ever escaped. */
  lemma {:induction false} OnlyPipesEscaped(cell: string, depth: nat, k: nat)
    requires '\\' !in cell && k < |Escaped(cell, depth)|
    ensures Run(Mode(depth, false), Escaped(cell, depth)[..k]).esc ==> Escaped(cell, depth)[k] == '|'
    decreases |cell|
  {
    var e, m, c := Escaped(cell, depth), Mode(depth, false), cell[0];
    var depth' := Next(m, c).depth;
    var rest := Escaped(cell[1..], depth');
    var head := if c == '|' && depth == 0 then "\\|" else [c];
    assert e == head + rest;
    if k >= |head| {
      OnlyPipesEscaped(cell[1..], depth', k - |head|);
      assert e[..k] == head + rest[..k - |head|];
      RunConcat(m, head, rest[..k - |head|]);
      RunHead(m, c, head);
    } else if k == 1 {
      assert e[k] == '|';
    } else {
      assert e[..0] == "";
    }
  }

  lemma RunHead(m: Mode, c: char, head: string)
    requires !m.esc && c != '\\'
    requires head == if c == '|' && m.depth == 0 then "\\|" else [c]
    ensures Run(m, head) == Mode(Next(m, c).depth, false)
  {
    if |head| == 2 {
      assert head[1..] == "|" && "|"[1..] == "";
    } else {
      assert head[1..] == "";
    }
  }

  /** s[a..b] is s without its outer spaces and tabs. */
  ghost predicate IsTrimmed(s: string, a: int, b: int) {
    && 0 <= a < b <= |s|
    && !IsBlank(s[a]) && !IsBlank(s[b - 1])
    && forall k :: 0 <= k < |s| && !IsBlank(s[k]) ==> a <= k < b
  }

  /** Without backslashes the span of a printed cell is its trimmed text, and blank cells have none. */
  lemma SpanIsTrimmed(cell: string)
    requires '\\' !in cell
    ensures var e := Escaped(cell, 0);
            var a, b := SpanStart(START, e), SpanEnd(START, e);
            if a < 0 then forall k :: 0 <= k < |e| ==> IsBlank(e[k]) else IsTrimmed(e, a, b)
  {
    hide *;
    var e := Escaped(cell, 0);
    SpanBounds(START, e);
    forall k: nat
      ensures ContentAt(START, e, k) <==> k < |e| && !IsBlank(e[k])
    {
      ContentIsNonBlank(cell, k);
    }
    ContentSpanIsTrimmed(e, SpanStart(START, e), SpanEnd(START, e));
  }

  lemma ContentIsNonBlank(cell: string, k: nat)
    requires '\\' !in cell
    ensures ContentAt(START, Escaped(cell, 0), k) <==> k < |Escaped(cell, 0)| && !IsBlank(Escaped(cell, 0)[k])
  {
    hide Run, Escaped;
    if k < |Escaped(cell, 0)| {
      OnlyPipesEscaped(cell, 0, k);
    }
  }

  lemma ContentSpanIsTrimmed(e: string, a: int, b: int)
    requires forall k: nat :: ContentAt(START, e, k) <==> k < |e| && !IsBlank(e[k])
    requires if a < 0 then forall k: nat :: !ContentAt(START, e, k)
             else 0 <= a < b <= |e| && ContentAt(START, e, a) && ContentAt(START, e, b - 1) &&
                  forall k: nat :: ContentAt(START, e, k) ==> a <= k < b
    ensures if a < 0 then forall k :: 0 <= k < |e| ==> IsBlank(e[k]) else IsTrimmed(e, a, b)
  {
    hide ContentAt, IsBlank;
    forall k | 0 <= k < |e| && !IsBlank(e[k])
      ensures 0 <= a <= k < b
    {
      assert ContentAt(START, e, k);
    }
  }

  /** Without backslashes, a row comes back column by column exactly when every bracket counter ends at zero. */
  lemma RoundTripWithoutBackslashes(cells: seq<string>, offset: int)
    requires cells != [] && forall i :: 0 <= i < |cells| ==> '\\' !in cells[i]
    ensures ReadRow(PrintRow(cells), offset) == (|cells|, Expected(cells, offset)) <==>
            forall i :: 0 <= i < |cells| ==> Brackets(cells[i], 0) == 0
  {
    RoundTripExactlyWhenSafe(cells, offset);
    forall i | 0 <= i < |cells|
      ensures Safe(cells[i]) <==> Brackets(cells[i], 0) == 0
    {
      SafeWithoutBackslash(cells[i], 0);
    }
  }

  /** Rows that do not come back: an open bracket hides the delimiter after it, and a backslash in a cell takes the one
      put before a pipe for itself. */
  lemma UnsafeRows(offset: int)
    ensures ReadRow(PrintRow(["["]), offset) != (1, Expected(["["], offset))
    ensures ReadRow(PrintRow(["\\|"]), offset) != (1, Expected(["\\|"], offset))
  {
    assert !Safe("[");
    assert !SafeFrom(Mode(0, true), "|");
    assert "\\|"[1..] == "|";
    assert !Safe("\\|");
    assert ["["][0] == "[" && ["\\|"][0] == "\\|";
    hide ReadRow, PrintRow, Expected, Safe;
    RoundTripExactlyWhenSafe(["["], offset);
    RoundTripExactlyWhenSafe(["\\|"], offset);
  }
}
