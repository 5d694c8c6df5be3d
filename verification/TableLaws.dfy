/** What reading a row yields, said from the delimiters and the content of the line alone. */
module TableLaws {
  import opened TableRow

  // ---------------------------------------------------------------- escapes and brackets

  /** How many backslashes end the text. */
  function TrailingBackslashes(s: string): nat {
    if s != "" && s[|s| - 1] == '\\' then 1 + TrailingBackslashes(s[..|s| - 1]) else 0
  }

  /** How many more brackets open than close. */
  function Balance(s: string): int {
    if s == "" then 0
    else
      var c := s[|s| - 1];
      Balance(s[..|s| - 1]) + (if c == '[' then 1 else if c == ']' then -1 else 0)
  }

  lemma RunLast(m: Mode, s: string)
    requires s != ""
    ensures Run(m, s) == Next(Run(m, s[..|s| - 1]), s[|s| - 1])
  {
    var last := s[|s| - 1..];
    assert s == s[..|s| - 1] + last && last[1..] == "";
    RunConcat(m, s[..|s| - 1], last);
  }

  /** The next character is escaped exactly after an odd number of backslashes. */
  lemma {:induction false} EscapedAfterOddBackslashes(s: string)
    ensures Run(START, s).esc <==> TrailingBackslashes(s) % 2 == 1
  {
    if s != "" {
      EscapedAfterOddBackslashes(s[..|s| - 1]);
      RunLast(START, s);
    }
  }

  /** The counter is the largest balance of any ending of the text: brackets closed before they open do not count. */
  lemma {:induction false} DepthIsLargestBalance(s: string)
    ensures forall i :: 0 <= i <= |s| ==> Balance(s[i..]) <= Run(START, s).depth
    ensures exists i :: 0 <= i <= |s| && Balance(s[i..]) == Run(START, s).depth
  {
    if s == "" {
      assert s[0..] == "";
      return;
    }
    var n := |s| - 1;
    var init := s[..n];
    DepthIsLargestBalance(init);
    RunLast(START, s);
    forall i | 0 <= i <= n
      ensures Balance(s[i..]) == Balance(init[i..]) + (if s[n] == '[' then 1 else if s[n] == ']' then -1 else 0)
    {
      assert s[i..][..n - i] == init[i..];
    }
    assert s[|s|..] == "" && Balance(s[|s|..]) == 0;
    var j :| 0 <= j <= n && Balance(init[j..]) == Run(START, init).depth;
    hide Balance, Run;
    if Run(START, init).depth == 0 && s[n] == ']' {
      assert Balance(s[|s|..]) == Run(START, s).depth;
    } else {
      assert Balance(s[j..]) == Run(START, s).depth;
    }
  }

  /** No bracket before is open. */
  ghost predicate OutsideBrackets(s: string) {
    forall i :: 0 <= i <= |s| ==> Balance(s[i..]) <= 0
  }

  lemma OutsideMeansDepthZero(s: string)
    ensures OutsideBrackets(s) <==> Run(START, s).depth == 0
  {
    DepthIsLargestBalance(s);
    hide Balance, Run;
  }

  /** A delimiter is a pipe outside brackets after an even number of backslashes. */
  lemma DelimitersAre(s: string, x: nat)
    ensures DelimitsAt(START, s, x) <==>
            x < |s| && s[x] == '|' && OutsideBrackets(s[..x]) && TrailingBackslashes(s[..x]) % 2 == 0
  {
    if x < |s| {
      EscapedAfterOddBackslashes(s[..x]);
      OutsideMeansDepthZero(s[..x]);
    }
  }

  /** Content is what is no space or tab, or comes after an odd number of backslashes. */
  lemma ContentIs(s: string, k: nat)
    ensures ContentAt(START, s, k) <==>
            k < |s| && ((s[k] != ' ' && s[k] != '\t') || TrailingBackslashes(s[..k]) % 2 == 1)
  {
    if k < |s| {
      EscapedAfterOddBackslashes(s[..k]);
    }
  }

  lemma {:induction false} BracketsIsDepth(s: string, m: Mode)
    ensures Brackets(s, m.depth) == Run(m, s).depth
    decreases |s|
  {
    if s != "" {
      BracketsIsDepth(s[1..], Next(m, s[0]));
    }
  }

  lemma Associates(a: string, b: string, c: string)
    ensures a + (b + c) == a + b + c
  {
  }

  lemma {:induction false} EscapedConcat(a: string, b: string, depth: nat)
    ensures Escaped(a + b, depth) == Escaped(a, depth) + Escaped(b, Brackets(a, depth))
  {
    if a == "" {
      assert a + b == b;
    } else {
      var depth' := Next(Mode(depth, false), a[0]).depth;
      var head := if a[0] == '|' && depth == 0 then "\\|" else [a[0]];
      EscapedConcat(a[1..], b, depth');
      assert (a + b)[1..] == a[1..] + b;
      assert Escaped(a + b, depth) == head + Escaped(a[1..] + b, depth');
      assert Escaped(a, depth) == head + Escaped(a[1..], depth');
      assert Brackets(a, depth) == Brackets(a[1..], depth');
      hide *;
      Associates(head, Escaped(a[1..], depth'), Escaped(b, Brackets(a, depth)));
    }
  }

  /** Escaping character by character: a backslash before a pipe outside brackets, and nothing else changes. */
  lemma EscapedGrows(s: string, c: char)
    ensures Escaped(s + [c], 0) == Escaped(s, 0) + (if c == '|' && OutsideBrackets(s) then "\\|" else [c])
  {
    EscapedConcat(s, [c], 0);
    BracketsIsDepth(s, START);
    OutsideMeansDepthZero(s);
    assert [c][1..] == "";
    hide Run, Brackets, Balance;
  }

  // ---------------------------------------------------------------- the line seen as a whole

  ghost predicate IsContent(s: string, k: nat) {
    ContentAt(START, s, k) && !DelimitsAt(START, s, k)
  }

  ghost function Delimiters(s: string): set<nat> {
    set x: nat | x < |s| && DelimitsAt(START, s, x)
  }

  ghost predicate NoDelimiterIn(s: string, i: nat, j: nat) {
    forall x: nat :: i <= x < j ==> !DelimitsAt(START, s, x)
  }

  /** Content before the first delimiter. */
  ghost predicate HasLead(s: string) {
    exists k: nat :: IsContent(s, k) && NoDelimiterIn(s, 0, k)
  }

  /** Content after the last delimiter. */
  ghost predicate InTail(s: string, k: nat) {
    IsContent(s, k) && NoDelimiterIn(s, k, |s|)
  }

  ghost predicate HasTail(s: string) {
    exists k: nat :: InTail(s, k)
  }

  /** s[a..b] runs from the first to the last content between two delimiters, or the ends of the line. */
  ghost predicate IsCell(s: string, a: int, b: int) {
    && 0 <= a < b <= |s| && IsContent(s, a) && IsContent(s, b - 1) && NoDelimiterIn(s, a, b)
    && (forall k: nat :: IsContent(s, k) && k < a ==> !NoDelimiterIn(s, k, a))
    && (forall k: nat :: IsContent(s, k) && k >= b ==> !NoDelimiterIn(s, b, k))
  }

  ghost predicate IsClosedCell(s: string, a: int, b: int) {
    IsCell(s, a, b) && !NoDelimiterIn(s, b, |s|)
  }

  ghost predicate IsOpenCell(s: string, a: int, b: int) {
    IsCell(s, a, b) && NoDelimiterIn(s, b, |s|)
  }

  // ---------------------------------------------------------------- one character more

  lemma DelimitsLonger(s: string, c: char, x: nat)
    ensures x < |s| ==> (DelimitsAt(START, s + [c], x) <==> DelimitsAt(START, s, x))
    ensures DelimitsAt(START, s + [c], |s|) <==> Delimits(Run(START, s), c)
    ensures x > |s| ==> !DelimitsAt(START, s + [c], x)
  {
    if x <= |s| {
      assert (s + [c])[..x] == s[..x];
    }
    assert (s + [c])[..|s|] == s;
  }

  lemma ContentLonger(s: string, c: char, k: nat)
    ensures k < |s| ==> (ContentAt(START, s + [c], k) <==> ContentAt(START, s, k))
    ensures ContentAt(START, s + [c], |s|) <==> Significant(Run(START, s), c)
    ensures k > |s| ==> !ContentAt(START, s + [c], k)
  {
    if k <= |s| {
      assert (s + [c])[..k] == s[..k];
    }
    assert (s + [c])[..|s|] == s;
  }

  /** The facts about the longer line, with the reading hidden. */
  ghost predicate Grows(s: string, t: string, delimits: bool, content: bool) {
    && |t| == |s| + 1
    && (forall x: nat :: x < |s| ==> (DelimitsAt(START, t, x) <==> DelimitsAt(START, s, x)))
    && (forall x: nat :: x < |s| ==> (IsContent(t, x) <==> IsContent(s, x)))
    && (DelimitsAt(START, t, |s|) <==> delimits) && (IsContent(t, |s|) <==> content)
    && (forall x: nat :: DelimitsAt(START, t, x) || IsContent(t, x) ==> x < |t|)
    && (forall x: nat :: DelimitsAt(START, s, x) || IsContent(s, x) ==> x < |s|)
  }

  lemma LineGrows(s: string, c: char)
    ensures var delimits := Delimits(Run(START, s), c);
            Grows(s, s + [c], delimits, !delimits && Significant(Run(START, s), c))
  {
    hide Run, Delimits, Significant;
    forall x: nat
      ensures x < |s| ==> (DelimitsAt(START, s + [c], x) <==> DelimitsAt(START, s, x))
      ensures x < |s| ==> (IsContent(s + [c], x) <==> IsContent(s, x))
      ensures DelimitsAt(START, s + [c], x) || IsContent(s + [c], x) ==> x < |s + [c]|
    {
      DelimitsLonger(s, c, x);
      ContentLonger(s, c, x);
    }
    DelimitsLonger(s, c, |s|);
    ContentLonger(s, c, |s|);
  }

  lemma NoDelimiterGrows(s: string, t: string, delimits: bool, content: bool, i: nat, j: nat)
    requires Grows(s, t, delimits, content)
    ensures j <= |s| ==> (NoDelimiterIn(t, i, j) <==> NoDelimiterIn(s, i, j))
    ensures i <= |s| ==> (NoDelimiterIn(t, i, |t|) <==> NoDelimiterIn(s, i, |s|) && !delimits)
  {
    hide DelimitsAt, IsContent;
  }

  lemma DelimitersGrow(s: string, t: string, delimits: bool, content: bool)
    requires Grows(s, t, delimits, content)
    ensures Delimiters(t) == Delimiters(s) + (if delimits then {|s|} else {}) && |s| !in Delimiters(s)
  {
    hide DelimitsAt, IsContent;
  }

  lemma NoneIsEmpty(s: string)
    ensures Delimiters(s) == {} <==> NoDelimiterIn(s, 0, |s|)
  {
    hide Run, Delimits;
    if Delimiters(s) == {} {
      forall x: nat | 0 <= x < |s|
        ensures !DelimitsAt(START, s, x)
      {
        assert DelimitsAt(START, s, x) ==> x in Delimiters(s);
      }
    }
  }

  lemma LeadGrows(s: string, t: string, delimits: bool, content: bool)
    requires Grows(s, t, delimits, content)
    ensures HasLead(t) <==> HasLead(s) || (content && Delimiters(s) == {})
  {
    NoneIsEmpty(s);
    forall k: nat
      ensures k <= |s| ==> (NoDelimiterIn(t, 0, k) <==> NoDelimiterIn(s, 0, k))
    {
      NoDelimiterGrows(s, t, delimits, content, 0, k);
    }
    hide DelimitsAt, IsContent, NoDelimiterIn, Delimiters;
    if HasLead(s) {
      var k: nat :| IsContent(s, k) && NoDelimiterIn(s, 0, k);
      assert IsContent(t, k) && NoDelimiterIn(t, 0, k);
    }
    if content && NoDelimiterIn(s, 0, |s|) {
      assert IsContent(t, |s|) && NoDelimiterIn(t, 0, |s|);
    }
    if HasLead(t) {
      var k: nat :| IsContent(t, k) && NoDelimiterIn(t, 0, k);
      assert k < |s| ==> IsContent(s, k) && NoDelimiterIn(s, 0, k);
    }
  }

  lemma TailGrows(s: string, t: string, delimits: bool, content: bool, k: nat)
    requires Grows(s, t, delimits, content)
    ensures InTail(t, k) <==> !delimits && (if k == |s| then content else InTail(s, k))
  {
    NoDelimiterGrows(s, t, delimits, content, k, 0);
    hide DelimitsAt, IsContent;
  }

  // ---------------------------------------------------------------- the state of the reader

  /** The open cell of the reader: from the first to the last content in the tail. */
  ghost predicate HoldsTail(s: string, base: nat, cellStart: int, cellEnd: int) {
    if cellStart < 0 then cellStart == cellEnd == -1 && !HasTail(s)
    else
      var a, b := cellStart - base, cellEnd - base;
      0 <= a < b && InTail(s, a) && InTail(s, b - 1) && forall k: nat :: InTail(s, k) ==> a <= k < b
  }

  lemma HoldsTailGrows(s: string, t: string, delimits: bool, content: bool, base: nat, cellStart: int, cellEnd: int)
    requires Grows(s, t, delimits, content) && HoldsTail(s, base, cellStart, cellEnd) && !(delimits && content)
    ensures delimits ==> HoldsTail(t, base, -1, -1)
    ensures content ==>
              HoldsTail(t, base, if cellStart < 0 then base + |s| else cellStart, base + |s| + 1)
    ensures !delimits && !content ==> HoldsTail(t, base, cellStart, cellEnd)
  {
    forall k: nat
      ensures InTail(t, k) <==> !delimits && (if k == |s| then content else InTail(s, k))
      ensures InTail(s, k) ==> k < |s|
    {
      TailGrows(s, t, delimits, content, k);
    }
    hide InTail, Grows;
  }

  ghost function Minus(b: bool): nat {
    if b then 1 else 0
  }

  /** Columns closed so far: the delimiters, but for a first one with no content before it. */
  ghost predicate CountsColumns(s: string, count: nat, first: bool) {
    && (first <==> Delimiters(s) == {})
    && count == |Delimiters(s)| - Minus(!first && !HasLead(s))
  }

  lemma CountGrows(s: string, t: string, delimits: bool, content: bool, count: nat, first: bool)
    requires Grows(s, t, delimits, content) && CountsColumns(s, count, first)
    ensures if delimits then CountsColumns(t, if !first || HasLead(s) then count + 1 else count, false)
            else CountsColumns(t, count, first)
  {
    DelimitersGrow(s, t, delimits, content);
    LeadGrows(s, t, delimits, content);
    hide Grows, HasLead;
  }

  lemma FirstTailIsLead(s: string)
    requires Delimiters(s) == {}
    ensures HasTail(s) <==> HasLead(s)
  {
    forall x: nat
      ensures !DelimitsAt(START, s, x)
    {
      assert DelimitsAt(START, s, x) ==> x in Delimiters(s);
    }
    hide DelimitsAt, IsContent;
    if HasLead(s) {
      var k: nat :| IsContent(s, k) && NoDelimiterIn(s, 0, k);
      assert InTail(s, k);
    }
    if HasTail(s) {
      var k: nat :| InTail(s, k);
      assert NoDelimiterIn(s, 0, k);
    }
  }

  /** What the reader knows after reading s. */
  ghost predicate Knows(s: string, base: nat, st: RowState) {
    st.mode == Run(START, s) && HoldsTail(s, base, st.cellStart, st.cellEnd) && CountsColumns(s, st.count, st.first)
  }

  lemma KnowsMore(s: string, c: char, base: nat, offset: int, st: RowState)
    requires Knows(s, base, st)
    ensures Knows(s + [c], base, Read(st, c, base + |s|, offset))
  {
    var t := s + [c];
    RunLast(START, t);
    assert t[..|s|] == s;
    hide Run, HoldsTail, CountsColumns, Delimits, Significant, Next;
    LineGrows(s, c);
    hide Grows;
    var delimits := Delimits(st.mode, c);
    var content := !delimits && Significant(st.mode, c);
    HoldsTailGrows(s, t, delimits, content, base, st.cellStart, st.cellEnd);
    CountGrows(s, t, delimits, content, st.count, st.first);
    LeadWhenFirst(s, base, st.count, st.first, st.cellStart, st.cellEnd);
  }

  lemma {:induction false} ReaderKnows(s: string, base: nat, offset: int)
    ensures Knows(s, base, ReadText(ROW_START, s, base, offset))
  {
    if s == "" {
      assert Delimiters(s) == {};
      return;
    }
    var n := |s| - 1;
    assert s == s[..n] + [s[n]];
    hide *;
    ReaderKnows(s[..n], base, offset);
    ReadTextLast(ROW_START, s, base, offset);
    KnowsMore(s[..n], s[n], base, offset, ReadText(ROW_START, s[..n], base, offset));
  }

  lemma LeadWhenFirst(s: string, base: nat, count: nat, first: bool, cellStart: int, cellEnd: int)
    requires HoldsTail(s, base, cellStart, cellEnd) && CountsColumns(s, count, first)
    ensures first ==> (HasLead(s) <==> cellStart > -1)
    ensures HasTail(s) <==> cellStart > -1
  {
    if first {
      FirstTailIsLead(s);
    }
    hide InTail, HasLead, Delimiters;
    if cellStart >= 0 {
      assert InTail(s, cellStart - base);
    }
  }

  /** The number of columns of any row: the delimiters, less one if nothing comes before the first, and one more if
      something comes after the last. */
  lemma ColumnsOfRow(s: string, base: nat, offset: int)
    ensures Finish(ReadText(ROW_START, s, base, offset), offset).0 ==
            |Delimiters(s)| - Minus(Delimiters(s) != {} && !HasLead(s)) + Minus(HasTail(s))
  {
    ReaderKnows(s, base, offset);
    var st := ReadText(ROW_START, s, base, offset);
    LeadWhenFirst(s, base, st.count, st.first, st.cellStart, st.cellEnd);
    hide ReadText, HoldsTail, Delimiters, HasLead, HasTail;
  }

  // ---------------------------------------------------------------- the elements of a row

  /** What an element stands for, from the start of the line on. */
  ghost predicate Names(s: string, origin: int, e: Element) {
    match e
    case TableCell(from, to) => IsClosedCell(s, from - origin, to - origin)
    case TableDelimiter(from, to) =>
      to == from + 1 && origin <= from < origin + |s| && DelimitsAt(START, s, from - origin)
  }

  /** The list holds exactly the closed cells and the delimiters, in the order of the line. */
  ghost predicate Lists(s: string, origin: int, elts: seq<Element>) {
    (forall e :: e in elts <==> Names(s, origin, e)) && InOrder(elts)
  }

  ghost predicate InOrder(elts: seq<Element>) {
    forall i, j :: 0 <= i < j < |elts| ==> elts[i].to <= elts[j].from
  }

  ghost predicate EndBefore(elts: seq<Element>, limit: int) {
    forall i :: 0 <= i < |elts| ==> elts[i].to <= limit
  }

  lemma InOrderAdded(elts: seq<Element>, e: Element)
    requires InOrder(elts) && EndBefore(elts, e.from) && e.from <= e.to
    ensures InOrder(elts + [e]) && EndBefore(elts + [e], e.to)
  {
  }

  lemma ClosedGrows(s: string, t: string, delimits: bool, content: bool, a: int, b: int)
    requires Grows(s, t, delimits, content) && !(delimits && content)
    ensures IsClosedCell(t, a, b) <==> IsClosedCell(s, a, b) || (delimits && IsOpenCell(s, a, b))
  {
    if !(0 <= a < b <= |t|) {
      return;
    }
    NoDelimiterGrows(s, t, delimits, content, a, b);
    NoDelimiterGrows(s, t, delimits, content, b, a);
    forall k: nat
      ensures a <= |s| ==> (NoDelimiterIn(t, k, a) <==> NoDelimiterIn(s, k, a))
      ensures k <= |s| ==> (NoDelimiterIn(t, b, k) <==> NoDelimiterIn(s, b, k))
    {
      NoDelimiterGrows(s, t, delimits, content, k, a);
      NoDelimiterGrows(s, t, delimits, content, b, k);
    }
    NothingAfterEnd(s, b);
    NothingAfterEnd(t, b);
    hide DelimitsAt, IsContent, NoDelimiterIn;
    if b <= |s| && content && IsCell(s, a, b) && !NoDelimiterIn(s, b, |s|) {
      assert !NoDelimiterIn(t, b, |s|);
    }
  }

  lemma NothingAfterEnd(s: string, b: int)
    ensures b >= |s| && b >= 0 ==> NoDelimiterIn(s, b, |s|)
    ensures forall k: nat :: IsContent(s, k) ==> k < |s|
  {
  }

  /** The reader's open cell is the only one. */
  lemma OpenCellIsHeld(s: string, base: nat, cellStart: int, cellEnd: int, a: int, b: int)
    requires HoldsTail(s, base, cellStart, cellEnd)
    ensures IsOpenCell(s, a, b) <==> cellStart >= 0 && a == cellStart - base && b == cellEnd - base
  {
    if IsOpenCell(s, a, b) {
      OpenCellSpansTail(s, a, b);
      hide InTail, IsOpenCell;
    } else if cellStart >= 0 {
      TailSpanIsOpenCell(s, cellStart - base, cellEnd - base);
      hide InTail, IsOpenCell;
    }
  }

  lemma JoinFree(s: string, i: int, j: int, k: int)
    requires 0 <= i <= j <= k
    ensures NoDelimiterIn(s, i, k) <==> NoDelimiterIn(s, i, j) && NoDelimiterIn(s, j, k)
  {
    hide DelimitsAt;
  }

  lemma OpenCellSpansTail(s: string, a: int, b: int)
    requires IsOpenCell(s, a, b)
    ensures InTail(s, a) && InTail(s, b - 1) && forall k: nat :: InTail(s, k) ==> a <= k < b
  {
    JoinFree(s, a, b, |s|);
    JoinFree(s, a, b - 1, |s|);
    forall k: nat | InTail(s, k)
      ensures a <= k < b
    {
      if k < a {
        JoinFree(s, k, a, |s|);
      }
      if k >= b {
        JoinFree(s, b, k, |s|);
      }
    }
  }

  lemma TailSpanIsOpenCell(s: string, a: int, b: int)
    requires 0 <= a < b && InTail(s, a) && InTail(s, b - 1) && forall k: nat :: InTail(s, k) ==> a <= k < b
    ensures IsOpenCell(s, a, b)
  {
    NothingAfterEnd(s, b);
    JoinFree(s, a, b, |s|);
    forall k: nat | IsContent(s, k) && k < a
      ensures !NoDelimiterIn(s, k, a)
    {
      JoinFree(s, k, a, |s|);
      assert NoDelimiterIn(s, k, a) ==> InTail(s, k);
    }
    forall k: nat | IsContent(s, k)
      ensures k < b
    {
      if k >= b {
        JoinFree(s, b - 1, k, |s|);
        assert InTail(s, k);
      }
    }
  }

  lemma NamesGrow(s: string, t: string, delimits: bool, content: bool, origin: int, e: Element)
    requires Grows(s, t, delimits, content) && !(delimits && content)
    ensures Names(t, origin, e) <==>
            Names(s, origin, e)
            || (delimits && e.TableCell? && IsOpenCell(s, e.from - origin, e.to - origin))
            || (delimits && e == TableDelimiter(origin + |s|, origin + |s| + 1))
  {
    if e.TableCell? {
      ClosedGrows(s, t, delimits, content, e.from - origin, e.to - origin);
    }
    hide IsClosedCell, IsOpenCell, IsContent;
  }

  /** Whatever is listed ends where the tail begins at the latest. */
  lemma NamedBeforeTail(s: string, origin: int, e: Element, a: int, b: int)
    requires Names(s, origin, e)
    ensures e.to <= origin + |s| && e.from < e.to
    ensures IsOpenCell(s, a, b) ==> e.to <= origin + a
  {
    hide IsContent, DelimitsAt;
    if e.TableCell? && IsOpenCell(s, a, b) {
      var to := e.to - origin;
      var x: nat :| to <= x < |s| && DelimitsAt(START, s, x);
      JoinFree(s, a, b, |s|);
      assert x < a;
    } else if IsOpenCell(s, a, b) {
      JoinFree(s, a, b, |s|);
    }
  }

  lemma MoreNames(s: string, t: string, delimits: bool, content: bool, base: nat, offset: int, st: RowState, e: Element)
    requires Grows(s, t, delimits, content) && !(delimits && content)
    requires HoldsTail(s, base, st.cellStart, st.cellEnd)
    ensures Names(t, base + offset, e) <==>
            Names(s, base + offset, e) || (delimits && e in CellElement(st, offset))
            || (delimits && e == TableDelimiter(base + offset + |s|, base + offset + |s| + 1))
  {
    hide *;
    NamesGrow(s, t, delimits, content, base + offset, e);
    CellElementIs(st, offset);
    if e.TableCell? {
      OpenCellIsHeld(s, base, st.cellStart, st.cellEnd, e.from - (base + offset), e.to - (base + offset));
    }
  }

  /** The elements listed end before the open cell, and that before the end of the line. */
  lemma ListedBeforeCell(s: string, base: nat, offset: int, st: RowState)
    requires HoldsTail(s, base, st.cellStart, st.cellEnd) && Lists(s, base + offset, st.elts)
    ensures EndBefore(st.elts, base + offset + |s|)
    ensures st.cellStart >= 0 ==>
              st.cellStart < st.cellEnd <= base + |s| && EndBefore(st.elts, offset + st.cellStart)
  {
    var a, b := st.cellStart - base, st.cellEnd - base;
    OpenCellIsHeld(s, base, st.cellStart, st.cellEnd, a, b);
    OpenCellEnds(s, a, b);
    hide HoldsTail, IsOpenCell, Names;
    forall i | 0 <= i < |st.elts|
      ensures st.elts[i].to <= base + offset + |s|
      ensures st.cellStart >= 0 ==> st.elts[i].to <= offset + st.cellStart
    {
      assert st.elts[i] in st.elts;
      NamedBeforeTail(s, base + offset, st.elts[i], a, b);
    }
  }

  lemma MoreInOrder(s: string, base: nat, offset: int, st: RowState)
    requires HoldsTail(s, base, st.cellStart, st.cellEnd) && Lists(s, base + offset, st.elts)
    ensures InOrder(st.elts + CellElement(st, offset))
    ensures EndBefore(st.elts + CellElement(st, offset), base + offset + |s|)
  {
    ListedBeforeCell(s, base, offset, st);
    CellElementIs(st, offset);
    assert st.elts + [] == st.elts;
    assert InOrder(st.elts);
    hide HoldsTail, Lists, CellElement, InOrder;
    if st.cellStart > -1 {
      InOrderAdded(st.elts, TableCell(offset + st.cellStart, offset + st.cellEnd));
    }
  }

  lemma ListsMore(s: string, t: string, delimits: bool, content: bool, base: nat, offset: int, st: RowState)
    requires Grows(s, t, delimits, content) && !(delimits && content)
    requires HoldsTail(s, base, st.cellStart, st.cellEnd) && Lists(s, base + offset, st.elts)
    ensures var more := st.elts + CellElement(st, offset) +
                        [TableDelimiter(base + |s| + offset, base + |s| + offset + 1)];
            Lists(t, base + offset, if delimits then more else st.elts)
  {
    var cell := CellElement(st, offset);
    var pipe := TableDelimiter(base + |s| + offset, base + |s| + offset + 1);
    MoreInOrder(s, base, offset, st);
    hide Grows, HoldsTail, Names, CellElement, InOrder, EndBefore;
    InOrderAdded(st.elts + cell, pipe);
    forall e
      ensures Names(t, base + offset, e) <==>
              Names(s, base + offset, e) || (delimits && e in cell) || (delimits && e == pipe)
    {
      MoreNames(s, t, delimits, content, base, offset, st, e);
    }
  }

  lemma CellElementIs(st: RowState, offset: int)
    ensures CellElement(st, offset) ==
            if st.cellStart > -1 then [TableCell(offset + st.cellStart, offset + st.cellEnd)] else []
  {
  }

  lemma OpenCellEnds(s: string, a: int, b: int)
    ensures IsOpenCell(s, a, b) ==> b <= |s|
  {
  }

  lemma NothingToName(origin: int)
    ensures Lists("", origin, [])
  {
  }

  lemma {:induction false} ReaderLists(s: string, base: nat, offset: int)
    ensures Lists(s, base + offset, ReadText(ROW_START, s, base, offset).elts)
  {
    if s == "" {
      NothingToName(base + offset);
      return;
    }
    var n := |s| - 1;
    var init, c := s[..n], s[n];
    assert s == init + [c];
    hide *;
    ReadTextLast(ROW_START, s, base, offset);
    ReaderLists(init, base, offset);
    ReadLists(init, c, base, offset, ReadText(ROW_START, init, base, offset));
  }

  lemma ReadLists(s: string, c: char, base: nat, offset: int, st: RowState)
    requires st == ReadText(ROW_START, s, base, offset) && Lists(s, base + offset, st.elts)
    ensures Lists(s + [c], base + offset, Read(st, c, base + |s|, offset).elts)
  {
    assert Read(st, c, base + |s|, offset).elts ==
           if Delimits(st.mode, c)
           then st.elts + CellElement(st, offset) +
                [TableDelimiter(base + |s| + offset, base + |s| + offset + 1)]
           else st.elts;
    ReaderKnows(s, base, offset);
    hide ReadText, Read, Run, HoldsTail, CountsColumns, Delimits, Significant, Next, Lists, CellElement;
    LineGrows(s, c);
    hide Grows;
    var delimits := Delimits(st.mode, c);
    ListsMore(s, s + [c], delimits, !delimits && Significant(st.mode, c), base, offset, st);
  }

  /** What an element of the whole row stands for. */
  ghost predicate IsElement(s: string, origin: int, e: Element) {
    match e
    case TableCell(from, to) => IsCell(s, from - origin, to - origin)
    case TableDelimiter(from, to) =>
      to == from + 1 && origin <= from < origin + |s| && DelimitsAt(START, s, from - origin)
  }

  lemma ElementIsNamed(s: string, base: nat, offset: int, st: RowState, e: Element)
    requires HoldsTail(s, base, st.cellStart, st.cellEnd)
    ensures IsElement(s, base + offset, e) <==> Names(s, base + offset, e) || e in CellElement(st, offset)
  {
    if e.TableCell? {
      OpenCellIsHeld(s, base, st.cellStart, st.cellEnd, e.from - (base + offset), e.to - (base + offset));
    }
    CellElementIs(st, offset);
    hide HoldsTail, IsCell, CellElement;
  }

  /** The elements of any row, in the order of the line: the delimiters, and the cells between delimiters or the ends of
      the line, each from its first to its last content. */
  lemma ElementsOfRow(s: string, base: nat, offset: int)
    ensures var elts := Finish(ReadText(ROW_START, s, base, offset), offset).1;
            && (forall e :: e in elts <==> IsElement(s, base + offset, e))
            && InOrder(elts)
  {
    ReaderKnows(s, base, offset);
    ReaderLists(s, base, offset);
    var st := ReadText(ROW_START, s, base, offset);
    MoreInOrder(s, base, offset, st);
    hide InOrder, EndBefore;
    hide ReadText, HoldsTail, CountsColumns, IsElement, Names, CellElement;
    forall e
      ensures IsElement(s, base + offset, e) <==> Names(s, base + offset, e) || e in CellElement(st, offset)
    {
      ElementIsNamed(s, base, offset, st, e);
    }
  }

  /** A row without outer pipes: two columns, both cells and the pipe between them. */
  lemma RowWithoutOuterPipes()
    ensures ReadRow("a|b", 0) == (2, [TableCell(0, 1), TableDelimiter(1, 2), TableCell(2, 3)])
  {
    assert "a|b"[1..] == "|b" && "|b"[1..] == "b" && "b"[1..] == "";
    var one := Read(ROW_START, 'a', 0, 0);
    assert one == RowState(0, true, 0, 1, START, []);
    var two := Read(one, '|', 1, 0);
    assert two == RowState(1, false, -1, -1, START, [TableCell(0, 1), TableDelimiter(1, 2)]);
    var three := Read(two, 'b', 2, 0);
    assert three == RowState(1, false, 2, 3, START, [TableCell(0, 1), TableDelimiter(1, 2)]);
    assert ReadText(ROW_START, "a|b", 0, 0) == ReadText(one, "|b", 1, 0);
    assert ReadText(one, "|b", 1, 0) == ReadText(two, "b", 2, 0);
    assert ReadText(two, "b", 2, 0) == ReadText(three, "", 3, 0);
    assert [TableCell(0, 1), TableDelimiter(1, 2)] + [TableCell(2, 3)] ==
           [TableCell(0, 1), TableDelimiter(1, 2), TableCell(2, 3)];
  }
}
