/** Escaping text for HTML, and reading the escaped text back. */
module HtmlEscape {
  const NBSP := "&nbsp;"

  /** Replaces every occurrence of one character. */
  function ReplaceChar(s: string, c: char, rep: string): string {
    if s == "" then "" else (if s[0] == c then rep else [s[0]]) + ReplaceChar(s[1..], c, rep)
  }

  /** One global replacement of pairs of spaces, from the left. */
  function ReplacePairs(s: string): string {
    if |s| < 2 then s
    else if s[0] == ' ' && s[1] == ' ' then NBSP + " " + ReplacePairs(s[2..])
    else [s[0]] + ReplacePairs(s[1..])
  }

  function Spaces(s: string): nat {
    if s == "" then 0 else (if s[0] == ' ' then 1 else 0) + Spaces(s[1..])
  }

  ghost predicate NoAdjacentSpaces(s: string) {
    forall i :: 0 <= i < |s| - 1 ==> !(s[i] == ' ' && s[i + 1] == ' ')
  }

  // ---------------------------------------------------------------- what the result is

  function Entity(c: char): string {
    match c
    case '&' => "&amp;"
    case '<' => "&lt;"
    case '>' => "&gt;"
    case '"' => "&quot;"
    case '\n' => "<br/>"
    case _ => [c]
  }

  function Entities(s: string): string {
    if s == "" then "" else Entity(s[0]) + Entities(s[1..])
  }

  predicate Blank(s: string, i: nat) {
    i < |s| && s[i] == ' '
  }

  /** Every run of spaces in pairs of a hard and a soft space; an odd run ends in two hard spaces and a soft one. */
  function SpaceOut(s: string): string {
    if s == "" then ""
    else if Blank(s, 0) && Blank(s, 1) && Blank(s, 2) && !Blank(s, 3) then NBSP + NBSP + " " + SpaceOut(s[3..])
    else if Blank(s, 0) && Blank(s, 1) then NBSP + " " + SpaceOut(s[2..])
    else [s[0]] + SpaceOut(s[1..])
  }

  /** Reads entities, hard spaces and line breaks back; anything else stands for itself. */
  function Decode(t: string): string {
    if t == "" then ""
    else if "&amp;" <= t then "&" + Decode(t[5..])
    else if "&lt;" <= t then "<" + Decode(t[4..])
    else if "&gt;" <= t then ">" + Decode(t[4..])
    else if "&quot;" <= t then "\"" + Decode(t[6..])
    else if NBSP <= t then " " + Decode(t[6..])
    else if "<br/>" <= t then "\n" + Decode(t[5..])
    else [t[0]] + Decode(t[1..])
  }

  // ---------------------------------------------------------------- the five replacements

  lemma Associate(a: string, b: string, c: string)
    ensures (a + b) + c == a + (b + c)
  {
  }

  lemma ReplaceCharCons(x: char, b: string, c: char, rep: string)
    ensures ReplaceChar([x] + b, c, rep) == (if x == c then rep else [x]) + ReplaceChar(b, c, rep)
  {
    assert ([x] + b)[1..] == b;
  }

  lemma {:induction false} ReplaceCharConcat(a: string, b: string, c: char, rep: string)
    ensures ReplaceChar(a + b, c, rep) == ReplaceChar(a, c, rep) + ReplaceChar(b, c, rep)
  {
    if a == "" {
      assert a + b == b;
    } else {
      hide *;
      ReplaceCharConcat(a[1..], b, c, rep);
      ReplaceCharCons(a[0], a[1..], c, rep);
      ReplaceCharCons(a[0], a[1..] + b, c, rep);
      assert a == [a[0]] + a[1..];
      Associate([a[0]], a[1..], b);
      Associate(if a[0] == c then rep else [a[0]], ReplaceChar(a[1..], c, rep), ReplaceChar(b, c, rep));
    }
  }

  lemma {:induction false} ReplaceCharAbsent(a: string, c: char, rep: string)
    requires c !in a
    ensures ReplaceChar(a, c, rep) == a
  {
    if a != "" {
      ReplaceCharAbsent(a[1..], c, rep);
    }
  }

  function FiveReplacements(s: string): string {
    ReplaceChar(
      ReplaceChar(ReplaceChar(ReplaceChar(ReplaceChar(s, '&', "&amp;"), '<', "&lt;"), '>', "&gt;"), '"', "&quot;"),
                '\n', "<br/>")
  }

  lemma FiveReplacementsConcat(a: string, b: string)
    ensures FiveReplacements(a + b) == FiveReplacements(a) + FiveReplacements(b)
  {
    hide ReplaceChar;
    ReplaceCharConcat(a, b, '&', "&amp;");
    var a1, b1 := ReplaceChar(a, '&', "&amp;"), ReplaceChar(b, '&', "&amp;");
    ReplaceCharConcat(a1, b1, '<', "&lt;");
    var a2, b2 := ReplaceChar(a1, '<', "&lt;"), ReplaceChar(b1, '<', "&lt;");
    ReplaceCharConcat(a2, b2, '>', "&gt;");
    var a3, b3 := ReplaceChar(a2, '>', "&gt;"), ReplaceChar(b2, '>', "&gt;");
    ReplaceCharConcat(a3, b3, '"', "&quot;");
    ReplaceCharConcat(ReplaceChar(a3, '"', "&quot;"), ReplaceChar(b3, '"', "&quot;"), '\n', "<br/>");
  }

  lemma ReplaceOne(c: char, x: char, rep: string)
    ensures ReplaceChar([c], x, rep) == if c == x then rep else [c]
  {
    assert [c][1..] == "";
  }

  lemma FiveReplacementsOne(c: char)
    ensures FiveReplacements([c]) == Entity(c)
  {
    hide ReplaceChar;
    ReplaceOne(c, '&', "&amp;");
    ReplaceOne(c, '<', "&lt;");
    ReplaceOne(c, '>', "&gt;");
    ReplaceOne(c, '"', "&quot;");
    ReplaceOne(c, '\n', "<br/>");
    ReplaceCharAbsent("&amp;", '<', "&lt;");
    ReplaceCharAbsent("&amp;", '>', "&gt;");
    ReplaceCharAbsent("&amp;", '"', "&quot;");
    ReplaceCharAbsent("&amp;", '\n', "<br/>");
    ReplaceCharAbsent("&lt;", '>', "&gt;");
    ReplaceCharAbsent("&lt;", '"', "&quot;");
    ReplaceCharAbsent("&lt;", '\n', "<br/>");
    ReplaceCharAbsent("&gt;", '"', "&quot;");
    ReplaceCharAbsent("&gt;", '\n', "<br/>");
    ReplaceCharAbsent("&quot;", '\n', "<br/>");
  }

  /** Ampersands go first, so no replacement touches the result of an earlier one. */
  lemma {:induction false} ReplacementsAreEntities(s: string)
    ensures FiveReplacements(s) == Entities(s)
  {
    if s != "" {
      assert s == [s[0]] + s[1..];
      FiveReplacementsConcat([s[0]], s[1..]);
      FiveReplacementsOne(s[0]);
      ReplacementsAreEntities(s[1..]);
    }
  }

  // ---------------------------------------------------------------- the loop

  lemma {:induction false} ReplacePairsKeepsStart(s: string)
    ensures |ReplacePairs(s)| >= |s|
    ensures s != "" && !(Blank(s, 0) && Blank(s, 1)) ==> ReplacePairs(s) == [s[0]] + ReplacePairs(s[1..])
    ensures Blank(s, 0) && Blank(s, 1) ==> ReplacePairs(s)[0] == '&'
  {
    if |s| == 1 {
      assert s == [s[0]] + s[1..];
    } else if |s| >= 2 {
      if Blank(s, 0) && Blank(s, 1) {
        ReplacePairsKeepsStart(s[2..]);
      } else {
        ReplacePairsKeepsStart(s[1..]);
      }
    }
  }

  lemma ReplacePairsCons(x: char, b: string)
    requires !(x == ' ' && Blank(b, 0))
    ensures ReplacePairs([x] + b) == [x] + ReplacePairs(b)
  {
    ReplacePairsKeepsStart([x] + b);
    assert ([x] + b)[1..] == b;
  }

  lemma ReplacePairsPair(b: string)
    ensures ReplacePairs("  " + b) == NBSP + " " + ReplacePairs(b)
  {
    assert ("  " + b)[2..] == b;
  }

  lemma {:induction false} ReplacePairsSkips(a: string, b: string)
    requires ' ' !in a
    ensures ReplacePairs(a + b) == a + ReplacePairs(b)
  {
    if a == "" {
      assert a + b == b;
    } else {
      hide ReplacePairs;
      assert a + b == [a[0]] + (a[1..] + b);
      ReplacePairsCons(a[0], a[1..] + b);
      ReplacePairsSkips(a[1..], b);
    }
  }

  /** Two passes reach the final form. */
  lemma {:induction false} TwoPasses(s: string)
    ensures ReplacePairs(ReplacePairs(s)) == SpaceOut(s)
    decreases |s|
  {
    if s == "" {
    } else if Blank(s, 0) && Blank(s, 1) {
      assert s == "  " + s[2..];
      ReplacePairsPair(s[2..]);
      if Blank(s, 2) && !Blank(s, 3) {
        TwoPasses(s[3..]);
        OddRun(s[2..], s[3..]);
      } else {
        TwoPasses(s[2..]);
        EvenRun(s[2..]);
      }
    } else {
      TwoPasses(s[1..]);
      hide ReplacePairs, SpaceOut;
      assert s == [s[0]] + s[1..];
      ReplacePairsCons(s[0], s[1..]);
      ReplacePairsKeepsStart(s[1..]);
      ReplacePairsCons(s[0], ReplacePairs(s[1..]));
      SpaceOutCons(s);
    }
  }

  lemma SpaceOutCons(s: string)
    requires s != "" && !(Blank(s, 0) && Blank(s, 1))
    ensures SpaceOut(s) == [s[0]] + SpaceOut(s[1..])
  {
  }

  /** The second pass over a run of three. */
  lemma OddRun(t: string, u: string)
    requires t == " " + u && !Blank(u, 0)
    ensures ReplacePairs(NBSP + " " + ReplacePairs(t)) == NBSP + NBSP + " " + ReplacePairs(ReplacePairs(u))
  {
    ReplacePairsCons(' ', u);
    assert ReplacePairs(t) == " " + ReplacePairs(u);
    hide ReplacePairs;
    assert NBSP + " " + (" " + ReplacePairs(u)) == NBSP + ("  " + ReplacePairs(u));
    ReplacePairsSkips(NBSP, "  " + ReplacePairs(u));
    ReplacePairsPair(ReplacePairs(u));
  }

  /** The second pass over a pair that is not followed by a lone space. */
  lemma EvenRun(t: string)
    requires !(Blank(t, 0) && !Blank(t, 1))
    ensures ReplacePairs(NBSP + " " + ReplacePairs(t)) == NBSP + " " + ReplacePairs(ReplacePairs(t))
  {
    NoLoneSpaceFirst(t);
    hide *;
    Associate(NBSP, " ", ReplacePairs(t));
    assert ' ' !in NBSP;
    ReplacePairsSkips(NBSP, " " + ReplacePairs(t));
    ReplacePairsCons(' ', ReplacePairs(t));
    Associate(NBSP, " ", ReplacePairs(ReplacePairs(t)));
  }

  lemma NoLoneSpaceFirst(t: string)
    requires !(Blank(t, 0) && !Blank(t, 1))
    ensures !Blank(ReplacePairs(t), 0)
  {
    ReplacePairsKeepsStart(t);
  }

  lemma {:induction false} PassRemovesSpaces(s: string)
    ensures ReplacePairs(s) != s ==> Spaces(ReplacePairs(s)) < Spaces(s)
    ensures Spaces(ReplacePairs(s)) <= Spaces(s)
    decreases |s|
  {
    if |s| >= 2 {
      if Blank(s, 0) && Blank(s, 1) {
        PassRemovesSpaces(s[2..]);
        assert NBSP + " " + ReplacePairs(s[2..]) == NBSP + (" " + ReplacePairs(s[2..]));
        SpacesConcat(NBSP, " " + ReplacePairs(s[2..]));
        SpacesConcat(" ", ReplacePairs(s[2..]));
        SpacesConcat("  ", s[2..]);
        assert s == "  " + s[2..];
        FewSpaces();
      } else {
        PassRemovesSpaces(s[1..]);
        SpacesConcat([s[0]], ReplacePairs(s[1..]));
        SpacesConcat([s[0]], s[1..]);
        assert s == [s[0]] + s[1..];
      }
    }
  }

  lemma FewSpaces()
    ensures Spaces(NBSP) == 0 && Spaces(" ") == 1 && Spaces("  ") == 2
  {
    assert "  "[1..] == " " && " "[1..] == "";
    NoSpaces(NBSP);
  }

  lemma {:induction false} NoSpaces(s: string)
    requires ' ' !in s
    ensures Spaces(s) == 0
  {
    if s != "" {
      NoSpaces(s[1..]);
    }
  }

  lemma {:induction false} SpacesConcat(a: string, b: string)
    ensures Spaces(a + b) == Spaces(a) + Spaces(b)
  {
    if a == "" {
      assert a + b == b;
    } else {
      SpacesConcat(a[1..], b);
      assert (a + b)[1..] == a[1..] + b;
    }
  }

  lemma {:induction false} FixpointHasNoPairs(s: string)
    requires ReplacePairs(s) == s
    ensures NoAdjacentSpaces(s)
  {
    if |s| >= 2 {
      ReplacePairsKeepsStart(s);
      assert ReplacePairs(s)[1..] == s[1..];
      FixpointHasNoPairs(s[1..]);
      forall i | 0 <= i < |s| - 1
        ensures !(s[i] == ' ' && s[i + 1] == ' ')
      {
        if i > 0 {
          assert s[i] == s[1..][i - 1] && s[i + 1] == s[1..][i];
        }
      }
    }
  }

  /** Escapes the text; each changing round of the loop leaves fewer spaces. */
  method HtmlEscape(text: string) returns (s: string)
    ensures s == SpaceOut(Entities(text))
    ensures NoAdjacentSpaces(s)
    ensures IsHarmless(s) && IsSpaced(s)
    ensures NoAdjacentSpaces(text) && (forall c :: c in text ==> IsPlain(c)) ==> s == text
  {
    ResultIsHarmless(text);
    ResultIsSpaced(text);
    PlainTextStays(text);
    s := ReplaceChar(text, '&', "&amp;");
    s := ReplaceChar(s, '<', "&lt;");
    s := ReplaceChar(s, '>', "&gt;");
    s := ReplaceChar(s, '"', "&quot;");
    s := ReplaceChar(s, '\n', "<br/>");
    ReplacementsAreEntities(text);
    hide ReplaceChar, Entities, ReplacePairs, SpaceOut, IsHarmless, IsPlain, IsSpaced;
    TwoPasses(s);
    var oldS := s;
    while true
      invariant ReplacePairs(ReplacePairs(s)) == SpaceOut(Entities(text))
      decreases Spaces(s)
    {
      oldS := s;
      s := ReplacePairs(s);
      if s == oldS {
        break;
      }
      PassRemovesSpaces(oldS);
      ThirdPassIdle(oldS);
    }
    FixpointHasNoPairs(s);
  }

  /** After two passes the text no longer changes. */
  lemma ThirdPassIdle(s: string)
    ensures ReplacePairs(ReplacePairs(ReplacePairs(s))) == ReplacePairs(ReplacePairs(s))
  {
    TwoPasses(s);
    SpaceOutIsFixed(s);
  }

  lemma {:induction false} SpaceOutIsFixed(s: string)
    ensures ReplacePairs(SpaceOut(s)) == SpaceOut(s)
    decreases |s|
  {
    if s == "" {
    } else if Blank(s, 0) && Blank(s, 1) && Blank(s, 2) && !Blank(s, 3) {
      SpaceOutIsFixed(s[3..]);
      SpaceOutKeepsStart(s[3..]);
      HardThenSoft(NBSP + NBSP, SpaceOut(s[3..]));
    } else if Blank(s, 0) && Blank(s, 1) {
      SpaceOutIsFixed(s[2..]);
      SpaceOutKeepsStart(s[2..]);
      HardThenSoft(NBSP, SpaceOut(s[2..]));
    } else {
      SpaceOutIsFixed(s[1..]);
      SpaceOutKeepsStart(s[1..]);
      var t := [s[0]] + SpaceOut(s[1..]);
      ReplacePairsKeepsStart(t);
      assert t[1..] == SpaceOut(s[1..]);
    }
  }

  lemma HardThenSoft(hard: string, rest: string)
    requires ' ' !in hard && !Blank(rest, 0) && ReplacePairs(rest) == rest
    ensures ReplacePairs(hard + " " + rest) == hard + " " + rest
  {
    assert hard + " " + rest == hard + (" " + rest);
    ReplacePairsSkips(hard, " " + rest);
    ReplacePairsKeepsStart(" " + rest);
    assert (" " + rest)[1..] == rest;
  }

  /** A run of two or more spaces starts with a hard space, so only a lone space starts the result with one. */
  lemma SpaceOutKeepsStart(s: string)
    ensures Blank(SpaceOut(s), 0) <==> Blank(s, 0) && !Blank(s, 1)
  {
  }
  // ---------------------------------------------------------------- nothing harmful is left

  predicate IsPlain(c: char) {
    c != '&' && c != '<' && c != '>' && c != '"' && c != '\n'
  }

  predicate StartsAt(s: string, i: int, w: string) {
    0 <= i && i + |w| <= |s| && s[i..i + |w|] == w
  }

  /** No quote and no line feed; angle brackets only in line breaks, and ampersands only in the five references. */
  ghost predicate IsHarmless(s: string) {
    forall i :: 0 <= i < |s| ==> IsHarmlessAt(s, i)
  }

  ghost predicate IsHarmlessAt(s: string, i: nat)
    requires i < |s|
  {
    && s[i] != '"' && s[i] != '\n'
    && (s[i] == '<' ==> StartsAt(s, i, "<br/>"))
    && (s[i] == '>' ==> StartsAt(s, i - 4, "<br/>"))
    && (s[i] == '&' ==>
          StartsAt(s, i, "&amp;") || StartsAt(s, i, "&lt;") || StartsAt(s, i, "&gt;") || StartsAt(s, i, "&quot;")
          || StartsAt(s, i, "&nbsp;"))
  }

  const TOKENS := ["&amp;", "&lt;", "&gt;", "&quot;", "&nbsp;", "<br/>"]

  /** The text is made of plain characters and tokens. */
  predicate Tokenized(t: string)
    decreases |t|
  {
    t == "" || (IsPlain(t[0]) && Tokenized(t[1..]))
    || exists k :: 0 <= k < |TOKENS| && TOKENS[k] <= t && Tokenized(t[|TOKENS[k]|..])
  }

  lemma TokenThen(k: nat, rest: string)
    requires k < |TOKENS| && Tokenized(rest)
    ensures Tokenized(TOKENS[k] + rest)
  {
    assert (TOKENS[k] + rest)[|TOKENS[k]|..] == rest;
  }

  lemma PlainThen(c: char, rest: string)
    requires IsPlain(c) && Tokenized(rest)
    ensures Tokenized([c] + rest)
  {
    assert ([c] + rest)[1..] == rest;
  }

  lemma TokenOf(c: char)
    ensures IsPlain(c) ==> Entity(c) == [c]
    ensures !IsPlain(c) ==> exists k :: 0 <= k < |TOKENS| && Entity(c) == TOKENS[k]
  {
    if c == '&' {
      assert Entity(c) == TOKENS[0];
    } else if c == '<' {
      assert Entity(c) == TOKENS[1];
    } else if c == '>' {
      assert Entity(c) == TOKENS[2];
    } else if c == '"' {
      assert Entity(c) == TOKENS[3];
    } else if c == '\n' {
      assert Entity(c) == TOKENS[5];
    }
  }

  lemma {:induction false} EntitiesTokenized(text: string)
    ensures Tokenized(Entities(text))
  {
    if text != "" {
      EntitiesTokenized(text[1..]);
      TokenOf(text[0]);
      hide Tokenized, Entity;
      if IsPlain(text[0]) {
        PlainThen(text[0], Entities(text[1..]));
      } else {
        var k :| 0 <= k < |TOKENS| && Entity(text[0]) == TOKENS[k];
        TokenThen(k, Entities(text[1..]));
      }
    }
  }

  lemma TokensHaveNoSpace(k: nat)
    requires k < |TOKENS|
    ensures ' ' !in TOKENS[k] && TOKENS[k] != ""
  {
  }

  lemma HardAndSoftThen(rest: string)
    requires Tokenized(rest)
    ensures Tokenized(NBSP + " " + rest) && Tokenized(NBSP + NBSP + " " + rest)
  {
    PlainThen(' ', rest);
    TokenThen(4, " " + rest);
    TokenThen(4, NBSP + (" " + rest));
    assert NBSP + " " + rest == NBSP + (" " + rest);
    assert NBSP + NBSP + " " + rest == NBSP + (NBSP + (" " + rest));
  }

  lemma BlankThenTokenized(t: string)
    requires Tokenized(t) && Blank(t, 0)
    ensures Tokenized(t[1..])
  {
    forall k | 0 <= k < |TOKENS|
      ensures !(TOKENS[k] <= t)
    {
      TokensHaveNoSpace(k);
    }
  }

  lemma {:induction false} SpaceOutTokenized(t: string)
    requires Tokenized(t)
    ensures Tokenized(SpaceOut(t))
    decreases |t|
  {
    if t == "" {
    } else if Blank(t, 0) && Blank(t, 1) {
      BlankThenTokenized(t);
      BlankThenTokenized(t[1..]);
      assert t[1..][1..] == t[2..];
      if Blank(t, 2) && !Blank(t, 3) {
        BlankThenTokenized(t[2..]);
        assert t[2..][1..] == t[3..];
        SpaceOutTokenized(t[3..]);
        HardAndSoftThen(SpaceOut(t[3..]));
      } else {
        SpaceOutTokenized(t[2..]);
        HardAndSoftThen(SpaceOut(t[2..]));
      }
    } else if IsPlain(t[0]) && Tokenized(t[1..]) {
      SpaceOutTokenized(t[1..]);
      PlainThen(t[0], SpaceOut(t[1..]));
    } else {
      var k :| 0 <= k < |TOKENS| && TOKENS[k] <= t && Tokenized(t[|TOKENS[k]|..]);
      TokensHaveNoSpace(k);
      var rest := t[|TOKENS[k]|..];
      assert t == TOKENS[k] + rest;
      hide *;
      SpaceOutTokenized(rest);
      SpaceOutSkips(TOKENS[k], rest);
      TokenThen(k, SpaceOut(rest));
    }
  }

  lemma HarmlessLater(w: string, rest: string, i: nat)
    requires IsHarmless(rest) && |w| <= i < |w + rest|
    ensures IsHarmlessAt(w + rest, i)
  {
    var j := i - |w|;
    assert IsHarmlessAt(rest, j) && (w + rest)[i] == rest[j];
    StartsNegative(rest, j - 4, "<br/>");
    hide StartsAt, IsHarmless;
    if j >= 4 {
      StartsMoves(w, rest, j - 4, "<br/>");
    }
    StartsMoves(w, rest, j, "<br/>");
    StartsMoves(w, rest, j, "&amp;");
    StartsMoves(w, rest, j, "&lt;");
    StartsMoves(w, rest, j, "&gt;");
    StartsMoves(w, rest, j, "&quot;");
    StartsMoves(w, rest, j, "&nbsp;");
  }

  lemma StartsNegative(s: string, i: int, w: string)
    ensures i < 0 ==> !StartsAt(s, i, w)
  {
  }

  lemma TokenIsHarmless(k: nat, rest: string, i: nat)
    requires k < |TOKENS| && i < |TOKENS[k]|
    ensures IsHarmlessAt(TOKENS[k] + rest, i)
  {
    var s := TOKENS[k] + rest;
    assert s[0..|TOKENS[k]|] == TOKENS[k];
    assert StartsAt(s, 0, TOKENS[k]);
    assert s[i] == TOKENS[k][i];
  }

  lemma {:induction false} TokenizedIsHarmless(t: string)
    requires Tokenized(t)
    ensures IsHarmless(t)
    decreases |t|
  {
    if t == "" {
    } else if IsPlain(t[0]) && Tokenized(t[1..]) {
      TokenizedIsHarmless(t[1..]);
      assert t == [t[0]] + t[1..];
      forall i | 0 <= i < |t|
        ensures IsHarmlessAt(t, i)
      {
        if i > 0 {
          HarmlessLater([t[0]], t[1..], i);
        }
      }
    } else {
      var k :| 0 <= k < |TOKENS| && TOKENS[k] <= t && Tokenized(t[|TOKENS[k]|..]);
      var rest := t[|TOKENS[k]|..];
      TokensHaveNoSpace(k);
      TokenizedIsHarmless(rest);
      assert t == TOKENS[k] + rest;
      hide IsHarmlessAt;
      forall i | 0 <= i < |t|
        ensures IsHarmlessAt(t, i)
      {
        if i < |TOKENS[k]| {
          TokenIsHarmless(k, rest, i);
        } else {
          HarmlessLater(TOKENS[k], rest, i);
        }
      }
    }
  }

  lemma ResultIsHarmless(text: string)
    ensures IsHarmless(SpaceOut(Entities(text)))
  {
    hide *;
    EntitiesTokenized(text);
    SpaceOutTokenized(Entities(text));
    TokenizedIsHarmless(SpaceOut(Entities(text)));
  }

  /** Text with nothing to escape and no adjacent spaces stays as it is. */
  lemma {:induction false} PlainTextStays(text: string)
    ensures NoAdjacentSpaces(text) && (forall c :: c in text ==> IsPlain(c)) ==> SpaceOut(Entities(text)) == text
  {
    if text != "" && NoAdjacentSpaces(text) && forall c :: c in text ==> IsPlain(c) {
      PlainEntitiesStay(text);
      LoneSpacesStay(text);
    }
  }

  lemma {:induction false} PlainEntitiesStay(text: string)
    requires forall c :: c in text ==> IsPlain(c)
    ensures Entities(text) == text
  {
    if text != "" {
      TokenOf(text[0]);
      PlainEntitiesStay(text[1..]);
    }
  }

  lemma {:induction false} LoneSpacesStay(s: string)
    requires NoAdjacentSpaces(s)
    ensures SpaceOut(s) == s
  {
    if s != "" {
      LoneSpacesStay(s[1..]);
    }
  }

  // ---------------------------------------------------------------- reading back

  /** The result of escaping, read as one token for each character. */
  lemma DecodeToken(c: char, rest: string)
    requires c != ' '
    ensures Decode(Entity(c) + rest) == [c] + Decode(rest)
  {
    var t := Entity(c) + rest;
    assert t[|Entity(c)|..] == rest;
    assert t[0] == Entity(c)[0];
    if c == '&' {
      assert "&amp;" <= t;
    } else if c == '<' {
      assert t[1] == 'l' && "&lt;" <= t;
    } else if c == '>' {
      assert t[1] == 'g' && "&gt;" <= t;
    } else if c == '"' {
      assert t[1] == 'q' && "&quot;" <= t;
    } else if c == '\n' {
      assert "<br/>" <= t;
    }
  }

  lemma DecodeHard(rest: string)
    ensures Decode(NBSP + rest) == " " + Decode(rest)
  {
    var t := NBSP + rest;
    assert t[6..] == rest && t[1] == 'n' && NBSP <= t;
  }

  lemma DecodeSoft(rest: string)
    ensures Decode(" " + rest) == " " + Decode(rest)
  {
    assert (" " + rest)[1..] == rest && (" " + rest)[0] == ' ';
  }

  lemma {:induction false} SpaceOutSkips(a: string, b: string)
    requires ' ' !in a
    ensures SpaceOut(a + b) == a + SpaceOut(b)
  {
    if a == "" {
      assert a + b == b;
    } else {
      assert (a + b)[1..] == a[1..] + b && a == [a[0]] + a[1..];
      SpaceOutCons(a + b);
      hide *;
      SpaceOutSkips(a[1..], b);
      Associate([a[0]], a[1..], SpaceOut(b));
    }
  }

  lemma {:induction false} EntitiesStart(s: string)
    ensures Blank(Entities(s), 0) <==> Blank(s, 0)
    ensures s != "" ==> Entities(s) == Entity(s[0]) + Entities(s[1..])
    ensures Blank(s, 0) ==> Entities(s) == " " + Entities(s[1..])
  {
  }

  /** Decoding gives back the original text. */
  lemma {:induction false} DecodeEscaped(text: string)
    ensures Decode(SpaceOut(Entities(text))) == text
    decreases |text|
  {
    EntitiesStart(text);
    if text == "" {
    } else if !Blank(text, 0) {
      var rest := Entities(text[1..]);
      SpaceNotInEntity(text[0]);
      hide *;
      SpaceOutSkips(Entity(text[0]), rest);
      DecodeToken(text[0], SpaceOut(rest));
      DecodeEscaped(text[1..]);
      assert text == [text[0]] + text[1..];
    } else {
      DecodeRun(text);
    }
  }

  lemma DecodeRun(text: string)
    requires Blank(text, 0)
    ensures Decode(SpaceOut(Entities(text))) == text
    decreases |text|, 0
  {
    var e := Entities(text);
    EntitiesStart(text);
    EntitiesStart(text[1..]);
    assert text == " " + text[1..];
    if !Blank(text, 1) {
      DecodeEscaped(text[1..]);
      SpaceOutCons(e);
      assert e[1..] == Entities(text[1..]);
      DecodeSoft(SpaceOut(Entities(text[1..])));
    } else {
      EntitiesStart(text[2..]);
      assert text[1..] == " " + text[2..] && text[1..][1..] == text[2..];
      if Blank(text, 2) && !Blank(text[3..], 0) {
        EntitiesStart(text[3..]);
        assert text[2..] == " " + text[3..] && text[2..][1..] == text[3..];
        DecodeEscaped(text[3..]);
        OddRunOut(Entities(text[3..]));
        DecodeSoft(SpaceOut(Entities(text[3..])));
        DecodeHard(" " + SpaceOut(Entities(text[3..])));
        DecodeHard(NBSP + (" " + SpaceOut(Entities(text[3..]))));
      } else {
        DecodeEscaped(text[2..]);
        EvenRunOut(Entities(text[2..]));
        DecodeSoft(SpaceOut(Entities(text[2..])));
        DecodeHard(" " + SpaceOut(Entities(text[2..])));
      }
    }
  }

  lemma OddRunOut(rest: string)
    requires !Blank(rest, 0)
    ensures SpaceOut(" " + (" " + (" " + rest))) == NBSP + (NBSP + (" " + SpaceOut(rest)))
  {
    var s := " " + (" " + (" " + rest));
    assert s[3..] == rest;
  }

  lemma {:induction false} EvenRunOut(rest: string)
    requires !(Blank(rest, 0) && !Blank(rest, 1))
    ensures SpaceOut(" " + (" " + rest)) == NBSP + (" " + SpaceOut(rest))
  {
    var s := " " + (" " + rest);
    assert s[2..] == rest;
  }

  /** Different texts escape to different results. */
  lemma {:induction false} EscapingIsInjective(a: string, b: string)
    requires SpaceOut(Entities(a)) == SpaceOut(Entities(b))
    ensures a == b
  {
    DecodeEscaped(a);
    DecodeEscaped(b);
  }

  // ---------------------------------------------------------------- where the hard spaces are

  predicate Hard(s: string, i: int) {
    StartsAt(s, i, NBSP)
  }

  predicate Soft(s: string, i: int) {
    StartsAt(s, i, " ")
  }

  /** A hard space is followed by a soft one, or by another hard one and then the last soft one of the run; and only a
      soft space that a hard one precedes is followed by a hard one. */
  ghost predicate IsSpaced(s: string) {
    forall i :: 0 <= i < |s| ==> IsSpacedAt(s, i)
  }

  ghost predicate IsSpacedAt(s: string, i: nat) {
    && (Hard(s, i) ==>
          || Soft(s, i + 6)
          || (Hard(s, i + 6) && Soft(s, i + 12) && !Soft(s, i + 13) && !Hard(s, i + 13)))
    && (Soft(s, i) && Hard(s, i + 1) ==> Hard(s, i - 6))
  }

  lemma StartsMoves(w: string, rest: string, j: nat, x: string)
    ensures StartsAt(w + rest, |w| + j, x) <==> StartsAt(rest, j, x)
  {
    if |w| + j + |x| <= |w + rest| {
      assert (w + rest)[|w| + j..|w| + j + |x|] == rest[j..j + |x|];
    }
  }

  lemma SpacedMoves(w: string, rest: string, j: nat)
    requires IsSpacedAt(rest, j) && j < |rest|
    ensures IsSpacedAt(w + rest, |w| + j)
  {
    HardIsInside(rest, j - 6);
    hide StartsAt;
    StartsMoves(w, rest, j, NBSP);
    StartsMoves(w, rest, j + 6, NBSP);
    StartsMoves(w, rest, j + 13, NBSP);
    StartsMoves(w, rest, j + 1, NBSP);
    StartsMoves(w, rest, j, " ");
    StartsMoves(w, rest, j + 6, " ");
    StartsMoves(w, rest, j + 12, " ");
    StartsMoves(w, rest, j + 13, " ");
    if j >= 6 {
      StartsMoves(w, rest, j - 6, NBSP);
    }
  }

  lemma HardIsInside(s: string, i: int)
    ensures Hard(s, i) ==> i >= 0
  {
  }

  /** What comes before a spaced text without spaces of its own, or a whole run of spaces. */
  lemma SpacedAfter(w: string, rest: string)
    requires IsSpaced(rest) && forall i :: 0 <= i < |w| ==> IsSpacedAt(w + rest, i)
    ensures IsSpaced(w + rest)
  {
    hide IsSpacedAt;
    forall i | 0 <= i < |w + rest|
      ensures IsSpacedAt(w + rest, i)
    {
      if i >= |w| {
        SpacedMoves(w, rest, i - |w|);
      }
    }
  }

  lemma FirstChar(s: string, i: int, w: string)
    requires w != "" && StartsAt(s, i, w)
    ensures 0 <= i < |s| && s[i] == w[0] && (|w| > 1 ==> i + 1 < |s| && s[i + 1] == w[1])
  {
    assert s[i] == s[i..i + |w|][0];
    if |w| > 1 {
      assert s[i + 1] == s[i..i + |w|][1];
    }
  }

  lemma EntityChars(c: char, i: nat)
    requires c != ' ' && i < |Entity(c)|
    ensures Entity(c)[i] != ' ' && (Entity(c)[i] == '&' ==> i == 0 && |Entity(c)| > 1 && Entity(c)[1] != 'n')
  {
  }

  lemma NoSpaceInEntity(c: char, rest: string, i: nat)
    requires c != ' ' && i < |Entity(c)|
    ensures !Hard(Entity(c) + rest, i) && !Soft(Entity(c) + rest, i)
  {
    var s := Entity(c) + rest;
    EntityChars(c, i);
    assert s[i] == Entity(c)[i];
    assert |Entity(c)| > 1 ==> s[1] == Entity(c)[1];
    hide Entity, StartsAt;
    if Hard(s, i) {
      FirstChar(s, i, NBSP);
    }
    if Soft(s, i) {
      FirstChar(s, i, " ");
    }
  }

  /** How a text that starts with no space goes on after escaping. */
  lemma NoRunStarts(text: string)
    requires !Blank(text, 0)
    ensures !Hard(SpaceOut(Entities(text)), 0) && !Soft(SpaceOut(Entities(text)), 0)
  {
    if text != "" {
      var c, rest := text[0], Entities(text[1..]);
      EntitiesStart(text);
      SpaceNotInEntity(c);
      hide *;
      SpaceOutSkips(Entity(c), rest);
      NoSpaceInEntity(c, SpaceOut(rest), 0);
    }
  }

  lemma SoftRun(rest: string)
    requires IsSpaced(rest) && !Hard(rest, 0)
    ensures IsSpaced(" " + rest)
  {
    StartsMoves(" ", rest, 0, NBSP);
    assert (" " + rest)[0] == ' ';
    assert !Hard(" " + rest, 0);
    SpacedAfter(" ", rest);
  }

  lemma HardOrSoftAt(s: string, i: nat)
    requires i < |s|
    ensures Hard(s, i) ==> s[i] == '&'
    ensures Soft(s, i) <==> s[i] == ' '
  {
    if Hard(s, i) {
      FirstChar(s, i, NBSP);
    }
    assert s[i..i + 1] == [s[i]];
  }

  lemma EvenHardRun(rest: string)
    requires IsSpaced(rest)
    ensures IsSpaced(NBSP + (" " + rest))
  {
    var run := NBSP + " ";
    var s := run + rest;
    assert s == NBSP + (" " + rest);
    assert s[0..6] == NBSP && Hard(s, 0);
    forall i | 0 <= i < 7
      ensures IsSpacedAt(s, i)
    {
      assert s[i] == run[i] && s[6] == ' ';
      HardOrSoftAt(s, i);
      HardOrSoftAt(s, 6);
      hide StartsAt, Hard, Soft;
    }
    SpacedAfter(run, rest);
  }

  lemma OddHardRun(rest: string)
    requires IsSpaced(rest) && !Hard(rest, 0) && !Soft(rest, 0)
    ensures IsSpaced(NBSP + (NBSP + (" " + rest)))
  {
    var run := NBSP + NBSP + " ";
    var s := run + rest;
    assert s == NBSP + (NBSP + (" " + rest));
    assert s[6..12] == NBSP && Hard(s, 6);
    StartsMoves(run, rest, 0, NBSP);
    StartsMoves(run, rest, 0, " ");
    assert !Hard(s, 13) && !Soft(s, 13);
    forall i | 0 <= i < 13
      ensures IsSpacedAt(s, i)
    {
      assert s[i] == run[i] && s[12] == ' ';
      HardOrSoftAt(s, i);
      HardOrSoftAt(s, 12);
      hide StartsAt, Hard, Soft;
    }
    SpacedAfter(run, rest);
  }

  lemma {:induction false} ResultIsSpaced(text: string)
    ensures IsSpaced(SpaceOut(Entities(text)))
    decreases |text|
  {
    EntitiesStart(text);
    if text == "" {
    } else if !Blank(text, 0) {
      var c, rest := text[0], Entities(text[1..]);
      ResultIsSpaced(text[1..]);
      SpaceNotInEntity(c);
      hide *;
      SpaceOutSkips(Entity(c), rest);
      EntityIsSpaced(c, SpaceOut(rest));
    } else {
      RunIsSpaced(text);
    }
  }

  lemma EntityIsSpaced(c: char, rest: string)
    requires c != ' ' && IsSpaced(rest)
    ensures IsSpaced(Entity(c) + rest)
  {
    forall i | 0 <= i < |Entity(c)|
      ensures IsSpacedAt(Entity(c) + rest, i)
    {
      NoSpaceInEntity(c, rest, i);
      hide Hard, Soft;
    }
    SpacedAfter(Entity(c), rest);
  }

  lemma SpaceNotInEntity(c: char)
    requires c != ' '
    ensures ' ' !in Entity(c)
  {
  }

  lemma RunIsSpaced(text: string)
    requires Blank(text, 0)
    ensures IsSpaced(SpaceOut(Entities(text)))
    decreases |text|, 0
  {
    EntitiesStart(text);
    EntitiesStart(text[1..]);
    var e := Entities(text);
    assert e[1..] == Entities(text[1..]) && e[0] == ' ';
    if !Blank(text, 1) {
      assert !Blank(text[1..], 0) && !(Blank(e, 0) && Blank(e, 1));
      hide *;
      ResultIsSpaced(text[1..]);
      NoRunStarts(text[1..]);
      SpaceOutCons(e);
      SoftRun(SpaceOut(e[1..]));
      return;
    }
    assert text[1..][1..] == text[2..];
    var even := Entities(text[2..]);
    assert e == " " + (" " + even);
    EntitiesStart(text[2..]);
    if Blank(text, 2) && !Blank(text[3..], 0) {
      assert text[2..][1..] == text[3..];
      var odd := Entities(text[3..]);
      EntitiesStart(text[3..]);
      assert even == " " + odd && !Blank(odd, 0);
      hide *;
      ResultIsSpaced(text[3..]);
      NoRunStarts(text[3..]);
      OddRunOut(odd);
      OddHardRun(SpaceOut(odd));
      return;
    }
    assert !(Blank(even, 0) && !Blank(even, 1)) by {
      if Blank(text, 2) {
        assert text[2..][1..] == text[3..];
        EntitiesStart(text[3..]);
        assert even[1..] == Entities(text[3..]);
      }
    }
    hide *;
    ResultIsSpaced(text[2..]);
    EvenRunOut(even);
    EvenHardRun(SpaceOut(even));
  }
}
