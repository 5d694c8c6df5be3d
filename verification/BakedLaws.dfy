/** What sections, expressions and baked bodies are, said from the text alone. */
module BakedLaws {
  import opened Options
  import opened Text
  import opened BakedSections

  // ---------------------------------------------------------------- trimming

  ghost predicate AllSpace(s: string) {
    forall i :: 0 <= i < |s| ==> IsSpace(s[i])
  }

  ghost predicate NoSpaceAtEnds(s: string) {
    s != "" ==> !IsSpace(s[0]) && !IsSpace(s[|s| - 1])
  }

  /** x is what is left of s when only white space is taken off both ends, and no more can be taken. */
  ghost predicate IsTrimmedOf(x: string, s: string) {
    NoSpaceAtEnds(x) && exists i: nat, j: nat :: IsTrimmedAt(x, s, i, j)
  }

  ghost predicate IsTrimmedAt(x: string, s: string, i: nat, j: nat) {
    i <= j <= |s| && x == s[i..j] && AllSpace(s[..i]) && AllSpace(s[j..])
  }

  lemma TrimTrims(s: string)
    ensures IsTrimmedOf(Trim(s), s)
  {
    var i, j := SkipSpaces(s, 0), DropSpaces(s, |s|);
    hide SkipSpaces, DropSpaces, IsSpace;
    if i <= j {
      assert IsTrimmedAt(s[i..j], s, i, j);
    } else {
      assert IsTrimmedAt("", s, i, i);
    }
  }

  /** Only one text is left. */
  lemma TrimmedIsUnique(x: string, y: string, s: string)
    requires IsTrimmedOf(x, s) && IsTrimmedOf(y, s)
    ensures x == y
  {
    var i: nat, j: nat :| IsTrimmedAt(x, s, i, j);
    var k: nat, l: nat :| IsTrimmedAt(y, s, k, l);
    hide IsSpace;
    if x != "" && y != "" {
      TrimmedStart(x, s, i, j, k);
      TrimmedStart(y, s, k, l, i);
      TrimmedEnd(x, s, i, j, l);
      TrimmedEnd(y, s, k, l, j);
    } else if x != "" {
      TrimmedStart(x, s, i, j, k);
      TrimmedEnd(x, s, i, j, l);
    } else if y != "" {
      TrimmedStart(y, s, k, l, i);
      TrimmedEnd(y, s, k, l, j);
    }
  }

  lemma TrimmedStart(x: string, s: string, i: nat, j: nat, k: nat)
    requires NoSpaceAtEnds(x) && IsTrimmedAt(x, s, i, j) && x != "" && k <= |s| && AllSpace(s[..k])
    ensures k <= i
  {
    hide IsSpace;
    assert x[0] == s[i] && !IsSpace(s[i]);
    assert forall n :: 0 <= n < k ==> s[..k][n] == s[n];
  }

  lemma TrimmedEnd(x: string, s: string, i: nat, j: nat, l: nat)
    requires NoSpaceAtEnds(x) && IsTrimmedAt(x, s, i, j) && x != "" && l <= |s| && AllSpace(s[l..])
    ensures j <= l
  {
    hide IsSpace;
    assert x[|x| - 1] == s[j - 1] && !IsSpace(s[j - 1]);
    assert forall n :: l <= n < |s| ==> s[l..][n - l] == s[n];
  }

  /** Leading space more or less does not matter. */
  lemma TrimmedAfterSpace(x: string, lead: string, s: string)
    requires IsTrimmedOf(x, s) && AllSpace(lead)
    ensures IsTrimmedOf(x, lead + s)
  {
    var i: nat, j: nat :| IsTrimmedAt(x, s, i, j);
    var w, n := lead + s, |lead|;
    assert w[n + i..n + j] == s[i..j];
    assert w[..n + i] == lead + s[..i] && w[n + j..] == s[j..];
    hide IsSpace;
    assert IsTrimmedAt(x, w, n + i, n + j);
  }

  // ---------------------------------------------------------------- escaping

  function JoinWith(pieces: seq<string>, sep: string): string
    requires pieces != []
  {
    if |pieces| == 1 then pieces[0] else pieces[0] + sep + JoinWith(pieces[1..], sep)
  }

  /** The texts agree but for the markers: where one has a close marker the other has an escaped one. */
  ghost predicate IsEscapedOf(e: string, markdown: string) {
    && !Occurs(e, CLOSE_MARKER)
    && exists pieces: seq<string> :: pieces != [] &&
         markdown == JoinWith(pieces, CLOSE_MARKER) && e == JoinWith(pieces, ESCAPED_MARKER)
  }

  lemma {:induction false} EscapingReplacesMarkers(markdown: string) returns (pieces: seq<string>)
    ensures pieces != [] && markdown == JoinWith(pieces, CLOSE_MARKER)
    ensures EscapeBakedBody(markdown) == JoinWith(pieces, ESCAPED_MARKER)
    decreases |markdown|
  {
    var i := IndexOf(markdown, CLOSE_MARKER, 0);
    if i == -1 {
      pieces := [markdown];
    } else {
      var rest := markdown[i + |CLOSE_MARKER|..];
      assert EscapeBakedBody(markdown) == markdown[..i] + ESCAPED_MARKER + EscapeBakedBody(rest);
      assert markdown[i..i + |CLOSE_MARKER|] == CLOSE_MARKER;
      hide EscapeBakedBody, IndexOf;
      var later := EscapingReplacesMarkers(rest);
      pieces := [markdown[..i]] + later;
      assert pieces[1..] == later;
      assert markdown == markdown[..i] + CLOSE_MARKER + rest;
    }
  }

  lemma EscapeEscapes(markdown: string)
    ensures IsEscapedOf(EscapeBakedBody(markdown), markdown)
    ensures !Occurs(markdown, CLOSE_MARKER) ==> EscapeBakedBody(markdown) == markdown
  {
    EscapingRemovesMarker(markdown);
    var pieces := EscapingReplacesMarkers(markdown);
    hide JoinWith;
  }

  // ---------------------------------------------------------------- a baked body

  /** The rendered markdown, its close markers escaped and white space taken off its ends, between two line feeds. */
  ghost predicate IsNewBody(body: string, markdown: string) {
    exists e, x :: IsBodyOf(body, e, x) && IsEscapedOf(e, markdown)
  }

  ghost predicate IsBodyOf(body: string, e: string, x: string) {
    body == "\n" + x + "\n" && IsTrimmedOf(x, e)
  }

  lemma WrappedIsNewBody(markdown: string)
    ensures IsNewBody(Wrapped(markdown), markdown)
  {
    var e := EscapeBakedBody(markdown);
    TrimTrims(e);
    EscapeEscapes(markdown);
    hide IsTrimmedOf, IsEscapedOf;
    assert IsBodyOf(Wrapped(markdown), e, Trim(e));
  }

  /** The sections of a baked page: the new body where the expression renders, and the old one where it does not. */
  lemma BakedBodies(t: string, eval: Evaluator, k: nat)
    requires k < |Parse(t).parts|
    ensures var before, after := Parse(t).parts, Parse(Bake(t, eval)).parts;
            && |after| == |before| && after[k] == before[k].(body := after[k].body)
            && match eval(before[k].expr)
               case Rendered(markdown) => IsNewBody(after[k].body, markdown)
               case Failed(_) => after[k].body == before[k].body
  {
    ReparseRebaked(t, eval);
    hide Parse, Print, Wrapped, IsNewBody;
    match eval(Parse(t).parts[k].expr)
    case Rendered(markdown) => WrappedIsNewBody(markdown);
    case Failed(_) =>
  }

  // ---------------------------------------------------------------- opening markers

  /** The marker at p, then white space up to i, and `-->` at q. */
  ghost predicate MatchesTo(t: string, p: nat, i: nat, q: nat) {
    && p + |OPEN_MARKER| < i <= q <= |t| && OccursAt(t, OPEN_MARKER, p) && OccursAt(t, OPEN_END, q)
    && forall k :: p + |OPEN_MARKER| <= k < i ==> IsSpace(t[k])
  }

  /** An opening marker is where the expression matches in any way at all, and the match found ends at the first `-->`
      that any match ends at. */
  lemma OpensExactlyWhen(t: string, p: nat)
    ensures OpensAt(t, p) <==> exists i, q :: MatchesTo(t, p, i, q)
    ensures OpensAt(t, p) ==>
              var o := OpeningAt(t, p);
              MatchesTo(t, p, o.exprFrom, o.exprTo) && forall i, q :: MatchesTo(t, p, i, q) ==> o.exprTo <= q
  {
    var n := p + |OPEN_MARKER|;
    forall i, q | MatchesTo(t, p, i, q)
      ensures OpensAt(t, p) && OpeningAt(t, p).exprTo <= q
    {
      assert IsSpace(t[n]);
      SpacesAtLeast(t, n, i);
      BacktrackingNeverHelps(t, n, i);
      hide IsSpace, SkipSpaces;
    }
    if OpensAt(t, p) {
      var o := OpeningAt(t, p);
      SpacesAtLeast(t, n, n + 1);
      assert MatchesTo(t, p, o.exprFrom, o.exprTo);
    }
  }

  lemma {:induction false} SpacesAtLeast(t: string, n: nat, i: nat)
    requires n <= i <= |t| && forall k :: n <= k < i ==> IsSpace(t[k])
    ensures i <= SkipSpaces(t, n)
  {
    var e := SkipSpaces(t, n);
    hide IsSpace, SkipSpaces;
    assert e < |t| ==> !IsSpace(t[e]);
  }

  // ---------------------------------------------------------------- the parts of a page

  /** The marker, the text between it and the first `-->` after its spaces, and what is left of that text when
      trimmed. */
  ghost predicate IsOpenerOf(opener: string, expr: string) {
    exists x :: IsOpenerWith(opener, expr, x)
  }

  ghost predicate IsOpenerWith(opener: string, expr: string, x: string) {
    && opener == OPEN_MARKER + x + OPEN_END && x != "" && IsSpace(x[0]) && IsTrimmedOf(expr, x)
    && forall q :: 0 <= q < |x| ==> !OccursAt(x + OPEN_END, OPEN_END, q)
  }

  lemma OpeningFacts(t: string, m: Opening)
    requires FirstOpening(t, 0) == Some(m)
    ensures var n := m.start + |OPEN_MARKER|;
            && n < m.exprFrom <= m.exprTo && m.BodyFrom() <= |t|
            && t[m.start..n] == OPEN_MARKER && t[m.exprTo..m.BodyFrom()] == OPEN_END
            && IsSpace(t[n]) && AllSpace(t[n..m.exprFrom])
            && forall k :: m.exprFrom <= k < m.exprTo ==> !OccursAt(t, OPEN_END, k)
  {
    hide *;
    EndFollows(t, m);
    OpensFirst(t, m);
    OpeningPieces(t, m.start);
  }

  lemma OpensFirst(t: string, m: Opening)
    requires FirstOpening(t, 0) == Some(m)
    ensures OpensAt(t, m.start) && m == OpeningAt(t, m.start)
  {
    assert IsLeftmost(t, 0, Some(m));
    hide OpensAt, OpeningAt, FirstOpening;
  }

  lemma OpeningPieces(t: string, p: nat)
    requires OpensAt(t, p)
    ensures var n, m := p + |OPEN_MARKER|, OpeningAt(t, p);
            && n <= m.exprFrom <= |t| && t[p..n] == OPEN_MARKER
            && OccursAt(t, OPEN_END, m.exprTo) && t[m.exprTo..m.BodyFrom()] == OPEN_END
            && IsSpace(t[n]) && AllSpace(t[n..m.exprFrom])
            && forall k :: m.exprFrom <= k < m.exprTo ==> !OccursAt(t, OPEN_END, k)
  {
    hide SkipSpaces, IsSpace, IndexOf;
    SpaceUpTo(t, p + |OPEN_MARKER|);
  }

  lemma NoEndInside(t: string, n: nat, f: nat, q: nat, b: nat)
    requires n <= f <= q <= b <= |t| && t[q..b] == OPEN_END && AllSpace(t[n..f])
    requires forall k :: f <= k < q ==> !OccursAt(t, OPEN_END, k)
    ensures forall k :: 0 <= k < q - n ==> !OccursAt(t[n..q] + OPEN_END, OPEN_END, k)
  {
    assert t[n..q] + OPEN_END == t[n..b];
    hide IsSpace;
    forall k | 0 <= k < q - n
      ensures !OccursAt(t[n..b], OPEN_END, k)
    {
      SliceOccurrence(t, n, b, OPEN_END, k);
      if n + k < f {
        assert t[n..f][k] == t[n + k];
        SpaceStartsNoEnd(t, n + k);
      }
    }
  }

  lemma OpenerFromPieces(t: string, a: nat, n: nat, f: nat, q: nat, b: nat)
    requires a <= n < f <= q <= b <= |t| && t[a..n] == OPEN_MARKER && t[q..b] == OPEN_END
    requires IsSpace(t[n]) && AllSpace(t[n..f]) && forall k :: f <= k < q ==> !OccursAt(t, OPEN_END, k)
    ensures IsOpenerOf(t[a..b], Trim(t[f..q]))
  {
    hide *;
    var x := t[n..q];
    Rejoin(t, a, n, q, b);
    NoEndInside(t, n, f, q, b);
    TrimTrims(t[f..q]);
    TrimmedAfterSpace(Trim(t[f..q]), t[n..f], t[f..q]);
    assert t[n..f] + t[f..q] == x && x[0] == t[n];
    OpenerIs(t[a..b], Trim(t[f..q]), x);
  }

  lemma OpenerIs(opener: string, expr: string, x: string)
    requires opener == OPEN_MARKER + x + OPEN_END && x != "" && IsSpace(x[0]) && IsTrimmedOf(expr, x)
    requires forall q :: 0 <= q < |x| ==> !OccursAt(x + OPEN_END, OPEN_END, q)
    ensures IsOpenerOf(opener, expr)
  {
    hide IsTrimmedOf, IsSpace, OccursAt;
    assert IsOpenerWith(opener, expr, x);
  }

  lemma PartIsOpener(t: string, m: Opening, close: nat)
    requires FirstOpening(t, 0) == Some(m) && m.start <= m.exprFrom <= m.exprTo && m.BodyFrom() <= close <= |t|
    ensures var part := PartAt(t, m, close); IsOpenerOf(part.opener, part.expr)
  {
    var b := m.BodyFrom();
    assert m.exprTo <= b;
    PartPieces(t, m, close);
    hide *;
    OpeningFacts(t, m);
    OpenerFromPieces(t, m.start, m.start + |OPEN_MARKER|, m.exprFrom, m.exprTo, b);
  }

  lemma PartPieces(t: string, m: Opening, close: nat)
    requires m.start <= m.exprFrom <= m.exprTo && m.BodyFrom() <= close <= |t|
    ensures PartAt(t, m, close).opener == t[m.start..m.BodyFrom()]
    ensures PartAt(t, m, close).expr == Trim(t[m.exprFrom..m.exprTo])
    ensures PartAt(t, m, close).gap == t[..m.start] && PartAt(t, m, close).body == t[m.BodyFrom()..close]
  {
    hide Trim;
  }

  lemma Rejoin(t: string, i: nat, j: nat, k: nat, l: nat)
    requires i <= j <= k <= l <= |t|
    ensures t[i..l] == t[i..j] + t[j..k] + t[k..l]
  {
  }

  lemma SpaceUpTo(t: string, n: nat)
    requires n <= |t|
    ensures AllSpace(t[n..SkipSpaces(t, n)])
  {
    var e := SkipSpaces(t, n);
    hide SkipSpaces, IsSpace;
    assert forall i :: 0 <= i < e - n ==> t[n..e][i] == t[n + i];
  }

  /** From a part on, nothing opens before its own marker, its body holds no close marker, and its marker is an
      opener. */
  ghost predicate IsFirstOf(t: string, part: Part) {
    && IsOpenerOf(part.opener, part.expr)
    && (forall p :: 0 <= p < |part.gap| ==> !OpensAt(t, p))
    && EndsCleanly(part.body)
  }

  /** Nothing in the text opens a section that is closed. */
  ghost predicate HoldsNoSection(t: string) {
    forall p, q :: OpensAt(t, p) && OccursAt(t, CLOSE_MARKER, q) ==> q < OpeningAt(t, p).BodyFrom()
  }

  lemma LaterOpensEndLater(t: string, p: nat, r: nat)
    requires p <= r && OpensAt(t, p) && OpensAt(t, r)
    ensures OpeningAt(t, p).exprTo <= OpeningAt(t, r).exprTo
  {
    OpensExactlyWhen(t, p);
    OpensExactlyWhen(t, r);
    var o, q := OpeningAt(t, p), OpeningAt(t, r);
    assert MatchesTo(t, r, q.exprFrom, q.exprTo);
    var i := p + |OPEN_MARKER| + 1;
    assert OccursAt(t, OPEN_MARKER, p);
    assert MatchesTo(t, p, i, q.exprTo);
  }

  lemma UnclosedHoldsNoSection(t: string)
    requires match FirstOpening(t, 0)
             case None => true
             case Some(m) => IndexOf(t, CLOSE_MARKER, m.BodyFrom()) == -1
    ensures HoldsNoSection(t)
  {
    var m := FirstOpening(t, 0);
    assert IsLeftmost(t, 0, m);
    forall p, q | OpensAt(t, p) && OccursAt(t, CLOSE_MARKER, q)
      ensures q < OpeningAt(t, p).BodyFrom()
    {
      OpensInside(t, p);
      hide OpensAt, OpeningAt, IndexOf, FirstOpening;
      assert m.Some? && m.value.start <= p;
      LaterOpensEndLater(t, m.value.start, p);
    }
  }

  lemma OpensInside(t: string, p: nat)
    ensures OpensAt(t, p) ==> p < |t|
  {
  }

  lemma ParsedCons(t: string, m: Opening, close: nat)
    requires FirstOpening(t, 0) == Some(m) && IndexOf(t, CLOSE_MARKER, m.BodyFrom()) == close
    ensures m.start <= m.exprFrom <= m.exprTo && m.BodyFrom() <= close && close + |CLOSE_MARKER| <= |t|
    ensures var rest := Parse(t[close + |CLOSE_MARKER|..]);
            Parse(t).parts == [PartAt(t, m, close)] + rest.parts && Parse(t).tail == rest.tail
  {
    ParseFound(t, m, close);
    hide Parse, PartAt, FirstOpening, IndexOf;
  }

  lemma PrintedWhole(t: string)
    ensures Parse(t).parts[0..] == Parse(t).parts
    ensures Print(Page(Parse(t).parts[0..], Parse(t).tail)) == t
  {
    PrintParse(t);
    hide Parse, Print;
    assert Page(Parse(t).parts[0..], Parse(t).tail) == Parse(t);
  }

  /** Every part of a page is a section as described, and nothing after the last one is. */
  lemma {:induction false} PartsAreSections(t: string, k: nat)
    ensures HoldsNoSection(Parse(t).tail)
    ensures k < |Parse(t).parts| ==>
              IsFirstOf(Print(Page(Parse(t).parts[k..], Parse(t).tail)), Parse(t).parts[k])
    decreases |t|
  {
    hide *;
    var m := FirstOpening(t, 0);
    if m.None? || IndexOf(t, CLOSE_MARKER, m.value.BodyFrom()) == -1 {
      ParseNothing(t);
      UnclosedHoldsNoSection(t);
      return;
    }
    IndexIsNatural(t, m.value.BodyFrom());
    var close: nat := IndexOf(t, CLOSE_MARKER, m.value.BodyFrom());
    var rest := t[close + |CLOSE_MARKER|..];
    ParsedCons(t, m.value, close);
    PartsAreSections(rest, if k > 0 then k - 1 else 0);
    if k == 0 {
      PrintedWhole(t);
      FirstPartIsSection(t, m.value, close);
    } else if k < |Parse(t).parts| {
      assert Parse(t).parts[k..] == Parse(rest).parts[k - 1..];
    }
  }

  lemma IndexIsNatural(t: string, from: nat)
    ensures IndexOf(t, CLOSE_MARKER, from) != -1 ==>
              from <= IndexOf(t, CLOSE_MARKER, from)
              && OccursAt(t, CLOSE_MARKER, IndexOf(t, CLOSE_MARKER, from))
  {
  }

  lemma NothingOpensBefore(t: string, m: Opening)
    requires FirstOpening(t, 0) == Some(m)
    ensures forall p :: 0 <= p < m.start ==> !OpensAt(t, p)
  {
    assert IsLeftmost(t, 0, Some(m));
    hide OpensAt, OpeningAt, FirstOpening;
  }

  lemma IsFirst(t: string, part: Part)
    requires IsOpenerOf(part.opener, part.expr) && EndsCleanly(part.body)
    requires forall p :: 0 <= p < |part.gap| ==> !OpensAt(t, p)
    ensures IsFirstOf(t, part)
  {
    hide OpensAt, EndsCleanly, IsOpenerOf;
  }

  lemma FirstPartIsSection(t: string, m: Opening, close: nat)
    requires FirstOpening(t, 0) == Some(m) && IndexOf(t, CLOSE_MARKER, m.BodyFrom()) == close
    requires m.start <= m.exprFrom <= m.exprTo && m.BodyFrom() <= close <= |t|
    ensures IsFirstOf(t, PartAt(t, m, close))
  {
    assert m.start <= |t|;
    hide *;
    IndexIsNatural(t, m.BodyFrom());
    PartPieces(t, m, close);
    PartIsOpener(t, m, close);
    FoundBodyEndsCleanly(t, m.BodyFrom(), close);
    NothingOpensBefore(t, m);
    IsFirst(t, PartAt(t, m, close));
  }
}
