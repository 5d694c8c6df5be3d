/** Finding baked sections in a page, escaping their bodies and baking them again. */
module BakedSections {
  import opened Options
  import opened Text

  const OPEN_MARKER := "<!--#lua"
  const OPEN_END := "-->"
  const CLOSE_MARKER := "<!--/lua-->"
  const ESCAPED_MARKER := "<!-- /lua -->"

  /** White space and line terminators, the class that both `\s` and `trim` use. */
  predicate IsSpace(c: char) {
    var n := c as int;
    n == 0x20 || 0x09 <= n <= 0x0D || n == 0xA0 || n == 0x1680 || 0x2000 <= n <= 0x200A
    || n == 0x2028 || n == 0x2029 || n == 0x202F || n == 0x205F || n == 0x3000 || n == 0xFEFF
  }

  /** The first index from i on that holds no white space. */
  function SkipSpaces(s: string, i: nat): (e: nat)
    requires i <= |s|
    ensures i <= e <= |s| && (e < |s| ==> !IsSpace(s[e]))
    ensures forall k :: i <= k < e ==> IsSpace(s[k])
    decreases |s| - i
  {
    if i < |s| && IsSpace(s[i]) then SkipSpaces(s, i + 1) else i
  }

  /** The index after the last character before j that is no white space. */
  function DropSpaces(s: string, j: nat): (e: nat)
    requires j <= |s|
    ensures e <= j && (e > 0 ==> !IsSpace(s[e - 1]))
    ensures forall k :: e <= k < j ==> IsSpace(s[k])
  {
    if j > 0 && IsSpace(s[j - 1]) then DropSpaces(s, j - 1) else j
  }

  function Trim(s: string): string {
    var from := SkipSpaces(s, 0);
    var to := DropSpaces(s, |s|);
    if from <= to then s[from..to] else ""
  }

  // ---------------------------------------------------------------- opening markers

  datatype Opening = Opening(start: nat, exprFrom: nat, exprTo: nat) {
    function BodyFrom(): nat {
      exprTo + |OPEN_END|
    }
  }

  /** The expression matches at p: the marker, at least one space, and a `-->` somewhere after it. */
  predicate OpensAt(t: string, p: nat) {
    && OccursAt(t, OPEN_MARKER, p)
    && p + |OPEN_MARKER| < |t| && IsSpace(t[p + |OPEN_MARKER|])
    && IndexOf(t, OPEN_END, SkipSpaces(t, p + |OPEN_MARKER|)) >= 0
  }

  /** The match at p: all the space it can take, then as little as possible up to `-->`. */
  function OpeningAt(t: string, p: nat): Opening
    requires OpensAt(t, p)
  {
    var from := SkipSpaces(t, p + |OPEN_MARKER|);
    Opening(p, from, IndexOf(t, OPEN_END, from))
  }

  ghost predicate IsLeftmost(t: string, p: nat, m: Option<Opening>) {
    match m
    case None => forall k :: p <= k < |t| ==> !OpensAt(t, k)
    case Some(o) =>
      && p <= o.start < |t| && OpensAt(t, o.start) && o == OpeningAt(t, o.start)
      && forall k :: p <= k < o.start ==> !OpensAt(t, k)
  }

  /** The leftmost match at or after p. */
  function FirstOpening(t: string, p: nat): (m: Option<Opening>)
    requires p <= |t|
    ensures IsLeftmost(t, p, m)
    ensures m.Some? ==> m.value.start <= m.value.exprFrom <= m.value.exprTo && m.value.BodyFrom() <= |t|
    decreases |t| - p
  {
    if p == |t| then None
    else if OpensAt(t, p) then Some(OpeningAt(t, p))
    else FirstOpening(t, p + 1)
  }

  lemma SpaceStartsNoEnd(t: string, i: nat)
    requires i < |t| && IsSpace(t[i])
    ensures !OccursAt(t, OPEN_END, i)
  {
    if i + |OPEN_END| <= |t| {
      assert t[i..i + |OPEN_END|][0] == t[i];
    }
  }

  /** Giving back some of the space never helps the match: `-->` does not start with space. */
  lemma BacktrackingNeverHelps(t: string, p: nat, e: nat)
    requires p <= |t| && p <= e <= SkipSpaces(t, p)
    ensures IndexOf(t, OPEN_END, e) == IndexOf(t, OPEN_END, SkipSpaces(t, p))
  {
    forall i | e <= i < SkipSpaces(t, p)
      ensures !OccursAt(t, OPEN_END, i)
    {
      SpaceStartsNoEnd(t, i);
    }
  }

  // ---------------------------------------------------------------- pages

  /** A section: the text before it, its opening marker, the expression in that marker, and its body. */
  datatype Part = Part(gap: string, opener: string, expr: string, body: string)

  /** A page is its sections, each followed by the close marker, and the text after them. */
  datatype Page = Page(parts: seq<Part>, tail: string)

  function Print(page: Page): string
    decreases |page.parts|
  {
    if page.parts == [] then page.tail
    else
      var s := page.parts[0];
      s.gap + s.opener + s.body + CLOSE_MARKER + Print(Page(page.parts[1..], page.tail))
  }

  function Parse(t: string): Page
    decreases |t|
  {
    match FirstSection(t)
    case None => Page([], t)
    case Some((part, end)) => Prepend(part, Parse(t[end..]))
  }

  /** The first section of the page and where it ends, if its first opening marker is closed. */
  function FirstSection(t: string): (r: Option<(Part, nat)>)
    ensures r.Some? ==> 0 < r.value.1 <= |t|
  {
    match FirstOpening(t, 0)
    case None => None
    case Some(m) =>
      var close := IndexOf(t, CLOSE_MARKER, m.BodyFrom());
      if close == -1 then None else Some((PartAt(t, m, close), close + |CLOSE_MARKER|))
  }

  function Prepend(part: Part, page: Page): Page {
    Page([part] + page.parts, page.tail)
  }

  function PartAt(t: string, m: Opening, close: nat): Part
    requires m.start <= m.exprFrom <= m.exprTo && m.BodyFrom() <= close <= |t|
  {
    Part(t[..m.start], t[m.start..m.BodyFrom()], Trim(t[m.exprFrom..m.exprTo]), t[m.BodyFrom()..close])
  }

  lemma PrintCons(part: Part, parts: seq<Part>, tail: string)
    ensures Print(Page([part] + parts, tail)) ==
            part.gap + part.opener + part.body + CLOSE_MARKER + Print(Page(parts, tail))
  {
    assert ([part] + parts)[1..] == parts;
  }

  /** The pieces that Parse cuts out of a page with a section. */
  lemma {:induction false} Pieces(t: string, m: Opening, close: nat)
    requires m.start <= m.exprFrom <= m.exprTo && m.BodyFrom() <= close && OccursAt(t, CLOSE_MARKER, close)
    ensures var part := PartAt(t, m, close);
            t == part.gap + part.opener + part.body + CLOSE_MARKER + t[close + |CLOSE_MARKER|..]
  {
  }

  lemma {:induction false} SectionFound(t: string, m: Opening, close: nat)
    requires FirstOpening(t, 0) == Some(m) && IndexOf(t, CLOSE_MARKER, m.BodyFrom()) == close
    ensures m.start <= m.exprFrom <= m.exprTo && m.BodyFrom() <= close && OccursAt(t, CLOSE_MARKER, close)
    ensures FirstSection(t) == Some((PartAt(t, m, close), close + |CLOSE_MARKER|))
  {
    hide PartAt, FirstOpening, IndexOf, IsLeftmost;
  }

  lemma {:induction false} ParseFound(t: string, m: Opening, close: nat)
    requires FirstOpening(t, 0) == Some(m) && IndexOf(t, CLOSE_MARKER, m.BodyFrom()) == close
    ensures m.start <= m.exprFrom <= m.exprTo && m.BodyFrom() <= close && close + |CLOSE_MARKER| <= |t|
    ensures Parse(t) == Prepend(PartAt(t, m, close), Parse(t[close + |CLOSE_MARKER|..]))
  {
    SectionFound(t, m, close);
    hide FirstSection, PartAt, Prepend;
  }

  lemma ParseNothing(t: string)
    requires match FirstOpening(t, 0)
             case None => true
             case Some(m) => IndexOf(t, CLOSE_MARKER, m.BodyFrom()) == -1
    ensures Parse(t) == Page([], t)
  {
    hide OpensAt, OpeningAt, IsLeftmost, FirstOpening, IndexOf;
  }

  lemma {:induction false} PrintParse(t: string)
    ensures Print(Parse(t)) == t
    decreases |t|
  {
    if FirstSection(t).Some? {
      var m := FirstOpening(t, 0).value;
      var close := IndexOf(t, CLOSE_MARKER, m.BodyFrom());
      SectionFound(t, m, close);
      hide FirstOpening, Print, IndexOf, PartAt, FirstSection;
      var rest := t[close + |CLOSE_MARKER|..];
      PrintParse(rest);
      Pieces(t, m, close);
      PrintCons(PartAt(t, m, close), Parse(rest).parts, Parse(rest).tail);
    }
  }

  // ---------------------------------------------------------------- escaping

  function ReplaceAll(s: string, pat: string, rep: string): string
    requires pat != ""
    decreases |s|
  {
    var i := IndexOf(s, pat, 0);
    if i == -1 then s else s[..i] + rep + ReplaceAll(s[i + |pat|..], pat, rep)
  }

  function EscapeBakedBody(markdown: string): string {
    ReplaceAll(markdown, CLOSE_MARKER, ESCAPED_MARKER)
  }

  lemma Mismatch(s: string, pat: string, q: nat, k: nat)
    requires k < |pat| && q + k < |s| && s[q + k] != pat[k]
    ensures !OccursAt(s, pat, q)
  {
    if q + |pat| <= |s| {
      assert s[q..q + |pat|][k] == s[q + k];
    }
  }

  /** An occurrence of the close marker cannot overlap an escaped marker: it has no space inside, and
      neither the start nor the end of the escaped marker can serve as part of it. */
  lemma NoOverlap(before: string, after: string, q: nat)
    requires |before| < q + |CLOSE_MARKER| && q < |before| + |ESCAPED_MARKER|
    ensures !OccursAt(before + ESCAPED_MARKER + after, CLOSE_MARKER, q)
  {
    var w, n := before + ESCAPED_MARKER + after, |before|;
    assert forall k :: 0 <= k < |ESCAPED_MARKER| ==> w[n + k] == ESCAPED_MARKER[k];
    if q > n + 9 {
      Mismatch(w, CLOSE_MARKER, q, 0);
    } else if q + |CLOSE_MARKER| > n + 9 {
      assert w[n + 9] == ' ';
      Mismatch(w, CLOSE_MARKER, q, n + 9 - q);
    } else if q + |CLOSE_MARKER| > n + 4 {
      assert w[n + 4] == ' ';
      Mismatch(w, CLOSE_MARKER, q, n + 4 - q);
    } else {
      assert w[n] == '<';
      Mismatch(w, CLOSE_MARKER, q, n - q);
    }
  }

  lemma SliceOfSlice(s: string, a: nat, b: nat, i: nat, j: nat)
    requires a <= b <= |s| && i <= j <= b - a
    ensures s[a..b][i..j] == s[a + i..a + j]
  {
    var x, y := s[a..b][i..j], s[a + i..a + j];
    assert |x| == |y| && forall k :: 0 <= k < j - i ==> x[k] == s[a + i + k] == y[k];
  }

  lemma SliceOccurrence(s: string, a: nat, b: nat, pat: string, i: int)
    requires a <= b <= |s|
    ensures OccursAt(s[a..b], pat, i) <==> 0 <= i && a + i + |pat| <= b && OccursAt(s, pat, a + i)
  {
    if 0 <= i && a + i + |pat| <= b {
      SliceOfSlice(s, a, b, i, i + |pat|);
    }
  }

  /** The escaped text holds no close marker. */
  lemma {:induction false} EscapingRemovesMarker(markdown: string)
    ensures !Occurs(EscapeBakedBody(markdown), CLOSE_MARKER)
    decreases |markdown|
  {
    var i := IndexOf(markdown, CLOSE_MARKER, 0);
    if i >= 0 {
      var rest := EscapeBakedBody(markdown[i + |CLOSE_MARKER|..]);
      var w, n := markdown[..i] + ESCAPED_MARKER + rest, i + |ESCAPED_MARKER|;
      EscapingRemovesMarker(markdown[i + |CLOSE_MARKER|..]);
      assert w[..i] == markdown[..i] && w[n..] == rest && w[n..|w|] == rest;
      forall q: int
        ensures !OccursAt(w, CLOSE_MARKER, q)
      {
        if 0 <= q && q + |CLOSE_MARKER| <= i {
          SliceOccurrence(w, 0, i, CLOSE_MARKER, q);
          SliceOccurrence(markdown, 0, i, CLOSE_MARKER, q);
        } else if q >= n {
          SliceOccurrence(w, n, |w|, CLOSE_MARKER, q - n);
        } else if 0 <= q {
          NoOverlap(markdown[..i], rest, q);
        }
      }
    }
  }

  // ---------------------------------------------------------------- baking

  /** What evaluating an expression yields; evaluation is taken to be deterministic. */
  datatype Evaluation = Rendered(markdown: string) | Failed(reason: string)

  type Evaluator = string -> Evaluation

  function Wrapped(markdown: string): string {
    "\n" + Trim(EscapeBakedBody(markdown)) + "\n"
  }

  function NewBody(part: Part, eval: Evaluator): string {
    match eval(part.expr)
    case Rendered(markdown) => Wrapped(markdown)
    case Failed(_) => part.body
  }

  function RebakedParts(parts: seq<Part>, eval: Evaluator): seq<Part> {
    seq(|parts|, i requires 0 <= i < |parts| => parts[i].(body := NewBody(parts[i], eval)))
  }

  /** The page with every body that can be evaluated replaced. */
  function Rebaked(page: Page, eval: Evaluator): Page {
    page.(parts := RebakedParts(page.parts, eval))
  }

  /** The first close marker after this body is the one that follows it. */
  ghost predicate EndsCleanly(body: string) {
    forall q :: 0 <= q < |body| ==> !OccursAt(body + CLOSE_MARKER, CLOSE_MARKER, q)
  }

  lemma WrappedEndsCleanly(markdown: string)
    ensures EndsCleanly(Wrapped(markdown))
  {
    var e := EscapeBakedBody(markdown);
    var x := Trim(e);
    var body := "\n" + x + "\n";
    var w := body + CLOSE_MARKER;
    EscapingRemovesMarker(markdown);
    TrimHasNoMarker(e);
    hide EscapeBakedBody, Trim;
    forall q | 0 <= q < |body|
      ensures !OccursAt(w, CLOSE_MARKER, q)
    {
      if q == 0 {
        Mismatch(w, CLOSE_MARKER, 0, 0);
      } else if q + |CLOSE_MARKER| >= |body| {
        assert w[|body| - 1] == '\n';
        Mismatch(w, CLOSE_MARKER, q, |body| - 1 - q);
      } else {
        assert w[1..|body| - 1] == x;
        SliceOccurrence(w, 1, |body| - 1, CLOSE_MARKER, q - 1);
      }
    }
  }

  lemma TrimHasNoMarker(e: string)
    requires !Occurs(e, CLOSE_MARKER)
    ensures !Occurs(Trim(e), CLOSE_MARKER)
  {
    var from, to := SkipSpaces(e, 0), DropSpaces(e, |e|);
    hide SkipSpaces, DropSpaces;
    forall q | 0 <= q && q + |CLOSE_MARKER| <= |Trim(e)|
      ensures !OccursAt(Trim(e), CLOSE_MARKER, q)
    {
      if from <= to {
        SliceOccurrence(e, from, to, CLOSE_MARKER, q);
      }
    }
  }

  lemma FoundBodyEndsCleanly(t: string, from: nat, close: nat)
    requires from <= close && OccursAt(t, CLOSE_MARKER, close) && IndexOf(t, CLOSE_MARKER, from) == close
    ensures EndsCleanly(t[from..close])
  {
    var n := close + |CLOSE_MARKER|;
    assert t[from..close] + CLOSE_MARKER == t[from..n];
    forall q | 0 <= q < close - from
      ensures !OccursAt(t[from..n], CLOSE_MARKER, q)
    {
      SliceOccurrence(t, from, n, CLOSE_MARKER, q);
    }
  }

  lemma FindsEndOfBody(lead: string, body: string, rest: string)
    requires EndsCleanly(body)
    ensures IndexOf(lead + body + CLOSE_MARKER + rest, CLOSE_MARKER, |lead|) == |lead| + |body|
  {
    var w, n := lead + body + CLOSE_MARKER + rest, |lead| + |body| + |CLOSE_MARKER|;
    assert w[|lead|..n] == body + CLOSE_MARKER;
    forall k | |lead| <= k < |lead| + |body|
      ensures !OccursAt(w, CLOSE_MARKER, k)
    {
      SliceOccurrence(w, |lead|, n, CLOSE_MARKER, k - |lead|);
    }
    assert w[|lead| + |body|..n] == CLOSE_MARKER;
    assert OccursAt(w, CLOSE_MARKER, |lead| + |body|);
  }

  // ---------------------------------------------------------------- openings survive a new body

  lemma {:induction false} SkipSpacesKept(t: string, u: string, n: nat, i: nat)
    requires i <= n <= |t| && n <= |u| && t[..n] == u[..n] && SkipSpaces(t, i) < n
    ensures SkipSpaces(u, i) == SkipSpaces(t, i)
    decreases n - i
  {
    if i < n {
      assert t[i] == t[..n][i] == u[..n][i] == u[i];
      if IsSpace(t[i]) {
        SkipSpacesKept(t, u, n, i + 1);
      }
    }
  }

  lemma {:induction false} IndexOfKept(t: string, u: string, n: nat, pat: string, i: nat)
    requires n <= |t| && n <= |u| && t[..n] == u[..n]
    requires IndexOf(t, pat, i) >= 0 && IndexOf(t, pat, i) + |pat| <= n
    ensures IndexOf(u, pat, i) == IndexOf(t, pat, i)
  {
    var r := IndexOf(t, pat, i);
    forall k | i <= k <= r
      ensures OccursAt(u, pat, k) <==> OccursAt(t, pat, k)
    {
      SliceOccurrence(t, 0, n, pat, k);
      SliceOccurrence(u, 0, n, pat, k);
    }
  }

  predicate StartsOpening(t: string, p: nat) {
    OccursAt(t, OPEN_MARKER, p) && p + |OPEN_MARKER| < |t| && IsSpace(t[p + |OPEN_MARKER|])
  }

  /** How much of the space is skipped does not matter for whether the marker is ended. */
  lemma OpensAtSimpler(t: string, p: nat)
    ensures OpensAt(t, p) <==> StartsOpening(t, p) && IndexOf(t, OPEN_END, p + |OPEN_MARKER| + 1) >= 0
  {
    if StartsOpening(t, p) {
      assert SkipSpaces(t, p + |OPEN_MARKER|) == SkipSpaces(t, p + |OPEN_MARKER| + 1);
      BacktrackingNeverHelps(t, p + |OPEN_MARKER|, p + |OPEN_MARKER| + 1);
    }
  }

  lemma {:induction false} StartsOpeningKept(t: string, u: string, n: nat, p: nat)
    requires n <= |t| && n <= |u| && t[..n] == u[..n] && p + |OPEN_MARKER| < n
    ensures StartsOpening(u, p) <==> StartsOpening(t, p)
  {
    SliceOccurrence(t, 0, n, OPEN_MARKER, p);
    SliceOccurrence(u, 0, n, OPEN_MARKER, p);
    assert t[p + |OPEN_MARKER|] == t[..n][p + |OPEN_MARKER|] == u[p + |OPEN_MARKER|];
  }

  /** Text that agrees up to the end of the first opening marker has the same first opening. */
  lemma {:induction false} OpeningKept(t: string, u: string, m: Opening)
    requires FirstOpening(t, 0) == Some(m) && m.BodyFrom() <= |u| && t[..m.BodyFrom()] == u[..m.BodyFrom()]
    ensures FirstOpening(u, 0) == Some(m)
  {
    EndFollows(t, m);
    SameOpening(t, u, m);
    hide OpensAt, OpeningAt, FirstOpening;
    forall p | 0 <= p < m.start
      ensures !OpensAt(u, p)
    {
      NoEarlierOpening(t, u, m, p);
    }
    LeftmostIsFirst(u, m);
  }

  lemma {:induction false} LeftmostIsFirst(u: string, m: Opening)
    requires OpensAt(u, m.start) && OpeningAt(u, m.start) == m && forall p :: 0 <= p < m.start ==> !OpensAt(u, p)
    ensures FirstOpening(u, 0) == Some(m)
  {
    assert m.start < |u|;
    hide OpensAt, OpeningAt;
  }

  lemma {:induction false} NoEarlierOpening(t: string, u: string, m: Opening, p: nat)
    requires FirstOpening(t, 0) == Some(m) && m.BodyFrom() <= |u| && t[..m.BodyFrom()] == u[..m.BodyFrom()]
    requires p < m.start
    ensures !OpensAt(u, p)
  {
    EndFollows(t, m);
    OpensAtSimpler(t, p);
    OpensAtSimpler(u, p);
    hide OpensAt, StartsOpening, IndexOf;
    StartsOpeningKept(t, u, m.BodyFrom(), p);
    assert IndexOf(t, OPEN_END, p + |OPEN_MARKER| + 1) >= 0;
  }

  lemma EndFollows(t: string, m: Opening)
    requires FirstOpening(t, 0) == Some(m)
    ensures m.start + |OPEN_MARKER| < m.exprFrom <= m.exprTo && m.BodyFrom() <= |t|
    ensures OccursAt(t, OPEN_END, m.exprTo)
  {
    assert OpensAt(t, m.start);
    assert m.exprFrom == SkipSpaces(t, m.start + |OPEN_MARKER|);
  }

  lemma {:induction false} SameOpening(t: string, u: string, m: Opening)
    requires FirstOpening(t, 0) == Some(m) && m.BodyFrom() <= |u| && t[..m.BodyFrom()] == u[..m.BodyFrom()]
    ensures OpensAt(u, m.start) && OpeningAt(u, m.start) == m
  {
    EndFollows(t, m);
    hide IsSpace, FirstOpening;
    StartsOpeningKept(t, u, m.BodyFrom(), m.start);
    SkipSpacesKept(t, u, m.BodyFrom(), m.start + |OPEN_MARKER|);
    hide SkipSpaces;
    IndexOfKept(t, u, m.BodyFrom(), OPEN_END, m.exprFrom);
  }

  // ---------------------------------------------------------------- baking again

  lemma RebakedCons(part: Part, parts: seq<Part>, eval: Evaluator)
    ensures RebakedParts([part] + parts, eval) == [part.(body := NewBody(part, eval))] + RebakedParts(parts, eval)
  {
  }

  /** A section with another clean body, before a page that parses, parses to just that. */
  lemma {:induction false} ReparsePart(t: string, m: Opening, close: nat, body: string, rest: string)
    requires FirstOpening(t, 0) == Some(m) && m.BodyFrom() <= close <= |t| && EndsCleanly(body)
    ensures var part := PartAt(t, m, close).(body := body);
            Parse(part.gap + part.opener + body + CLOSE_MARKER + rest) == Prepend(part, Parse(rest))
  {
    hide FirstOpening, IndexOf, EndsCleanly, Trim;
    var part := PartAt(t, m, close).(body := body);
    var n := m.BodyFrom();
    var u := t[..n] + body + CLOSE_MARKER + rest;
    EndFollows(t, m);
    assert u[..n] == t[..n];
    OpeningKept(t, u, m);
    FindsEndOfBody(t[..n], body, rest);
    SamePart(t, u, m, close, n + |body|);
    assert u[n..n + |body|] == body && u[n + |body| + |CLOSE_MARKER|..] == rest;
    assert part.gap + part.opener == t[..n];
    ParseFound(u, m, n + |body|);
    assert Parse(u) == Prepend(part, Parse(rest));
  }

  lemma SamePart(t: string, u: string, m: Opening, close: nat, close': nat)
    requires m.start <= m.exprFrom <= m.exprTo && m.BodyFrom() <= close <= |t| && m.BodyFrom() <= close' <= |u|
    requires u[..m.BodyFrom()] == t[..m.BodyFrom()]
    ensures PartAt(u, m, close') == PartAt(t, m, close).(body := u[m.BodyFrom()..close'])
  {
    hide Trim;
    SamePrefixSlice(t, u, m.BodyFrom(), 0, m.start);
    SamePrefixSlice(t, u, m.BodyFrom(), m.start, m.BodyFrom());
    SamePrefixSlice(t, u, m.BodyFrom(), m.exprFrom, m.exprTo);
  }

  lemma SamePrefixSlice(t: string, u: string, n: nat, i: nat, j: nat)
    requires i <= j <= n <= |t| && n <= |u| && t[..n] == u[..n]
    ensures t[i..j] == u[i..j]
  {
    SliceOfSlice(t, 0, n, i, j);
    SliceOfSlice(u, 0, n, i, j);
  }

  /** The baked page has the same sections in the same order, with the same text around and in their
      markers and the new bodies in between. */
  lemma {:induction false} ReparseRebaked(t: string, eval: Evaluator)
    ensures Parse(Print(Rebaked(Parse(t), eval))) == Rebaked(Parse(t), eval)
    decreases |t|
  {
    var m := FirstOpening(t, 0);
    if m.Some? && IndexOf(t, CLOSE_MARKER, m.value.BodyFrom()) != -1 {
      var close := IndexOf(t, CLOSE_MARKER, m.value.BodyFrom());
      ParseFound(t, m.value, close);
      FoundBodyEndsCleanly(t, m.value.BodyFrom(), close);
      hide FirstOpening, IndexOf, Parse, Print, RebakedParts, PartAt, Wrapped, EndsCleanly;
      var part := PartAt(t, m.value, close);
      var rest := Parse(t[close + |CLOSE_MARKER|..]);
      ReparseRebaked(t[close + |CLOSE_MARKER|..], eval);
      RebakedCons(part, rest.parts, eval);
      if eval(part.expr).Rendered? {
        WrappedEndsCleanly(eval(part.expr).markdown);
      }
      PartBody(t, m.value, close);
      PrintCons(part.(body := NewBody(part, eval)), RebakedParts(rest.parts, eval), rest.tail);
      ReparsePart(t, m.value, close, NewBody(part, eval), Print(Rebaked(rest, eval)));
    } else {
      ParseNothing(t);
      assert RebakedParts([], eval) == [];
    }
  }

  lemma PartBody(t: string, m: Opening, close: nat)
    requires m.start <= m.exprFrom <= m.exprTo && m.BodyFrom() <= close <= |t|
    ensures PartAt(t, m, close).body == t[m.BodyFrom()..close]
  {
  }

  function Exprs(page: Page): seq<string> {
    seq(|page.parts|, i requires 0 <= i < |page.parts| => page.parts[i].expr)
  }

  function Bake(t: string, eval: Evaluator): string {
    Print(Rebaked(Parse(t), eval))
  }

  /** Baking an already baked page changes nothing, and keeps the expressions in order. */
  lemma {:induction false} BakingIsIdempotent(t: string, eval: Evaluator)
    ensures Bake(Bake(t, eval), eval) == Bake(t, eval)
    ensures Exprs(Parse(Bake(t, eval))) == Exprs(Parse(t))
  {
    hide Parse, Print;
    ReparseRebaked(t, eval);
    RebakingTwice(Parse(t), eval);
  }

  lemma RebakingTwice(page: Page, eval: Evaluator)
    ensures Rebaked(Rebaked(page, eval), eval) == Rebaked(page, eval)
    ensures Exprs(Rebaked(page, eval)) == Exprs(page)
  {
  }
}
