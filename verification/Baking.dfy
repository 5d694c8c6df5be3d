/** The scanner over a whole page, the edits it leads to, and their application back to front. */
module Baking {
  import opened Options
  import opened Text
  import opened BakedSections
  import opened BakedLaws

  // ---------------------------------------------------------------- searching from an offset

  lemma {:induction false} IndexOfShift(t: string, pat: string, base: nat, from: nat)
    requires base + from <= |t|
    ensures var r := IndexOf(t[base..], pat, from);
            IndexOf(t, pat, base + from) == if r == -1 then -1 else base + r
    decreases |t| - from
  {
    var s := t[base..];
    forall k: int
      ensures OccursAt(s, pat, k) <==> 0 <= k && OccursAt(t, pat, base + k)
    {
      assert t[base..|t|] == s;
      SliceOccurrence(t, base, |t|, pat, k);
    }
    var r, r' := IndexOf(s, pat, from), IndexOf(t, pat, base + from);
    assert r != -1 ==> OccursAt(t, pat, base + r);
    assert r' != -1 ==> OccursAt(s, pat, r' - base);
  }

  lemma {:induction false} SkipSpacesShift(t: string, base: nat, i: nat)
    requires base + i <= |t|
    ensures SkipSpaces(t, base + i) == base + SkipSpaces(t[base..], i)
    decreases |t| - i
  {
    if base + i < |t| {
      assert t[base..][i] == t[base + i];
      if IsSpace(t[base + i]) {
        SkipSpacesShift(t, base, i + 1);
      }
    }
  }

  function Shifted(m: Opening, base: nat): Opening {
    Opening(base + m.start, base + m.exprFrom, base + m.exprTo)
  }

  lemma OpensAtShift(t: string, base: nat, p: nat)
    requires base + p <= |t|
    ensures OpensAt(t, base + p) <==> OpensAt(t[base..], p)
    ensures OpensAt(t, base + p) ==> OpeningAt(t, base + p) == Shifted(OpeningAt(t[base..], p), base)
  {
    assert t[base..|t|] == t[base..];
    SliceOccurrence(t, base, |t|, OPEN_MARKER, p);
    if OccursAt(t, OPEN_MARKER, base + p) && base + p + |OPEN_MARKER| < |t| {
      assert t[base..][p + |OPEN_MARKER|] == t[base + p + |OPEN_MARKER|];
      SkipSpacesShift(t, base, p + |OPEN_MARKER|);
      IndexOfShift(t, OPEN_END, base, SkipSpaces(t[base..], p + |OPEN_MARKER|));
    }
  }

  function ShiftedOption(m: Option<Opening>, base: nat): Option<Opening> {
    match m
    case None => None
    case Some(o) => Some(Shifted(o, base))
  }

  lemma {:induction false} FirstOpeningShift(t: string, base: nat, p: nat)
    requires base + p <= |t|
    ensures FirstOpening(t, base + p) == ShiftedOption(FirstOpening(t[base..], p), base)
    decreases |t| - p
  {
    hide OpensAt, OpeningAt, IsLeftmost;
    OpensAtShift(t, base, p);
    if base + p < |t| && !OpensAt(t, base + p) {
      FirstOpeningShift(t, base, p + 1);
    }
  }

  // ---------------------------------------------------------------- the scanner

  datatype BakedSection = BakedSection(expr: string, start: nat, end: nat, bodyFrom: nat, bodyTo: nat)

  /** Where a part that begins at `base` has its markers and its body. */
  function SectionAt(part: Part, base: nat): BakedSection {
    var start := base + |part.gap|;
    var bodyFrom := start + |part.opener|;
    var bodyTo := bodyFrom + |part.body|;
    BakedSection(part.expr, start, bodyTo + |CLOSE_MARKER|, bodyFrom, bodyTo)
  }

  /** The offsets of consecutive parts, the first of which begins at `base`. */
  function SectionsOf(parts: seq<Part>, base: nat): (sections: seq<BakedSection>)
    ensures |sections| == |parts|
  {
    if parts == [] then []
    else
      var s := SectionAt(parts[0], base);
      [s] + SectionsOf(parts[1..], s.end)
  }

  lemma SectionsOfCons(part: Part, parts: seq<Part>, base: nat)
    ensures SectionsOf([part] + parts, base) == [SectionAt(part, base)] + SectionsOf(parts, SectionAt(part, base).end)
  {
    assert ([part] + parts)[1..] == parts;
  }

  /** After an unclosed marker the scan goes on, but finds nothing more. */
  lemma {:induction false} NoCloseNoParts(t: string, from: nat)
    requires from <= |t| && IndexOf(t, CLOSE_MARKER, from) == -1
    ensures Parse(t[from..]).parts == []
  {
    IndexOfShift(t, CLOSE_MARKER, from, 0);
    var m := FirstOpening(t[from..], 0);
    if m.Some? {
      assert IndexOf(t[from..], CLOSE_MARKER, m.value.BodyFrom()) == -1;
    }
    hide FirstOpening, Parse;
    ParseNothing(t[from..]);
  }

  /** The sections found so far, followed by those of the page from lastIndex on, are those of the page. */
  ghost predicate Scanned(t: string, lastIndex: nat, sections: seq<BakedSection>) {
    && lastIndex <= |t|
    && sections + SectionsOf(Parse(t[lastIndex..]).parts, lastIndex) == SectionsOf(Parse(t).parts, 0)
  }

  lemma ScanStarts(t: string)
    ensures Scanned(t, 0, [])
  {
    assert t[0..] == t;
  }

  lemma {:induction false} ScanEnds(t: string, lastIndex: nat, sections: seq<BakedSection>)
    requires Scanned(t, lastIndex, sections) && FirstOpening(t, lastIndex) == None
    ensures sections == SectionsOf(Parse(t).parts, 0)
  {
    FirstOpeningShift(t, lastIndex, 0);
    ParseNothing(t[lastIndex..]);
    hide FirstOpening, Parse;
  }

  lemma OpeningAdvances(t: string, p: nat, m: Opening)
    requires p <= |t| && FirstOpening(t, p) == Some(m)
    ensures p <= m.start && p < m.BodyFrom()
  {
    hide FirstOpening, OpensAt, OpeningAt;
  }

  lemma {:induction false} ScanSkips(t: string, lastIndex: nat, sections: seq<BakedSection>, m: Opening)
    requires lastIndex <= |t| && FirstOpening(t, lastIndex) == Some(m)
    requires IndexOf(t, CLOSE_MARKER, m.BodyFrom()) == -1
    ensures lastIndex < m.BodyFrom() <= |t|
    ensures Scanned(t, lastIndex, sections) ==> Scanned(t, m.BodyFrom(), sections)
  {
    OpeningAdvances(t, lastIndex, m);
    hide FirstOpening, IndexOf, Parse, SectionsOf, OccursAt, IsLeftmost;
    SuffixUnclosed(t, lastIndex, m);
    ParseNothing(t[lastIndex..]);
    NoCloseNoParts(t, m.BodyFrom());
  }

  lemma {:induction false} SuffixUnclosed(t: string, lastIndex: nat, m: Opening)
    requires lastIndex <= |t| && FirstOpening(t, lastIndex) == Some(m)
    requires IndexOf(t, CLOSE_MARKER, m.BodyFrom()) == -1
    ensures match FirstOpening(t[lastIndex..], 0)
            case None => false
            case Some(o) => IndexOf(t[lastIndex..], CLOSE_MARKER, o.BodyFrom()) == -1
  {
    hide FirstOpening, IsLeftmost, IndexOf;
    FirstOpeningShift(t, lastIndex, 0);
    var o := FirstOpening(t[lastIndex..], 0).value;
    assert o.BodyFrom() + lastIndex == m.BodyFrom();
    IndexOfShift(t, CLOSE_MARKER, lastIndex, o.BodyFrom());
  }

  lemma {:induction false} ScanFinds(t: string, lastIndex: nat, sections: seq<BakedSection>, m: Opening, close: nat)
    requires lastIndex <= |t| && FirstOpening(t, lastIndex) == Some(m)
    requires IndexOf(t, CLOSE_MARKER, m.BodyFrom()) == close
    ensures m.exprFrom <= m.exprTo <= |t| && lastIndex < close && close + |CLOSE_MARKER| <= |t|
    ensures var expr := Trim(t[m.exprFrom..m.exprTo]);
            var found := BakedSection(expr, m.start, close + |CLOSE_MARKER|, m.BodyFrom(), close);
            Scanned(t, lastIndex, sections) ==> Scanned(t, found.end, sections + [found])
  {
    hide *;
    OpeningAdvances(t, lastIndex, m);
    var o, n := SuffixFinds(t, lastIndex, m, close);
    var s := t[lastIndex..];
    PartsFound(s, o, n, lastIndex);
    var found := SectionAt(PartAt(s, o, n), lastIndex);
    assert s[n + |CLOSE_MARKER|..] == t[close + |CLOSE_MARKER|..] by {
      SuffixSlices(t, lastIndex, n + |CLOSE_MARKER|, n + |CLOSE_MARKER|);
    }
    var expr := Trim(t[m.exprFrom..m.exprTo]);
    assert found == BakedSection(expr, m.start, close + |CLOSE_MARKER|, m.BodyFrom(), close) by {
      SectionOfPart(s, o, n, lastIndex);
      SuffixSlices(t, lastIndex, o.exprFrom, o.exprTo);
    }
    ScannedAdvances(t, lastIndex, sections, found);
  }

  lemma {:induction false} ScannedAdvances(t: string, lastIndex: nat, sections: seq<BakedSection>, found: BakedSection)
    requires lastIndex <= |t| && found.end <= |t|
    ensures SectionsOf(Parse(t[lastIndex..]).parts, lastIndex) ==
            [found] + SectionsOf(Parse(t[found.end..]).parts, found.end) ==>
            Scanned(t, lastIndex, sections) ==> Scanned(t, found.end, sections + [found])
  {
    hide Parse, SectionsOf;
    var rest := SectionsOf(Parse(t[found.end..]).parts, found.end);
    assert sections + ([found] + rest) == sections + [found] + rest;
  }

  lemma SuffixSlices(t: string, base: nat, i: nat, j: nat)
    requires i <= j && base + j <= |t|
    ensures t[base..][i..j] == t[base + i..base + j] && t[base..][i..] == t[base + i..]
  {
  }

  /** What the scan from lastIndex finds, seen from the start of the rest of the page. */
  lemma {:induction false} SuffixFinds(t: string, lastIndex: nat, m: Opening, close: nat) returns (o: Opening, n: nat)
    requires lastIndex <= |t| && FirstOpening(t, lastIndex) == Some(m)
    requires IndexOf(t, CLOSE_MARKER, m.BodyFrom()) == close
    ensures FirstOpening(t[lastIndex..], 0) == Some(o) && m == Shifted(o, lastIndex)
    ensures IndexOf(t[lastIndex..], CLOSE_MARKER, o.BodyFrom()) == n && close == lastIndex + n
    ensures o.exprFrom <= o.exprTo && m.exprTo <= |t| && m.BodyFrom() <= close && close + |CLOSE_MARKER| <= |t|
    ensures m.exprFrom == lastIndex + o.exprFrom && m.exprTo == lastIndex + o.exprTo
    ensures m.start == lastIndex + o.start && m.BodyFrom() == lastIndex + o.BodyFrom()
  {
    hide OpensAt, OpeningAt;
    FirstOpeningShift(t, lastIndex, 0);
    o := FirstOpening(t[lastIndex..], 0).value;
    assert o.exprFrom <= o.exprTo && m.BodyFrom() <= |t|;
    hide FirstOpening, IsLeftmost;
    IndexOfShift(t, CLOSE_MARKER, lastIndex, o.BodyFrom());
    n := close - lastIndex;
    assert OccursAt(t, CLOSE_MARKER, close);
  }

  lemma SectionOfPart(s: string, o: Opening, n: nat, base: nat)
    requires o.start <= o.exprFrom <= o.exprTo && o.BodyFrom() <= n <= |s|
    ensures SectionAt(PartAt(s, o, n), base) ==
            BakedSection(Trim(s[o.exprFrom..o.exprTo]), base + o.start, base + n + |CLOSE_MARKER|,
                         base + o.BodyFrom(), base + n)
  {
    hide Trim;
  }

  lemma {:induction false} PartsFound(s: string, o: Opening, n: nat, base: nat)
    requires FirstOpening(s, 0) == Some(o) && IndexOf(s, CLOSE_MARKER, o.BodyFrom()) == n
    ensures o.start <= o.exprFrom <= o.exprTo && o.BodyFrom() <= n && n + |CLOSE_MARKER| <= |s|
    ensures var found := SectionAt(PartAt(s, o, n), base);
            SectionsOf(Parse(s).parts, base) == [found] + SectionsOf(Parse(s[n + |CLOSE_MARKER|..]).parts, found.end)
  {
    ParseFound(s, o, n);
    hide *;
    SectionsOfCons(PartAt(s, o, n), Parse(s[n + |CLOSE_MARKER|..]).parts, base);
  }

  method FindBakedSections(text: string) returns (sections: seq<BakedSection>)
    ensures sections == SectionsOf(Parse(text).parts, 0)
    ensures forall k :: 0 <= k < |sections| ==> IsSectionOf(text, sections[k])
  {
    FoundAreSections(text);
    sections := [];
    var lastIndex := 0;
    ScanStarts(text);
    hide *;
    while true
      invariant lastIndex <= |text| && Scanned(text, lastIndex, sections)
      decreases |text| - lastIndex
    {
      var m := FirstOpening(text, lastIndex);
      if m.None? {
        ScanEnds(text, lastIndex, sections);
        break;
      }
      var bodyFrom := m.value.BodyFrom();
      var closeIdx := IndexOf(text, CLOSE_MARKER, bodyFrom);
      if closeIdx == -1 {
        ScanSkips(text, lastIndex, sections, m.value);
        lastIndex := bodyFrom;
        continue;
      }
      ScanFinds(text, lastIndex, sections, m.value, closeIdx);
      var end := closeIdx + |CLOSE_MARKER|;
      var expr := Trim(text[m.value.exprFrom..m.value.exprTo]);
      sections := sections + [BakedSection(expr, m.value.start, end, bodyFrom, closeIdx)];
      lastIndex := end;
    }
  }

  // ---------------------------------------------------------------- what the offsets mean

  lemma PrintedPieces(t: string, parts: seq<Part>, tail: string, base: nat)
    requires base <= |t| && parts != [] && t[base..] == Print(Page(parts, tail))
    ensures var s := SectionAt(parts[0], base);
            && s.end <= |t|
            && t[base..s.bodyFrom] == parts[0].gap + parts[0].opener
            && t[s.bodyFrom..s.bodyTo] == parts[0].body
            && t[s.bodyTo..s.end] == CLOSE_MARKER
            && t[s.end..] == Print(Page(parts[1..], tail))
  {
    var s, p := SectionAt(parts[0], base), parts[0];
    var rest := Print(Page(parts[1..], tail));
    assert t[base..] == p.gap + p.opener + p.body + CLOSE_MARKER + rest;
    var i, j, k := s.bodyFrom - base, s.bodyTo - base, s.end - base;
    assert |t[base..]| == |t| - base;
    SuffixSlices(t, base, 0, i);
    SuffixSlices(t, base, i, j);
    SuffixSlices(t, base, j, k);
    SuffixSlices(t, base, k, k);
    CutPieces(p.gap + p.opener, p.body, CLOSE_MARKER, rest);
  }

  lemma CutPieces(a: string, b: string, c: string, d: string)
    ensures var s := a + b + c + d;
            && s[0..|a|] == a && s[|a|..|a| + |b|] == b
            && s[|a| + |b|..|a| + |b| + |c|] == c && s[|a| + |b| + |c|..] == d
  {
  }

  /** The offsets of a section enclose its opening marker, its body and the close marker. */
  ghost predicate Encloses(t: string, s: BakedSection, part: Part) {
    && s.start <= s.bodyFrom <= s.bodyTo <= s.end <= |t|
    && t[s.start..s.bodyFrom] == part.opener
    && t[s.bodyFrom..s.bodyTo] == part.body
    && t[s.bodyTo..s.end] == CLOSE_MARKER
    && s.expr == part.expr
  }

  /** The scanner's sections enclose the parts of the page, in page order and without overlap. */
  lemma {:induction false} SectionsEncloseParts(t: string, parts: seq<Part>, tail: string, base: nat, k: nat)
    requires base <= |t| && t[base..] == Print(Page(parts, tail)) && k < |parts|
    ensures Encloses(t, SectionsOf(parts, base)[k], parts[k])
    ensures base <= SectionsOf(parts, base)[k].start
    ensures k + 1 < |parts| ==> SectionsOf(parts, base)[k].end <= SectionsOf(parts, base)[k + 1].start
    decreases |parts|
  {
    var s := SectionAt(parts[0], base);
    PrintedPieces(t, parts, tail, base);
    assert SectionsOf(parts, base) == [s] + SectionsOf(parts[1..], s.end);
    if k == 0 {
      OpenerWithinLead(t, base, s.start, s.bodyFrom, parts[0].gap, parts[0].opener);
      hide Print;
      if |parts| > 1 {
        SectionsEncloseParts(t, parts[1..], tail, s.end, 0);
      }
    } else {
      hide Print, Encloses;
      SectionsEncloseParts(t, parts[1..], tail, s.end, k - 1);
    }
  }

  lemma OpenerWithinLead(t: string, base: nat, start: nat, bodyFrom: nat, gap: string, opener: string)
    requires base <= bodyFrom <= |t| && t[base..bodyFrom] == gap + opener && start == base + |gap|
    ensures start <= bodyFrom && t[start..bodyFrom] == opener
  {
    assert |gap + opener| == bodyFrom - base;
    assert t[start..bodyFrom] == t[base..bodyFrom][|gap|..];
  }

  lemma {:induction false} FoundSectionsEncloseParts(t: string, k: nat)
    requires k < |Parse(t).parts|
    ensures var found, parts := SectionsOf(Parse(t).parts, 0), Parse(t).parts;
            && Encloses(t, found[k], parts[k])
            && (k + 1 < |parts| ==> found[k].end <= found[k + 1].start)
  {
    hide Parse, Encloses, SectionsOf;
    PrintParse(t);
    assert t[0..] == t;
    SectionsEncloseParts(t, Parse(t).parts, Parse(t).tail, 0, k);
  }

  /** The marker with what is left of its text when trimmed, the body up to the first close marker after it, and that
      marker. */
  ghost predicate IsSectionOf(t: string, s: BakedSection) {
    && s.start <= s.bodyFrom <= s.bodyTo <= s.end <= |t|
    && IsOpenerOf(t[s.start..s.bodyFrom], s.expr)
    && EndsCleanly(t[s.bodyFrom..s.bodyTo])
    && t[s.bodyTo..s.end] == CLOSE_MARKER
  }

  lemma FoundIsSection(t: string, k: nat)
    requires k < |Parse(t).parts|
    ensures IsSectionOf(t, SectionsOf(Parse(t).parts, 0)[k])
  {
    hide Parse, Print, SectionsOf, IsOpenerOf, EndsCleanly;
    FoundSectionsEncloseParts(t, k);
    PartsAreSections(t, k);
  }

  lemma FoundAreSections(t: string)
    ensures forall k :: 0 <= k < |SectionsOf(Parse(t).parts, 0)| ==> IsSectionOf(t, SectionsOf(Parse(t).parts, 0)[k])
  {
    hide Parse, SectionsOf, IsSectionOf;
    forall k | 0 <= k < |SectionsOf(Parse(t).parts, 0)|
      ensures IsSectionOf(t, SectionsOf(Parse(t).parts, 0)[k])
    {
      FoundIsSection(t, k);
    }
  }

  // ---------------------------------------------------------------- edits

  datatype BodyEdit = BodyEdit(from: nat, to: nat, insert: string)

  /** The edits for consecutive parts that begin at `base`: one for each expression that renders. */
  function EditsOf(parts: seq<Part>, base: nat, eval: Evaluator): seq<BodyEdit> {
    if parts == [] then []
    else
      var s := SectionAt(parts[0], base);
      var rest := EditsOf(parts[1..], s.end, eval);
      match eval(s.expr)
      case Rendered(markdown) => [BodyEdit(s.bodyFrom, s.bodyTo, Wrapped(markdown))] + rest
      case Failed(_) => rest
  }

  function SkippedOf(parts: seq<Part>, eval: Evaluator): seq<string> {
    if parts == [] then []
    else
      match eval(parts[0].expr)
      case Rendered(_) => SkippedOf(parts[1..], eval)
      case Failed(reason) => ["\"" + parts[0].expr + "\" (" + reason + ")"] + SkippedOf(parts[1..], eval)
  }

  /** The edit puts the baked body of some section in place of the old one. */
  ghost predicate IsEditOf(sections: seq<BakedSection>, eval: Evaluator, e: BodyEdit) {
    exists k :: 0 <= k < |sections| && IsEditAt(sections[k], eval(sections[k].expr), e)
  }

  ghost predicate IsEditAt(s: BakedSection, evaluation: Evaluation, e: BodyEdit) {
    && evaluation.Rendered? && e.from == s.bodyFrom && e.to == s.bodyTo
    && IsNewBody(e.insert, evaluation.markdown)
  }

  lemma {:induction false} EditsAreOfSections(parts: seq<Part>, base: nat, eval: Evaluator)
    ensures |EditsOf(parts, base, eval)| + |SkippedOf(parts, eval)| == |parts|
    ensures forall i :: 0 <= i < |EditsOf(parts, base, eval)| ==>
              IsEditOf(SectionsOf(parts, base), eval, EditsOf(parts, base, eval)[i])
    decreases |parts|
  {
    if parts != [] {
      var s := SectionAt(parts[0], base);
      EditsAreOfSections(parts[1..], s.end, eval);
      var all, later := SectionsOf(parts, base), SectionsOf(parts[1..], s.end);
      var edits, rest := EditsOf(parts, base, eval), EditsOf(parts[1..], s.end, eval);
      assert all == [s] + later && all[0] == s && s.expr == parts[0].expr;
      var evaluation := eval(s.expr);
      if evaluation.Rendered? {
        WrappedIsNewBody(evaluation.markdown);
        assert IsEditAt(all[0], evaluation, edits[0]);
        assert IsEditOf(all, eval, edits[0]);
      }
      hide SectionsOf, EditsOf, IsNewBody, Wrapped, SkippedOf, IsEditAt;
      forall i | 0 <= i < |rest|
        ensures IsEditOf(all, eval, rest[i])
      {
        var k :| 0 <= k < |later| && IsEditAt(later[k], eval(later[k].expr), rest[i]);
        assert all[k + 1] == later[k];
      }
    }
  }

  /** Every section of the page is edited or reported as skipped, in page order. */
  method ComputeBakeEdits(text: string, eval: Evaluator) returns (edits: seq<BodyEdit>, skipped: seq<string>)
    ensures edits == EditsOf(Parse(text).parts, 0, eval)
    ensures skipped == SkippedOf(Parse(text).parts, eval)
    ensures |edits| + |skipped| == |Parse(text).parts|
    ensures forall i :: 0 <= i < |edits| ==> IsEditOf(SectionsOf(Parse(text).parts, 0), eval, edits[i])
  {
    hide *;
    EditsAreOfSections(Parse(text).parts, 0, eval);
    edits, skipped := [], [];
    var sections := FindBakedSections(text);
    ghost var parts := Parse(text).parts;
    ghost var base := 0;
    EditingStarts(parts, sections, eval);
    for i := 0 to |sections|
      invariant IsEditing(parts, sections, i, base, edits, skipped, eval)
    {
      var section := sections[i];
      EditingStep(parts, sections, i, base, edits, skipped, eval);
      match eval(section.expr) {
        case Failed(reason) =>
          skipped := skipped + ["\"" + section.expr + "\" (" + reason + ")"];
        case Rendered(markdown) =>
          var body := Trim(EscapeBakedBody(markdown));
          edits := edits + [BodyEdit(section.bodyFrom, section.bodyTo, "\n" + body + "\n")];
      }
      base := section.end;
    }
    EditingEnds(parts, sections, base, edits, skipped, eval);
  }

  /** The edits and reports of the first i sections. */
  ghost predicate IsEditing(
    parts: seq<Part>, sections: seq<BakedSection>, i: nat, base: nat, edits: seq<BodyEdit>, skipped: seq<string>,
    eval: Evaluator)
  {
    && i <= |sections| == |parts|
    && sections[i..] == SectionsOf(parts[i..], base)
    && edits + EditsOf(parts[i..], base, eval) == EditsOf(parts, 0, eval)
    && skipped + SkippedOf(parts[i..], eval) == SkippedOf(parts, eval)
  }

  lemma EditingStarts(parts: seq<Part>, sections: seq<BakedSection>, eval: Evaluator)
    requires sections == SectionsOf(parts, 0)
    ensures IsEditing(parts, sections, 0, 0, [], [], eval)
  {
    assert sections[0..] == sections && parts[0..] == parts;
    assert [] + EditsOf(parts, 0, eval) == EditsOf(parts, 0, eval);
    assert [] + SkippedOf(parts, eval) == SkippedOf(parts, eval);
  }

  lemma EditingStep(
    parts: seq<Part>, sections: seq<BakedSection>, i: nat, base: nat, edits: seq<BodyEdit>, skipped: seq<string>,
    eval: Evaluator)
    requires IsEditing(parts, sections, i, base, edits, skipped, eval) && i < |sections|
    ensures var s := sections[i];
            match eval(s.expr)
            case Rendered(markdown) =>
              IsEditing(parts, sections, i + 1, s.end,
                        edits + [BodyEdit(s.bodyFrom, s.bodyTo, "\n" + Trim(EscapeBakedBody(markdown)) + "\n")],
                        skipped, eval)
            case Failed(reason) =>
              IsEditing(parts, sections, i + 1, s.end, edits, skipped + ["\"" + s.expr + "\" (" + reason + ")"], eval)
  {
    hide Trim, EscapeBakedBody;
    var s := sections[i];
    assert parts[i] == parts[i..][0] && parts[i..][1..] == parts[i + 1..];
    assert s == sections[i..][0] && sections[i..][1..] == sections[i + 1..];
    assert s == SectionAt(parts[i], base) && s.expr == parts[i].expr;
    var later := EditsOf(parts[i + 1..], s.end, eval);
    var laterSkipped := SkippedOf(parts[i + 1..], eval);
    match eval(s.expr)
    case Rendered(markdown) =>
      var e := BodyEdit(s.bodyFrom, s.bodyTo, Wrapped(markdown));
      assert EditsOf(parts[i..], base, eval) == [e] + later;
      assert SkippedOf(parts[i..], eval) == laterSkipped;
      assert edits + [e] + later == edits + ([e] + later);
      return;
    case Failed(reason) =>
      var report := "\"" + s.expr + "\" (" + reason + ")";
      assert EditsOf(parts[i..], base, eval) == later;
      assert SkippedOf(parts[i..], eval) == [report] + laterSkipped;
      assert skipped + [report] + laterSkipped == skipped + ([report] + laterSkipped);
      return;
  }

  lemma EditingEnds(
    parts: seq<Part>, sections: seq<BakedSection>, base: nat, edits: seq<BodyEdit>, skipped: seq<string>,
    eval: Evaluator)
    requires IsEditing(parts, sections, |sections|, base, edits, skipped, eval)
    ensures edits == EditsOf(parts, 0, eval) && skipped == SkippedOf(parts, eval)
  {
  }

  /** The edits refer to ascending, non-overlapping stretches of t from `from` on. */
  ghost predicate InOrder(t: string, edits: seq<BodyEdit>, from: nat) {
    && from <= |t|
    && (edits == [] || (from <= edits[0].from <= edits[0].to && InOrder(t, edits[1..], edits[0].to)))
  }

  /** All edits at once: the text from `from` on with every stretch replaced. */
  function Splice(t: string, edits: seq<BodyEdit>, from: nat): string
    requires InOrder(t, edits, from)
  {
    if edits == [] then t[from..]
    else
      InOrderBounds(t, edits, from);
      t[from..edits[0].from] + edits[0].insert + Splice(t, edits[1..], edits[0].to)
  }

  lemma InOrderBounds(t: string, edits: seq<BodyEdit>, from: nat)
    requires InOrder(t, edits, from) && edits != []
    ensures edits[0].to <= |t|
  {
  }

  lemma SpliceFirst(t: string, edits: seq<BodyEdit>, from: nat)
    requires InOrder(t, edits, from)
    ensures edits == [] ==> Splice(t, edits, from) == t[from..]
    ensures edits != [] ==>
              && from <= edits[0].from <= edits[0].to <= |t| && InOrder(t, edits[1..], edits[0].to)
              && Splice(t, edits, from) == t[from..edits[0].from] + edits[0].insert + Splice(t, edits[1..], edits[0].to)
  {
    if edits != [] {
      InOrderBounds(t, edits, from);
    }
  }

  lemma InOrderEarlier(t: string, edits: seq<BodyEdit>, from: nat, to: nat)
    requires from <= to && InOrder(t, edits, to)
    ensures to <= |t| && InOrder(t, edits, from)
  {
  }

  lemma {:induction false} SpliceEarlier(t: string, edits: seq<BodyEdit>, from: nat, to: nat)
    requires from <= to && InOrder(t, edits, to)
    ensures InOrder(t, edits, from) && to <= |t|
    ensures Splice(t, edits, from) == t[from..to] + Splice(t, edits, to)
  {
    hide *;
    InOrderEarlier(t, edits, from, to);
    SpliceFirst(t, edits, from);
    SpliceFirst(t, edits, to);
    if edits == [] {
      assert t[from..] == t[from..to] + t[to..];
    } else {
      var e, rest := edits[0], Splice(t, edits[1..], edits[0].to);
      assert t[from..e.from] == t[from..to] + t[to..e.from];
      assert t[from..to] + (t[to..e.from] + e.insert + rest) == t[from..to] + t[to..e.from] + e.insert + rest;
    }
  }

  /** Applying an edit after all later ones gives what applying it with them gives. */
  lemma SpliceStep(t: string, edits: seq<BodyEdit>)
    requires InOrder(t, edits, 0) && edits != []
    ensures InOrder(t, edits[1..], 0)
    ensures var e, out := edits[0], Splice(t, edits[1..], 0);
            e.from <= e.to <= |out| && Splice(t, edits, 0) == out[..e.from] + e.insert + out[e.to..]
  {
    var e := edits[0];
    InOrderBounds(t, edits, 0);
    SpliceEarlier(t, edits[1..], 0, e.to);
    var rest := Splice(t, edits[1..], e.to);
    assert Splice(t, edits, 0) == t[0..e.from] + e.insert + rest;
    hide Splice;
    var out := t[0..e.to] + rest;
    assert out[..e.from] == t[0..e.from] && out[e.to..] == rest;
  }

  lemma {:induction false} InOrderSuffix(t: string, edits: seq<BodyEdit>, k: nat)
    requires InOrder(t, edits, 0) && k <= |edits|
    ensures InOrder(t, edits[k..], 0)
  {
    if k > 0 {
      InOrderSuffix(t, edits, k - 1);
      SpliceStep(t, edits[k - 1..]);
      assert edits[k - 1..][1..] == edits[k..];
    } else {
      assert edits[0..] == edits;
    }
  }

  /** The edits of a page lie in its bodies, and splicing them in bakes the page. */
  lemma {:induction false} EditsBakePage(t: string, parts: seq<Part>, tail: string, base: nat, eval: Evaluator)
    requires base <= |t| && t[base..] == Print(Page(parts, tail))
    ensures InOrder(t, EditsOf(parts, base, eval), base)
    ensures Splice(t, EditsOf(parts, base, eval), base) == Print(Page(RebakedParts(parts, eval), tail))
    decreases |parts|
  {
    if parts == [] {
      assert RebakedParts(parts, eval) == [];
    } else {
      var s := SectionAt(parts[0], base);
      PrintedPieces(t, parts, tail, base);
      EditsBakePage(t, parts[1..], tail, s.end, eval);
      RebakedCons(parts[0], parts[1..], eval);
      assert [parts[0]] + parts[1..] == parts;
      PrintCons(parts[0].(body := NewBody(parts[0], eval)), RebakedParts(parts[1..], eval), tail);
      hide Print, RebakedParts, Splice, InOrder, NewBody;
      SplicePart(t, parts, base, eval);
    }
  }

  lemma {:induction false} SplicePart(t: string, parts: seq<Part>, base: nat, eval: Evaluator)
    requires parts != [] && base <= |t|
    requires SectionAt(parts[0], base).end <= |t|
    requires var s := SectionAt(parts[0], base);
             && t[base..s.bodyFrom] == parts[0].gap + parts[0].opener
             && t[s.bodyFrom..s.bodyTo] == parts[0].body
             && t[s.bodyTo..s.end] == CLOSE_MARKER
             && InOrder(t, EditsOf(parts[1..], s.end, eval), s.end)
    ensures InOrder(t, EditsOf(parts, base, eval), base)
    ensures var s := SectionAt(parts[0], base);
            Splice(t, EditsOf(parts, base, eval), base) ==
            parts[0].gap + parts[0].opener + NewBody(parts[0], eval) + CLOSE_MARKER +
            Splice(t, EditsOf(parts[1..], s.end, eval), s.end)
  {
    var s, p := SectionAt(parts[0], base), parts[0];
    var rest := EditsOf(parts[1..], s.end, eval);
    assert EditsOf(parts, base, eval) ==
           if eval(p.expr).Rendered? then [BodyEdit(s.bodyFrom, s.bodyTo, NewBody(p, eval))] + rest else rest;
    assert eval(p.expr).Failed? ==> NewBody(p, eval) == p.body;
    assert base <= s.bodyFrom <= s.bodyTo <= s.end;
    hide *;
    if eval(p.expr).Rendered? {
      SpliceEarlier(t, rest, s.bodyTo, s.end);
      SpliceCons(t, BodyEdit(s.bodyFrom, s.bodyTo, NewBody(p, eval)), rest, base);
      Regroup(t[base..s.bodyFrom], NewBody(p, eval), CLOSE_MARKER, Splice(t, rest, s.end));
      return;
    } else {
      SpliceEarlier(t, rest, base, s.end);
      SliceJoin(t, base, s.bodyFrom, s.bodyTo, s.end);
      return;
    }
  }

  lemma SliceJoin(t: string, i: nat, j: nat, k: nat, l: nat)
    requires i <= j <= k <= l <= |t|
    ensures t[i..l] == t[i..j] + t[j..k] + t[k..l]
  {
  }

  lemma Regroup(a: string, b: string, c: string, d: string)
    ensures a + b + (c + d) == a + b + c + d
  {
  }

  lemma SpliceCons(t: string, e: BodyEdit, edits: seq<BodyEdit>, from: nat)
    requires from <= e.from <= e.to && InOrder(t, edits, e.to)
    ensures InOrder(t, [e] + edits, from)
    ensures e.to <= |t| && Splice(t, [e] + edits, from) == t[from..e.from] + e.insert + Splice(t, edits, e.to)
  {
    assert ([e] + edits)[1..] == edits;
  }

  /** Applying the edits back to front bakes the page. */
  method BakeSectionsInText(text: string, eval: Evaluator) returns (out: string)
    ensures out == Bake(text, eval)
  {
    hide Parse, Print, Splice, EditsOf;
    var edits, skipped := ComputeBakeEdits(text, eval);
    PrintParse(text);
    assert text[0..] == text;
    EditsBakePage(text, Parse(text).parts, Parse(text).tail, 0, eval);
    InOrderSuffix(text, edits, |edits|);
    assert edits[|edits|..] == [];
    NoEdits(text);
    out := text;
    var i := |edits| - 1;
    while i >= 0
      invariant -1 <= i < |edits|
      invariant InOrder(text, edits[i + 1..], 0) && out == Splice(text, edits[i + 1..], 0)
    {
      var e := edits[i];
      InOrderSuffix(text, edits, i);
      SpliceStep(text, edits[i..]);
      assert edits[i..][1..] == edits[i + 1..];
      out := out[..e.from] + e.insert + out[e.to..];
      i := i - 1;
    }
    assert edits[0..] == edits;
  }

  lemma NoEdits(t: string)
    ensures InOrder(t, [], 0) && Splice(t, [], 0) == t
  {
    assert t[0..] == t;
  }
}
