/** The scoring of one search token against one candidate (client/lib/fuzzy_search.ts). */
module FuzzySearch {
  import opened EditDistance
  import opened Text

  /** The Unicode operations the scorer relies on; `normalize` strips diacritics and lowers case. */
  datatype Unicode = Unicode(normalize: string -> string, lower: string -> string, upper: string -> string)

  const WORD_BOUNDARY_CHARS: set<char> := {'/', '-', '_', ' ', '.', ':'}

  predicate IsWordBoundaryAt(u: Unicode, original: string, lowered: string, i: nat)
    requires i <= |lowered|
  {
    i == 0
    || lowered[i - 1] in WORD_BOUNDARY_CHARS
    || (i < |original| &&
        var p, c := [original[i - 1]], [original[i]];
        p == u.lower(p) && p != u.upper(p) && c == u.upper(c) && c != u.lower(c))
  }

  // ---------------------------------------------------------------- typo tier

  /** How many edits a token of this length may contain. */
  function Budget(token: string): nat {
    Min(2, |token| / 4)
  }

  /** d is the least distance from the token to any substring of the candidate. */
  ghost predicate IsBestDistance(token: string, candidate: string, d: nat) {
    && (exists i, j :: 0 <= i <= j <= |candidate| && Distance(token, candidate[i..j]) == d)
    && (forall i, j :: 0 <= i <= j <= |candidate| ==> d <= Distance(token, candidate[i..j]))
  }

  /** Some substring of the candidate, of any length, is within the budget. */
  ghost predicate HasTypoMatch(token: string, candidate: string) {
    |token| >= 4 && exists i, j :: 0 <= i <= j <= |candidate| && Distance(token, candidate[i..j]) <= Budget(token)
  }

  ghost predicate IsTypoScore(token: string, candidate: string, score: real) {
    exists d: nat :: d <= Budget(token) && IsBestDistance(token, candidate, d) && score == 0.25 - 0.05 * (d as real)
  }

  lemma WindowLength(token: string, candidate: string, i: nat, j: nat)
    requires i <= j <= |candidate|
    ensures |token| - (j - i) <= Distance(token, candidate[i..j])
    ensures (j - i) - |token| <= Distance(token, candidate[i..j])
  {
    LengthBound(token, candidate[i..j]);
  }

  method TypoScore(token: string, candidate: string) returns (score: real)
    ensures score == 0.0 <==> !HasTypoMatch(token, candidate)
    ensures score != 0.0 ==> IsTypoScore(token, candidate, score)
  {
    hide Bounded, Osa;
    var max := Budget(token);
    if |token| < 4 || max < 1 {
      return 0.0;
    }
    var bestDist := max + 1;
    var len := |token| - max;
    while len <= |token| + max
      invariant |token| - max <= len <= |token| + max + 1
      invariant bestDist <= max + 1
      invariant bestDist <= max ==>
        exists i, j :: 0 <= i <= j <= |candidate| && Distance(token, candidate[i..j]) == bestDist
      invariant forall i, j :: 0 <= i <= j <= |candidate| && |token| - max <= j - i < len ==>
                                 bestDist <= Distance(token, candidate[i..j])
    {
      var start := 0;
      while start + len <= |candidate|
        invariant start >= 0
        invariant bestDist <= max + 1
        invariant bestDist <= max ==>
          exists i, j :: 0 <= i <= j <= |candidate| && Distance(token, candidate[i..j]) == bestDist
        invariant forall i, j :: 0 <= i <= j <= |candidate| && |token| - max <= j - i < len ==>
                                   bestDist <= Distance(token, candidate[i..j])
        invariant forall i, j :: 0 <= i <= j <= |candidate| && i < start && j - i == len ==>
                                   bestDist <= Distance(token, candidate[i..j])
      {
        var slice := candidate[start..start + len];
        var d := BoundedDamerauLevenshtein(token, slice, bestDist - 1);
        BoundedIsExactWithin(token, slice, bestDist - 1);
        if d < bestDist {
          bestDist := d;
        }
        if bestDist == 0 {
          break;
        }
        start := start + 1;
      }
      if bestDist == 0 {
        break;
      }
      len := len + 1;
    }
    forall i, j | 0 <= i <= j <= |candidate|
      ensures bestDist <= Distance(token, candidate[i..j])
    {
      WindowLength(token, candidate, i, j);
    }
    if bestDist > max {
      return 0.0;
    }
    assert IsBestDistance(token, candidate, bestDist);
    return 0.25 - 0.05 * (bestDist as real);
  }

  // ---------------------------------------------------------------- subsequence tier

  ghost predicate Ascending(pos: seq<int>) {
    forall k, l :: 0 <= k < l < |pos| ==> pos[k] < pos[l]
  }

  /** pos lists, in ascending order, where the characters of the token sit in the candidate. */
  ghost predicate IsEmbedding(token: string, candidate: string, pos: seq<int>) {
    && |pos| == |token|
    && (forall k :: 0 <= k < |pos| ==> 0 <= pos[k] < |candidate| && candidate[pos[k]] == token[k])
    && Ascending(pos)
  }

  ghost predicate IsSubsequence(token: string, candidate: string) {
    exists pos :: IsEmbedding(token, candidate, pos)
  }

  /** Every character sits at least as far left as in any other embedding. */
  ghost predicate IsLeftmost(token: string, candidate: string, pos: seq<int>) {
    && IsEmbedding(token, candidate, pos)
    && (forall q :: IsEmbedding(token, candidate, q) ==> NeverRightOf(pos, q))
  }

  ghost predicate NeverRightOf(pos: seq<int>, q: seq<int>) {
    |pos| == |q| && forall k :: 0 <= k < |pos| ==> pos[k] <= q[k]
  }

  /** The lengths of the maximal runs of adjacent positions. */
  function Runs(pos: seq<int>): (r: seq<nat>)
    ensures pos != [] ==> r != []
  {
    if pos == [] then []
    else
      var n := |pos| - 1;
      var r := Runs(pos[..n]);
      if n > 0 && pos[n] == pos[n - 1] + 1 then r[..|r| - 1] + [r[|r| - 1] + 1] else r + [1]
  }

  function Sum(xs: seq<nat>): nat {
    if xs == [] then 0 else Sum(xs[..|xs| - 1]) + xs[|xs| - 1]
  }

  function Square(n: int): int {
    n * n
  }

  function SumOfSquares(xs: seq<nat>): int {
    if xs == [] then 0 else SumOfSquares(xs[..|xs| - 1]) + Square(xs[|xs| - 1])
  }

  predicate Within(pos: seq<int>, n: nat) {
    forall k :: 0 <= k < |pos| ==> 0 <= pos[k] < n
  }

  function BoundaryHits(u: Unicode, original: string, lowered: string, pos: seq<int>): (hits: nat)
    requires Within(pos, |lowered|)
    ensures hits <= |pos|
  {
    if pos == [] then 0
    else
      var n := |pos| - 1;
      BoundaryHits(u, original, lowered, pos[..n]) + (if IsWordBoundaryAt(u, original, lowered, pos[n]) then 1 else 0)
  }

  lemma {:induction false} RunsCoverPositions(pos: seq<int>)
    ensures Sum(Runs(pos)) == |pos|
  {
    if pos != [] {
      var r := Runs(pos[..|pos| - 1]);
      RunsCoverPositions(pos[..|pos| - 1]);
      assert (r + [1])[..|r|] == r;
      if r != [] {
        assert (r[..|r| - 1] + [r[|r| - 1] + 1])[..|r| - 1] == r[..|r| - 1];
      }
    }
  }

  lemma {:induction false} SquaresAtMostSquare(xs: seq<nat>)
    ensures 0 <= SumOfSquares(xs) <= Square(Sum(xs))
  {
    if xs != [] {
      var s, x := Sum(xs[..|xs| - 1]), xs[|xs| - 1];
      SquaresAtMostSquare(xs[..|xs| - 1]);
      assert Square(s + x) == Square(s) + 2 * (s * x) + Square(x);
    }
  }

  function Span(pos: seq<int>): int {
    if pos == [] then 0 else pos[|pos| - 1] - pos[0] + 1
  }

  function Share(x: real, y: real): real
    requires y > 0.0
  {
    x / y
  }

  lemma ShareInUnit(x: real, y: real)
    requires 0.0 <= x <= y && 0.0 < y
    ensures 0.0 <= Share(x, y) <= 1.0
    ensures x > 0.0 ==> 0.0 < Share(x, y)
  {
  }

  /** Density of the span, squares of the runs and word-boundary hits, scaled above 0.3. */
  function Weighted(length: nat, span: int, runSquares: int, hits: int): real
    requires length > 0 && span > 0
  {
    var n := length as real;
    var density := Share(n, span as real);
    var boundaryBonus := Share(hits as real, n);
    var contiguityBonus := Share(runSquares as real, Square(length) as real);
    var raw := 0.5 * density + 0.3 * contiguityBonus + 0.2 * boundaryBonus;
    0.3 + raw * 0.35
  }

  lemma {:induction false} SpanAtLeastLength(pos: seq<int>)
    requires pos != [] && Ascending(pos)
    ensures Span(pos) >= |pos|
  {
    if |pos| > 1 {
      SpanAtLeastLength(pos[..|pos| - 1]);
    }
  }

  /** The weights add up to one, so shares of at most one stay within the band. */
  lemma WeightedBand(length: nat, span: int, runSquares: int, hits: int)
    requires 0 < length <= span && 0 <= runSquares <= Square(length) && 0 <= hits <= length
    ensures 0.3 < Weighted(length, span, runSquares, hits) <= 0.65
  {
    hide Share;
    ShareInUnit(length as real, span as real);
    ShareInUnit(runSquares as real, Square(length) as real);
    ShareInUnit(hits as real, length as real);
  }

  /** pos lists, from ci on, where consecutive characters of the token from ti on sit. */
  ghost predicate Tracks(token: string, candidate: string, ti: nat, ci: nat, pos: seq<int>) {
    && ti + |pos| <= |token|
    && (forall k :: 0 <= k < |pos| ==> ci <= pos[k] < |candidate| && candidate[pos[k]] == token[ti + k])
    && Ascending(pos)
  }

  /** The positions that a left-to-right scan from (ti, ci) matches. */
  function Greedy(token: string, candidate: string, ti: nat, ci: nat): (pos: seq<int>)
    requires ti <= |token|
    ensures Tracks(token, candidate, ti, ci, pos)
    decreases |candidate| - ci
  {
    if ci >= |candidate| || ti == |token| then []
    else if candidate[ci] == token[ti] then [ci] + Greedy(token, candidate, ti + 1, ci + 1)
    else Greedy(token, candidate, ti, ci + 1)
  }

  lemma GreedyStep(token: string, candidate: string, pos: seq<int>, ti: nat, ci: nat)
    requires ti <= |token|
    ensures ci < |candidate| && ti < |token| && candidate[ci] == token[ti] ==>
              && Greedy(token, candidate, ti, ci) == [ci] + Greedy(token, candidate, ti + 1, ci + 1)
              && pos + Greedy(token, candidate, ti, ci) == (pos + [ci]) + Greedy(token, candidate, ti + 1, ci + 1)
    ensures ci < |candidate| && ti < |token| && candidate[ci] != token[ti] ==>
              Greedy(token, candidate, ti, ci) == Greedy(token, candidate, ti, ci + 1)
    ensures ci >= |candidate| || ti == |token| ==>
              Greedy(token, candidate, ti, ci) == [] && pos + Greedy(token, candidate, ti, ci) == pos
  {
  }

  /** No embedding gets ahead of the scan, and one that starts late enough lets the scan finish. */
  lemma {:induction false} GreedyIsLeftmost(token: string, candidate: string, q: seq<int>, ti: nat, ci: nat)
    requires ti <= |token| && IsEmbedding(token, candidate, q) && (ti < |token| ==> ci <= q[ti])
    ensures NeverRightOf(Greedy(token, candidate, ti, ci), q[ti..])
    decreases |candidate| - ci
  {
    GreedyStep(token, candidate, [], ti, ci);
    if ti < |token| {
      assert ti + 1 < |token| ==> q[ti] < q[ti + 1];
      if candidate[ci] == token[ti] {
        GreedyIsLeftmost(token, candidate, q, ti + 1, ci + 1);
        PrependNeverRightOf(ci, Greedy(token, candidate, ti + 1, ci + 1), q, ti);
      } else {
        GreedyIsLeftmost(token, candidate, q, ti, ci + 1);
      }
    }
  }

  lemma PrependNeverRightOf(x: int, rest: seq<int>, q: seq<int>, n: nat)
    requires n < |q| && x <= q[n] && NeverRightOf(rest, q[n + 1..])
    ensures NeverRightOf([x] + rest, q[n..])
  {
    assert q[n..] == [q[n]] + q[n + 1..];
  }

  lemma GreedyDecides(token: string, candidate: string)
    ensures var pos := Greedy(token, candidate, 0, 0);
            && (|pos| == |token| <==> IsSubsequence(token, candidate))
            && (|pos| == |token| ==> IsLeftmost(token, candidate, pos))
  {
    var pos := Greedy(token, candidate, 0, 0);
    forall q | IsEmbedding(token, candidate, q)
      ensures NeverRightOf(pos, q)
    {
      GreedyIsLeftmost(token, candidate, q, 0, 0);
      assert q[0..] == q;
    }
    if |pos| == |token| {
      assert IsEmbedding(token, candidate, pos);
    }
  }

  /** What the scan has accumulated about the positions matched so far. */
  ghost predicate Tally(pos: seq<int>, firstMatch: int, lastMatch: int, closedRuns: int, currentRun: int) {
    if pos == [] then firstMatch == -1 && closedRuns == 0 && currentRun == 0
    else
      var r := Runs(pos);
      && firstMatch == pos[0] && lastMatch == pos[|pos| - 1]
      && currentRun == r[|r| - 1] && closedRuns == SumOfSquares(r[..|r| - 1])
  }

  lemma TallyStep(pos: seq<int>, firstMatch: int, lastMatch: int, closedRuns: int, currentRun: int, ci: nat)
    requires Tally(pos, firstMatch, lastMatch, closedRuns, currentRun)
    ensures pos != [] && ci == lastMatch + 1 ==> Tally(pos + [ci], firstMatch, ci, closedRuns, currentRun + 1)
    ensures pos == [] || ci != lastMatch + 1 ==>
              Tally(pos + [ci], if pos == [] then ci else firstMatch, ci, closedRuns + Square(currentRun), 1)
  {
    var r, after := Runs(pos), Runs(pos + [ci]);
    assert Square(0) == 0;
    hide Square;
    assert (pos + [ci])[..|pos|] == pos;
    if pos != [] && ci == lastMatch + 1 {
      assert after[..|after| - 1] == r[..|r| - 1];
    } else {
      assert after == r + [1] && after[..|after| - 1] == r;
    }
  }

  lemma HitsStep(u: Unicode, original: string, lowered: string, pos: seq<int>, ci: nat)
    requires ci < |lowered| && Within(pos, |lowered|)
    ensures Within(pos + [ci], |lowered|)
    ensures BoundaryHits(u, original, lowered, pos + [ci]) ==
            BoundaryHits(u, original, lowered, pos) + (if IsWordBoundaryAt(u, original, lowered, ci) then 1 else 0)
  {
    assert (pos + [ci])[..|pos|] == pos;
  }

  /** What the scan reports: the leftmost embedding, its span, the squares of its runs, its boundary hits. */
  ghost predicate Measures(u: Unicode, token: string, candidate: string, original: string, pos: seq<int>,
                           span: int, runSquares: int, hits: int)
  {
    && IsLeftmost(token, candidate, pos)
    && span == Span(pos)
    && runSquares == SumOfSquares(Runs(pos))
    && Within(pos, |candidate|) && hits == BoundaryHits(u, original, candidate, pos)
  }

  lemma MeasuresInBand(u: Unicode, token: string, candidate: string, original: string, pos: seq<int>,
                       span: int, runSquares: int, hits: int)
    requires token != "" && Measures(u, token, candidate, original, pos, span, runSquares, hits)
    ensures span >= |token| && 0.3 < Weighted(|token|, span, runSquares, hits) <= 0.65
  {
    SpanAtLeastLength(pos);
    RunsCoverPositions(pos);
    SquaresAtMostSquare(Runs(pos));
    WeightedBand(|token|, span, runSquares, hits);
  }

  lemma TallyEnd(pos: seq<int>, firstMatch: int, lastMatch: int, closedRuns: int, currentRun: int)
    requires Tally(pos, firstMatch, lastMatch, closedRuns, currentRun)
    ensures closedRuns + Square(currentRun) == SumOfSquares(Runs(pos))
    ensures pos != [] ==> lastMatch - firstMatch + 1 == Span(pos)
  {
    assert Square(0) == 0;
    hide Square;
  }

  /** The state of the scan at candidate[ci], with pos matched so far. */
  ghost predicate ScanState(u: Unicode, token: string, candidate: string, original: string, pos: seq<int>, ci: nat,
                            firstMatch: int, lastMatch: int, closedRuns: int, currentRun: int, hits: int)
  {
    && |pos| <= |token|
    && Greedy(token, candidate, 0, 0) == pos + Greedy(token, candidate, |pos|, ci)
    && Tally(pos, firstMatch, lastMatch, closedRuns, currentRun)
    && Within(pos, |candidate|) && hits == BoundaryHits(u, original, candidate, pos)
  }

  lemma ScanStep(u: Unicode, token: string, candidate: string, original: string, pos: seq<int>, ci: nat,
                 firstMatch: int, lastMatch: int, closedRuns: int, currentRun: int, hits: int)
    requires ScanState(u, token, candidate, original, pos, ci, firstMatch, lastMatch, closedRuns, currentRun, hits)
    requires ci < |candidate| && |pos| < |token|
    ensures candidate[ci] != token[|pos|] ==>
              ScanState(u, token, candidate, original, pos, ci + 1, firstMatch, lastMatch, closedRuns, currentRun, hits)
    ensures candidate[ci] == token[|pos|] ==>
              var adjacent := pos != [] && ci == lastMatch + 1;
              ScanState(u, token, candidate, original, pos + [ci], ci + 1,
                        if pos == [] then ci else firstMatch, ci,
                        if adjacent then closedRuns else closedRuns + Square(currentRun),
                        if adjacent then currentRun + 1 else 1,
                        if IsWordBoundaryAt(u, original, candidate, ci) then hits + 1 else hits)
  {
    GreedyStep(token, candidate, pos, |pos|, ci);
    TallyStep(pos, firstMatch, lastMatch, closedRuns, currentRun, ci);
    HitsStep(u, original, candidate, pos, ci);
    hide Greedy, Tally, BoundaryHits, Within, Square, IsWordBoundaryAt;
  }

  lemma ScanEnd(u: Unicode, token: string, candidate: string, original: string, pos: seq<int>, ci: nat,
                firstMatch: int, lastMatch: int, closedRuns: int, currentRun: int, hits: int)
    requires token != "" && (ci >= |candidate| || |pos| == |token|)
    requires ScanState(u, token, candidate, original, pos, ci, firstMatch, lastMatch, closedRuns, currentRun, hits)
    ensures |pos| == |token| <==> IsSubsequence(token, candidate)
    ensures |pos| == |token| ==>
              Measures(u, token, candidate, original, pos, lastMatch - firstMatch + 1,
                       closedRuns + Square(currentRun), hits)
  {
    GreedyStep(token, candidate, pos, |pos|, ci);
    TallyEnd(pos, firstMatch, lastMatch, closedRuns, currentRun);
    hide IsEmbedding, IsLeftmost, Greedy, Square, Tally, Runs, SumOfSquares, BoundaryHits, Span;
    GreedyDecides(token, candidate);
  }

  /** The greedy scan: succeeds exactly on subsequences, and then measures the leftmost embedding. */
  method Scan(u: Unicode, token: string, candidate: string, candidateOriginal: string)
    returns (found: bool, span: int, runSquares: int, hits: int, ghost pos: seq<int>)
    requires token != ""
    ensures found <==> IsSubsequence(token, candidate)
    ensures found ==> Measures(u, token, candidate, candidateOriginal, pos, span, runSquares, hits)
  {
    var ti, firstMatch, lastMatch, contiguousRunSum, currentRun, boundaryHits, prevMatchCi := 0, -1, -1, 0, 0, 0, -2;
    pos := [];
    var ci := 0;
    assert ScanState(u, token, candidate, candidateOriginal, pos, ci,
                     firstMatch, lastMatch, contiguousRunSum, currentRun, boundaryHits);
    hide ScanState, Square, IsSubsequence, Measures, IsWordBoundaryAt;
    while ci < |candidate| && ti < |token|
      invariant 0 <= ci <= |candidate| && |pos| == ti <= |token|
      invariant ScanState(u, token, candidate, candidateOriginal, pos, ci,
                          firstMatch, lastMatch, contiguousRunSum, currentRun, boundaryHits)
      invariant firstMatch < 0 <==> ti == 0
      invariant prevMatchCi == if ti == 0 then -2 else lastMatch
    {
      ScanStep(u, token, candidate, candidateOriginal, pos, ci,
               firstMatch, lastMatch, contiguousRunSum, currentRun, boundaryHits);
      if candidate[ci] == token[ti] {
        if firstMatch < 0 {
          firstMatch := ci;
        }
        lastMatch := ci;
        if IsWordBoundaryAt(u, candidateOriginal, candidate, ci) {
          boundaryHits := boundaryHits + 1;
        }
        if ci == prevMatchCi + 1 {
          currentRun := currentRun + 1;
        } else {
          contiguousRunSum := contiguousRunSum + Square(currentRun);
          currentRun := 1;
        }
        prevMatchCi := ci;
        pos := pos + [ci];
        ti := ti + 1;
      }
      ci := ci + 1;
    }
    ScanEnd(u, token, candidate, candidateOriginal, pos, ci,
            firstMatch, lastMatch, contiguousRunSum, currentRun, boundaryHits);
    contiguousRunSum := contiguousRunSum + Square(currentRun);
    if ti < |token| {
      return false, 0, 0, 0, pos;
    }
    return true, lastMatch - firstMatch + 1, contiguousRunSum, boundaryHits, pos;
  }

  ghost predicate IsSubsequenceScore(u: Unicode, token: string, candidate: string, original: string, score: real)
    requires token != ""
  {
    exists pos, span, runSquares, hits ::
      && Measures(u, token, candidate, original, pos, span, runSquares, hits)
      && span > 0 && score == Weighted(|token|, span, runSquares, hits)
  }

  /** Zero exactly when the token is no subsequence; otherwise the weighted score of the leftmost embedding. */
  method SubsequenceScore(u: Unicode, token: string, candidate: string, candidateOriginal: string) returns (score: real)
    requires token != ""
    ensures score == 0.0 <==> !IsSubsequence(token, candidate)
    ensures score != 0.0 ==> 0.3 < score <= 0.65
    ensures score != 0.0 ==> IsSubsequenceScore(u, token, candidate, candidateOriginal, score)
  {
    hide Weighted, SumOfSquares, Runs, Square;
    var found, span, runSquares, hits, pos := Scan(u, token, candidate, candidateOriginal);
    if !found {
      return 0.0;
    }
    MeasuresInBand(u, token, candidate, candidateOriginal, pos, span, runSquares, hits);
    score := Weighted(|token|, span, runSquares, hits);
  }

  // ---------------------------------------------------------------- all tiers

  datatype Tier = Exact | Prefix | WordSubstring | Substring | Subsequence | Typo | NoMatch

  ghost predicate OccursAtBoundary(u: Unicode, t: string, c: string, original: string) {
    exists i :: OccursAt(c, t, i) && IsWordBoundaryAt(u, original, c, i)
  }

  /** The strongest way in which the normalized token t matches the normalized candidate c. */
  ghost function TierOf(u: Unicode, t: string, c: string, original: string): Tier {
    if c == t then Exact
    else if t <= c then Prefix
    else if OccursAtBoundary(u, t, c, original) then WordSubstring
    else if |t| > 2 && Occurs(c, t) then Substring
    else if |t| > 2 && IsSubsequence(t, c) then Subsequence
    else if HasTypoMatch(t, c) then Typo
    else NoMatch
  }

  predicate InBand(tier: Tier, score: real) {
    match tier
    case Exact => score == 1.0
    case Prefix => score == 0.95
    case WordSubstring => score == 0.8
    case Substring => score == 0.75
    case Subsequence => 0.3 < score <= 0.65
    case Typo => score == 0.2 || score == 0.15
    case NoMatch => score == 0.0
  }

  function Rank(tier: Tier): nat {
    match tier
    case Exact => 6
    case Prefix => 5
    case WordSubstring => 4
    case Substring => 3
    case Subsequence => 2
    case Typo => 1
    case NoMatch => 0
  }

  /** The bands descend without overlap, so a better tier always scores more. */
  lemma BandsDescend(tier1: Tier, score1: real, tier2: Tier, score2: real)
    requires InBand(tier1, score1) && InBand(tier2, score2)
    ensures Rank(tier1) > Rank(tier2) ==> score1 > score2
    ensures score1 > score2 ==> Rank(tier1) >= Rank(tier2)
  {
  }

  /** A distance of zero means equality, so a zero-edit window is an occurrence of the token. */
  lemma ZeroEditsIsOccurrence(t: string, c: string)
    requires IsBestDistance(t, c, 0)
    ensures Occurs(c, t)
  {
    var i, j :| 0 <= i <= j <= |c| && Distance(t, c[i..j]) == 0;
    DistanceIsLeastCost(t, c[i..j], 0);
    var script :| OldText(script) == t && NewText(script) == c[i..j] && TotalCost(script) == 0;
    FreeScriptCopies(script);
    assert OccursAt(c, t, i);
  }

  lemma {:induction false} FreeScriptCopies(script: seq<Edit>)
    requires TotalCost(script) == 0
    ensures OldText(script) == NewText(script)
  {
    if script != [] {
      FreeScriptCopies(script[..|script| - 1]);
    }
  }

  /** Finds an occurrence, preferring the first one at a word boundary. */
  method BestOccurrence(u: Unicode, t: string, c: string, cOrig: string) returns (bestIdx: int, bestBoundary: bool)
    requires t != ""
    ensures bestIdx >= 0 <==> Occurs(c, t)
    ensures bestIdx >= 0 ==> OccursAt(c, t, bestIdx)
    ensures bestBoundary <==> OccursAtBoundary(u, t, c, cOrig)
    ensures bestBoundary ==> bestIdx >= 0 && IsWordBoundaryAt(u, cOrig, c, bestIdx)
  {
    hide IsWordBoundaryAt, IndexOf;
    ghost var starts := set i | 0 <= i <= |c| && IsWordBoundaryAt(u, cOrig, c, i);
    bestIdx, bestBoundary := -1, false;
    var idx := IndexOf(c, t, 0);
    while idx >= 0
      invariant idx == -1 || (0 <= idx && OccursAt(c, t, idx))
      invariant bestIdx == -1 || (0 <= bestIdx && OccursAt(c, t, bestIdx))
      invariant !bestBoundary && (bestIdx == -1 ==> forall i :: OccursAt(c, t, i) ==> 0 <= idx <= i)
      invariant forall i :: OccursAt(c, t, i) && i in starts ==> 0 <= idx <= i
      decreases if idx == -1 then 0 else |c| + 1 - idx
    {
      var boundary := IsWordBoundaryAt(u, cOrig, c, idx);
      if bestIdx < 0 || (boundary && !bestBoundary) {
        bestIdx := idx;
        bestBoundary := boundary;
        if boundary {
          break;
        }
      }
      idx := IndexOf(c, t, idx + 1);
    }
  }

  /** The score lies in the band of the strongest tier; within the two lowest tiers it is the score of
      the leftmost embedding, or of the least distance to a substring. */
  method ScoreToken(u: Unicode, token: string, candidate: string) returns (score: real)
    ensures token == "" ==> score == 0.0
    ensures token != "" ==>
              var t, c := u.normalize(token), u.normalize(candidate);
              var tier := TierOf(u, t, c, candidate);
              && InBand(tier, score)
              && (tier == Subsequence ==> IsSubsequenceScore(u, t, c, candidate, score))
              && (tier == Typo ==> IsTypoScore(t, c, score))
  {
    if token == "" {
      return 0.0;
    }
    var t := u.normalize(token);
    var cOrig := candidate;
    var c := u.normalize(candidate);
    if c == t {
      return 1.0;
    }
    if t <= c {
      return if IsWordBoundaryAt(u, cOrig, c, 0) then 0.95 else 0.9;
    }
    var bestIdx, bestBoundary := BestOccurrence(u, t, c, cOrig);
    if bestIdx >= 0 {
      if |t| > 2 || bestBoundary {
        return if bestBoundary then 0.8 else 0.75;
      }
    }
    if |t| > 2 {
      var subseq := SubsequenceScore(u, t, c, cOrig);
      if subseq > 0.0 {
        return subseq;
      }
    }
    var typo := TypoScore(t, c);
    if typo > 0.0 {
      ghost var d: nat :| d <= Budget(t) && IsBestDistance(t, c, d) && typo == 0.25 - 0.05 * (d as real);
      if d == 0 {
        ZeroEditsIsOccurrence(t, c);
      }
      return typo;
    }
    return 0.0;
  }
}
