/** What a subsequence score is made of, said from the positions of the match alone. */
module FuzzyLaws {
  import opened FuzzySearch

  // ---------------------------------------------------------------- runs

  /** i and j sit in one stretch of adjacent positions. */
  ghost predicate SameRun(pos: seq<int>, i: nat, j: nat) {
    i < |pos| && j < |pos| && pos[j] - pos[i] == j - i
  }

  ghost function PairsInRuns(pos: seq<int>): set<(nat, nat)> {
    set i: nat, j: nat | i < |pos| && j < |pos| && SameRun(pos, i, j) :: (i, j)
  }

  /** The character sits in one stretch with the last one. */
  ghost predicate InLastRun(pos: seq<int>, i: nat) {
    i < |pos| && SameRun(pos, i, |pos| - 1)
  }

  /** The last run is as long as the stretch of adjacent positions at the end. */
  lemma {:induction false} LastRunIs(pos: seq<int>)
    requires pos != [] && Ascending(pos)
    ensures 1 <= LastRun(pos) <= |pos|
    ensures forall i: nat :: InLastRun(pos, i) <==> |pos| - LastRun(pos) <= i < |pos|
  {
    var n := |pos| - 1;
    var init := pos[..n];
    if n > 0 {
      LastRunIs(init);
    }
    AscendingGap(pos);
    var l := LastRun(pos);
    assert l == if n > 0 && pos[n] == pos[n - 1] + 1 then LastRun(init) + 1 else 1;
    hide Ascending, Runs;
    forall i: nat
      ensures InLastRun(pos, i) <==> |pos| - l <= i < |pos|
    {
      if i < n {
        assert pos[i] == init[i] && init[n - 1] == pos[n - 1];
        assert pos[n] == pos[n - 1] + 1 ==> (InLastRun(pos, i) <==> InLastRun(init, i));
        assert pos[n - 1] - pos[i] >= n - 1 - i;
      }
    }
  }

  function LastRun(pos: seq<int>): nat
    requires pos != []
  {
    Runs(pos)[|Runs(pos)| - 1]
  }

  lemma {:induction false} AscendingGap(pos: seq<int>)
    requires pos != [] && Ascending(pos)
    ensures forall i: nat :: i < |pos| ==> pos[|pos| - 1] - pos[i] >= |pos| - 1 - i
    ensures |pos| > 1 ==> forall i: nat :: i < |pos| - 1 ==> pos[|pos| - 2] - pos[i] >= |pos| - 2 - i
  {
    if |pos| > 1 {
      AscendingGap(pos[..|pos| - 1]);
    }
  }

  ghost function Interval(a: nat, b: nat): (s: set<nat>)
    ensures forall i :: i in s <==> a <= i < b
    ensures a <= b ==> |s| == b - a
  {
    if a >= b then {} else Interval(a, b - 1) + {b - 1}
  }

  ghost function PairedWith(s: set<nat>, n: nat): set<(nat, nat)> {
    set i | i in s :: (i, n)
  }

  lemma {:induction false} PairedSize(s: set<nat>, n: nat)
    ensures |PairedWith(s, n)| == |s|
    decreases |s|
  {
    if s == {} {
      assert PairedWith(s, n) == {};
    } else {
      var x :| x in s;
      PairedSize(s - {x}, n);
      assert PairedWith(s, n) == PairedWith(s - {x}, n) + {(x, n)};
    }
  }

  ghost function Flipped(s: set<nat>, n: nat): set<(nat, nat)> {
    set i | i in s :: (n, i)
  }

  lemma {:induction false} FlippedSize(s: set<nat>, n: nat)
    ensures |Flipped(s, n)| == |s|
    decreases |s|
  {
    if s == {} {
      assert Flipped(s, n) == {};
    } else {
      var x :| x in s;
      FlippedSize(s - {x}, n);
      assert Flipped(s, n) == Flipped(s - {x}, n) + {(n, x)};
    }
  }

  /** The squares of the runs count the pairs of characters that sit in one run. */
  lemma {:induction false} SquaresCountPairs(pos: seq<int>)
    requires Ascending(pos)
    ensures SumOfSquares(Runs(pos)) == |PairsInRuns(pos)|
  {
    if pos == [] {
      assert PairsInRuns(pos) == {};
      return;
    }
    var n := |pos| - 1;
    var init := pos[..n];
    SquaresCountPairs(init);
    LastRunIs(pos);
    RunsStep(pos);
    hide Runs, SumOfSquares, Ascending;
    SquaresGrow(Runs(init), n > 0 && pos[n] == pos[n - 1] + 1);
    PairsGrow(pos, LastRun(pos));
  }

  lemma SumOfAdded(xs: seq<nat>, x: nat)
    ensures SumOfSquares(xs + [x]) == SumOfSquares(xs) + Square(x)
  {
    assert (xs + [x])[..|xs|] == xs;
    hide Square;
  }

  lemma SquareGrows(x: nat)
    ensures Square(x + 1) == Square(x) + 2 * x + 1
  {
  }

  lemma {:induction false} RunsStep(pos: seq<int>)
    requires pos != []
    ensures var n := |pos| - 1;
            var r := Runs(pos[..n]);
            Runs(pos) ==
            if n > 0 && pos[n] == pos[n - 1] + 1 then r[..|r| - 1] + [r[|r| - 1] + 1] else r + [1]
  {
  }

  /** Lengthening the last run, or beginning another. */
  lemma SquaresGrow(r: seq<nat>, joined: bool)
    requires joined ==> r != []
    ensures var after := if joined then r[..|r| - 1] + [r[|r| - 1] + 1] else r + [1];
            SumOfSquares(after) == SumOfSquares(r) + 2 * after[|after| - 1] - 1
  {
    hide SumOfSquares, Square;
    if joined {
      var m, x := |r| - 1, r[|r| - 1];
      assert r == r[..m] + [x];
      SumOfAdded(r[..m], x);
      SumOfAdded(r[..m], x + 1);
      SquareGrows(x);
    } else {
      SumOfAdded(r, 1);
      SquareGrows(0);
      SquareOfZero();
    }
  }

  lemma SquareOfZero()
    ensures Square(0) == 0
  {
  }

  lemma PairsGrow(pos: seq<int>, l: nat)
    requires pos != [] && 1 <= l <= |pos|
    requires forall i: nat :: InLastRun(pos, i) <==> |pos| - l <= i < |pos|
    ensures |PairsInRuns(pos)| == |PairsInRuns(pos[..|pos| - 1])| + 2 * l - 1
  {
    var n := |pos| - 1;
    var earlier, tail := PairsInRuns(pos[..n]), Interval(|pos| - l, n);
    var left, right := PairedWith(tail, n), Flipped(tail, n);
    PairedSize(tail, n);
    FlippedSize(tail, n);
    forall i: nat, j: nat
      ensures i < n && j < n ==> (SameRun(pos, i, j) <==> SameRun(pos[..n], i, j))
      ensures SameRun(pos, i, j) <==> SameRun(pos, j, i)
    {
    }
    PairsSplit(pos, l);
    assert earlier !! left && earlier !! right && left !! right && (n, n) !in earlier + left + right;
  }

  lemma PairsSplit(pos: seq<int>, l: nat)
    requires pos != [] && 1 <= l <= |pos|
    requires forall i: nat :: InLastRun(pos, i) <==> |pos| - l <= i < |pos|
    ensures var n, tail := |pos| - 1, Interval(|pos| - l, |pos| - 1);
            PairsInRuns(pos) == PairsInRuns(pos[..n]) + PairedWith(tail, n) + Flipped(tail, n) + {(n, n)}
  {
    hide *;
    var n, tail := |pos| - 1, Interval(|pos| - l, |pos| - 1);
    var sum := PairsInRuns(pos[..n]) + PairedWith(tail, n) + Flipped(tail, n) + {(n, n)};
    forall i: nat, j: nat
      ensures (i, j) in PairsInRuns(pos) <==> (i, j) in sum
    {
      PairSplits(pos, l, i, j);
    }
    SamePairs(PairsInRuns(pos), sum);
  }

  lemma SamePairs(a: set<(nat, nat)>, b: set<(nat, nat)>)
    requires forall i: nat, j: nat :: (i, j) in a <==> (i, j) in b
    ensures a == b
  {
    forall x: (nat, nat)
      ensures x in a <==> x in b
    {
      assert x == (x.0, x.1);
    }
  }

  lemma PairSplits(pos: seq<int>, l: nat, i: nat, j: nat)
    requires pos != [] && 1 <= l <= |pos|
    requires forall i: nat :: InLastRun(pos, i) <==> |pos| - l <= i < |pos|
    ensures var n, tail := |pos| - 1, Interval(|pos| - l, |pos| - 1);
            (i, j) in PairsInRuns(pos) <==>
            (i, j) in PairsInRuns(pos[..n]) + PairedWith(tail, n) + Flipped(tail, n) + {(n, n)}
  {
    var n, tail := |pos| - 1, Interval(|pos| - l, |pos| - 1);
    assert (i, j) in PairsInRuns(pos) <==> SameRun(pos, i, j);
    assert (i, j) in PairsInRuns(pos[..n]) <==> SameRun(pos[..n], i, j);
    assert (i, j) in PairedWith(tail, n) <==> i in tail && j == n;
    assert (i, j) in Flipped(tail, n) <==> j in tail && i == n;
    hide PairsInRuns, PairedWith, Flipped, Interval;
    assert InLastRun(pos, i) <==> i in tail || i == n;
    assert InLastRun(pos, j) <==> j in tail || j == n;
  }

  // ---------------------------------------------------------------- boundary hits

  ghost function HitAt(u: Unicode, original: string, lowered: string, pos: seq<int>): set<nat>
    requires Within(pos, |lowered|)
  {
    set k: nat | k < |pos| && IsWordBoundaryAt(u, original, lowered, pos[k])
  }

  /** The hits are the matched characters at a word boundary. */
  lemma {:induction false} HitsCountBoundaries(u: Unicode, original: string, lowered: string, pos: seq<int>)
    requires Within(pos, |lowered|)
    ensures BoundaryHits(u, original, lowered, pos) == |HitAt(u, original, lowered, pos)|
  {
    hide IsWordBoundaryAt;
    if pos == [] {
      assert HitAt(u, original, lowered, pos) == {};
    } else {
      var n := |pos| - 1;
      HitsCountBoundaries(u, original, lowered, pos[..n]);
      assert HitAt(u, original, lowered, pos) ==
             HitAt(u, original, lowered, pos[..n])
             + (if IsWordBoundaryAt(u, original, lowered, pos[n]) then {n} else {});
    }
  }

  predicate IsLowerLetter(u: Unicode, c: char) {
    u.lower([c]) == [c] && u.upper([c]) != [c]
  }

  predicate IsUpperLetter(u: Unicode, c: char) {
    u.upper([c]) == [c] && u.lower([c]) != [c]
  }

  /** The start, the place after a slash, dash, underscore, space, dot or colon, and else where the original goes from a
      lower-case letter to an upper-case one. */
  lemma BoundariesAre(u: Unicode, original: string, lowered: string, i: nat)
    requires i <= |lowered|
    ensures i == 0 ==> IsWordBoundaryAt(u, original, lowered, i)
    ensures i > 0 && lowered[i - 1] in "/-_ .:" ==> IsWordBoundaryAt(u, original, lowered, i)
    ensures i > 0 && lowered[i - 1] !in "/-_ .:" ==>
              (IsWordBoundaryAt(u, original, lowered, i) <==>
               i < |original| && IsLowerLetter(u, original[i - 1]) && IsUpperLetter(u, original[i]))
  {
  }

  // ---------------------------------------------------------------- how a score is weighed

  lemma LeftmostIsUnique(token: string, candidate: string, p: seq<int>, q: seq<int>)
    requires IsLeftmost(token, candidate, p) && IsLeftmost(token, candidate, q)
    ensures p == q
  {
    assert NeverRightOf(p, q) && NeverRightOf(q, p);
  }

  /** A score has its measures: span, squares of the runs and boundary hits of the leftmost embedding. */
  lemma ScoreIsOfMeasures(
    u: Unicode, token: string, candidate: string, original: string,
    pos: seq<int>, span: int, runSquares: int, hits: int, score: real)
    requires token != "" && Measures(u, token, candidate, original, pos, span, runSquares, hits)
    requires IsSubsequenceScore(u, token, candidate, original, score)
    ensures span > 0 && score == Weighted(|token|, span, runSquares, hits)
  {
    var pos', span', runSquares', hits' :|
      && Measures(u, token, candidate, original, pos', span', runSquares', hits')
      && span' > 0 && score == Weighted(|token|, span', runSquares', hits');
    LeftmostIsUnique(token, candidate, pos, pos');
    hide Weighted, Runs, SumOfSquares, BoundaryHits, IsLeftmost, Span;
  }

  function Times(x: real, y: real): real {
    x * y
  }

  /** With equal spans and runs each boundary hit weighs 0.07 for a token of one character, and that much less for a
      longer one. */
  lemma HitsWeigh(length: nat, span: int, runSquares: int, hits1: int, hits2: int)
    requires length > 0 && span > 0
    ensures Times(Weighted(length, span, runSquares, hits1) - Weighted(length, span, runSquares, hits2), length as real)
            == 0.07 * (hits1 - hits2) as real
  {
    var n := length as real;
    var x, y := Share(hits1 as real, n), Share(hits2 as real, n);
    assert x * n == hits1 as real && y * n == hits2 as real;
    assert (x - y) * n == (hits1 - hits2) as real;
    hide Share;
    assert Weighted(length, span, runSquares, hits1) - Weighted(length, span, runSquares, hits2) == 0.07 * (x - y);
    assert 0.07 * (x - y) * n == 0.07 * ((x - y) * n);
  }

  /** With equal spans and hits each pair in a run weighs 0.105 over the square of the token's length. */
  lemma RunsWeigh(length: nat, span: int, runSquares1: int, runSquares2: int, hits: int)
    requires length > 0 && span > 0
    ensures Times(Weighted(length, span, runSquares1, hits) - Weighted(length, span, runSquares2, hits),
                  (length * length) as real)
            == 0.105 * (runSquares1 - runSquares2) as real
  {
    assert length * length > 0;
    var m := (length * length) as real;
    var x, y := Share(runSquares1 as real, m), Share(runSquares2 as real, m);
    assert x * m == runSquares1 as real && y * m == runSquares2 as real;
    assert (x - y) * m == (runSquares1 - runSquares2) as real;
    assert m == Square(length) as real;
    hide Share;
    assert Weighted(length, span, runSquares1, hits) - Weighted(length, span, runSquares2, hits) == 0.105 * (x - y);
    assert 0.105 * (x - y) * m == 0.105 * ((x - y) * m);
  }

  /** With equal runs and hits the density weighs 0.175. */
  lemma SpanWeighs(length: nat, span1: int, span2: int, runSquares: int, hits: int)
    requires length > 0 && span1 > 0 && span2 > 0
    ensures Weighted(length, span1, runSquares, hits) - Weighted(length, span2, runSquares, hits) ==
            0.175 * (length as real / span1 as real - length as real / span2 as real)
  {
  }

  /** One run with every character at a boundary has the highest score. */
  lemma BestScore(length: nat)
    requires length > 0
    ensures Weighted(length, length, length * length, length) == 0.65
  {
    assert Share(length as real, length as real) == 1.0;
    assert Square(length) == length * length > 0;
    assert Share(Square(length) as real, Square(length) as real) == 1.0;
    hide Share;
  }

  /** Two scores of one token with equal spans and runs differ by their boundary hits. */
  lemma HitsTell(
    u: Unicode, token: string, c1: string, o1: string, c2: string, o2: string,
    pos1: seq<int>, span1: int, squares1: int, hits1: int, score1: real,
    pos2: seq<int>, span2: int, squares2: int, hits2: int, score2: real)
    requires token != "" && Measures(u, token, c1, o1, pos1, span1, squares1, hits1)
    requires Measures(u, token, c2, o2, pos2, span2, squares2, hits2)
    requires IsSubsequenceScore(u, token, c1, o1, score1) && IsSubsequenceScore(u, token, c2, o2, score2)
    requires span1 == span2 && squares1 == squares2
    ensures Times(score1 - score2, |token| as real) == 0.07 * (hits1 - hits2) as real
  {
    ScoreIsOfMeasures(u, token, c1, o1, pos1, span1, squares1, hits1, score1);
    ScoreIsOfMeasures(u, token, c2, o2, pos2, span2, squares2, hits2, score2);
    hide *;
    HitsWeigh(|token|, span1, squares1, hits1, hits2);
  }

  /** With equal spans and hits they differ by their runs. */
  lemma RunsTell(
    u: Unicode, token: string, c1: string, o1: string, c2: string, o2: string,
    pos1: seq<int>, span1: int, squares1: int, hits1: int, score1: real,
    pos2: seq<int>, span2: int, squares2: int, hits2: int, score2: real)
    requires token != "" && Measures(u, token, c1, o1, pos1, span1, squares1, hits1)
    requires Measures(u, token, c2, o2, pos2, span2, squares2, hits2)
    requires IsSubsequenceScore(u, token, c1, o1, score1) && IsSubsequenceScore(u, token, c2, o2, score2)
    requires span1 == span2 && hits1 == hits2
    ensures Times(score1 - score2, (|token| * |token|) as real) == 0.105 * (squares1 - squares2) as real
  {
    ScoreIsOfMeasures(u, token, c1, o1, pos1, span1, squares1, hits1, score1);
    ScoreIsOfMeasures(u, token, c2, o2, pos2, span2, squares2, hits2, score2);
    hide *;
    RunsWeigh(|token|, span1, squares1, squares2, hits1);
  }

  /** With equal runs and hits they differ by their spans. */
  lemma SpansTell(
    u: Unicode, token: string, c1: string, o1: string, c2: string, o2: string,
    pos1: seq<int>, span1: int, squares1: int, hits1: int, score1: real,
    pos2: seq<int>, span2: int, squares2: int, hits2: int, score2: real)
    requires token != "" && Measures(u, token, c1, o1, pos1, span1, squares1, hits1)
    requires Measures(u, token, c2, o2, pos2, span2, squares2, hits2)
    requires IsSubsequenceScore(u, token, c1, o1, score1) && IsSubsequenceScore(u, token, c2, o2, score2)
    requires squares1 == squares2 && hits1 == hits2
    ensures span1 > 0 && span2 > 0
    ensures score1 - score2 == 0.175 * (|token| as real / span1 as real - |token| as real / span2 as real)
  {
    ScoreIsOfMeasures(u, token, c1, o1, pos1, span1, squares1, hits1, score1);
    ScoreIsOfMeasures(u, token, c2, o2, pos2, span2, squares2, hits2, score2);
    hide *;
    SpanWeighs(|token|, span1, span2, squares1, hits1);
  }

  /** A match in one run, every character of it at a word boundary, scores 0.65. */
  lemma WholeRunAtBoundaries(
    u: Unicode, token: string, candidate: string, original: string, pos: seq<int>, span: int, squares: int, hits: int,
    score: real)
    requires token != "" && Measures(u, token, candidate, original, pos, span, squares, hits)
    requires IsSubsequenceScore(u, token, candidate, original, score)
    requires (forall k :: 0 <= k < |pos| ==> pos[k] == pos[0] + k) && hits == |token|
    ensures score == 0.65
  {
    ScoreIsOfMeasures(u, token, candidate, original, pos, span, squares, hits, score);
    BestScore(|token|);
    hide Weighted, Runs, BoundaryHits, SumOfSquares;
    OneRun(pos);
    SquareOfOneRun(|pos|);
  }

  lemma {:induction false} OneRun(pos: seq<int>)
    requires pos != [] && forall k :: 0 <= k < |pos| ==> pos[k] == pos[0] + k
    ensures Runs(pos) == [|pos|]
  {
    var n := |pos| - 1;
    RunsStep(pos);
    hide Runs;
    if n > 0 {
      OneRun(pos[..n]);
      assert [n][..0] == [];
    } else {
      assert pos[..0] == [];
      RunsOfNothing();
    }
  }

  lemma RunsOfNothing()
    ensures Runs([]) == []
  {
  }

  lemma SquareOfOneRun(n: nat)
    ensures SumOfSquares([n]) == n * n
  {
    assert [n][..0] == [];
  }

  // ---------------------------------------------------------------- the budget

  /** One edit for every four characters, and two at most. */
  lemma BudgetIs(token: string)
    ensures 4 * Budget(token) <= |token| && Budget(token) <= 2
    ensures Budget(token) < 2 ==> |token| < 4 * Budget(token) + 4
  {
  }
}
