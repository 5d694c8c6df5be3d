/** Optimal string alignment: the recurrence, its meaning as a cheapest edit script,
    and the bounded three-row computation of the fuzzy matcher. */
module EditDistance {

  function Min(x: int, y: int): int {
    if x <= y then x else y
  }

  // ---------------------------------------------------------------- meaning

  /** One edit: it reads a piece of the old string and writes a piece of the new one.
      Pieces never overlap, so no piece is edited twice. */
  datatype Edit =
    | Keep(c: char)
    | Replace(c: char, d: char)
    | Delete(c: char)
    | Insert(d: char)
    | Swap(c: char, d: char)
  {
    function Read(): string {
      match this
      case Keep(c) => [c]
      case Replace(c, _) => [c]
      case Delete(c) => [c]
      case Insert(_) => []
      case Swap(c, d) => [c, d]
    }

    function Written(): string {
      match this
      case Keep(c) => [c]
      case Replace(_, d) => [d]
      case Delete(_) => []
      case Insert(d) => [d]
      case Swap(c, d) => [d, c]
    }

    function Cost(): nat {
      if Keep? then 0 else 1
    }
  }

  function OldText(script: seq<Edit>): string {
    if script == [] then [] else OldText(script[..|script| - 1]) + script[|script| - 1].Read()
  }

  function NewText(script: seq<Edit>): string {
    if script == [] then [] else NewText(script[..|script| - 1]) + script[|script| - 1].Written()
  }

  function TotalCost(script: seq<Edit>): nat {
    if script == [] then 0 else TotalCost(script[..|script| - 1]) + script[|script| - 1].Cost()
  }

  // ---------------------------------------------------------------- recurrence

  /** The distance between the prefixes a[..i] and b[..j]. */
  function Osa(a: string, b: string, i: nat, j: nat): nat
    requires i <= |a| && j <= |b|
    decreases i + j
  {
    if i == 0 then j
    else if j == 0 then i
    else
      var cost := if a[i - 1] == b[j - 1] then 0 else 1;
      var v := Min(Min(Osa(a, b, i - 1, j) + 1, Osa(a, b, i, j - 1) + 1), Osa(a, b, i - 1, j - 1) + cost);
      if i > 1 && j > 1 && a[i - 1] == b[j - 2] && a[i - 2] == b[j - 1]
      then Min(v, Osa(a, b, i - 2, j - 2) + 1)
      else v
  }

  function Distance(a: string, b: string): nat {
    Osa(a, b, |a|, |b|)
  }

  // ---------------------------------------------------------------- the table

  ghost predicate IsTable(a: string, b: string, t: seq<seq<int>>) {
    && |t| == |a| + 1
    && (forall i {:trigger t[i]} :: 0 <= i <= |a| ==> |t[i]| == |b| + 1)
    && (forall i, j {:trigger CellFits(a, b, t, i, j)} :: 0 <= i <= |a| && 0 <= j <= |b| ==> CellFits(a, b, t, i, j))
  }

  /** Cell (i, j) follows from its neighbours. */
  ghost predicate CellFits(a: string, b: string, t: seq<seq<int>>, i: nat, j: nat)
    requires |t| == |a| + 1 && i <= |a| && j <= |b|
    requires forall i {:trigger t[i]} :: 0 <= i <= |a| ==> |t[i]| == |b| + 1
  {
    t[i][j] ==
      if i == 0 then j
      else if j == 0 then i
      else
        var cost := if a[i - 1] == b[j - 1] then 0 else 1;
        var v := Min(Min(t[i - 1][j] + 1, t[i][j - 1] + 1), t[i - 1][j - 1] + cost);
        if i > 1 && j > 1 && a[i - 1] == b[j - 2] && a[i - 2] == b[j - 1]
        then Min(v, t[i - 2][j - 2] + 1)
        else v
  }

  ghost predicate HoldsOsa(a: string, b: string, t: seq<seq<int>>) {
    && |t| == |a| + 1
    && (forall i {:trigger t[i]} :: 0 <= i <= |a| ==> |t[i]| == |b| + 1)
    && (forall i, j {:trigger Osa(a, b, i, j)} :: 0 <= i <= |a| && 0 <= j <= |b| ==> t[i][j] == Osa(a, b, i, j))
  }

  lemma OsaFits(a: string, b: string, t: seq<seq<int>>, i: nat, j: nat)
    requires HoldsOsa(a, b, t) && i <= |a| && j <= |b|
    ensures CellFits(a, b, t, i, j)
  {
    assert t[i][j] == Osa(a, b, i, j);
  }

  /** The whole table of distances between prefixes. */
  lemma Table(a: string, b: string) returns (t: seq<seq<int>>)
    ensures IsTable(a, b, t) && t[|a|][|b|] == Distance(a, b)
  {
    hide Osa, CellFits;
    t := seq(|a| + 1, i requires 0 <= i <= |a| => seq(|b| + 1, j requires 0 <= j <= |b| => Osa(a, b, i, j)));
    assert HoldsOsa(a, b, t);
    forall i, j {:trigger CellFits(a, b, t, i, j)} | 0 <= i <= |a| && 0 <= j <= |b|
      ensures CellFits(a, b, t, i, j)
    {
      OsaFits(a, b, t, i, j);
    }
  }

  // ---------------------------------------------------------------- meaning of the table

  ghost predicate Ends(s: string, n: nat, piece: string)
    requires n <= |s|
  {
    |piece| <= n && forall k :: 0 <= k < |piece| ==> piece[k] == s[n - |piece| + k]
  }

  lemma SplitPrefix(s: string, n: nat, init: string, last: string)
    requires n <= |s| && init + last == s[..n]
    ensures Ends(s, n, last) && init == s[..n - |last|]
  {
    assert init == (init + last)[..|init|];
    assert last == (init + last)[|init|..];
  }

  /** The edit rewrites the last characters of s[..i] into the last characters of t[..j]. */
  ghost predicate Fits(e: Edit, a: string, b: string, i: nat, j: nat)
    requires i <= |a| && j <= |b|
  {
    match e
    case Keep(c) => i > 0 && j > 0 && a[i - 1] == c && b[j - 1] == c
    case Replace(c, d) => i > 0 && j > 0 && a[i - 1] == c && b[j - 1] == d
    case Delete(c) => i > 0 && a[i - 1] == c
    case Insert(d) => j > 0 && b[j - 1] == d
    case Swap(c, d) => i > 1 && j > 1 && a[i - 2] == c && a[i - 1] == d && b[j - 2] == d && b[j - 1] == c
  }

  lemma FitsMeansEnds(e: Edit, a: string, b: string, i: nat, j: nat)
    requires i <= |a| && j <= |b|
    ensures Fits(e, a, b, i, j) <==> Ends(a, i, e.Read()) && Ends(b, j, e.Written())
  {
    var r, w := e.Read(), e.Written();
    if Ends(a, i, r) && Ends(b, j, w) {
      assert |r| > 0 ==> r[0] == a[i - |r|] && r[|r| - 1] == a[i - 1];
      assert |w| > 0 ==> w[0] == b[j - |w|] && w[|w| - 1] == b[j - 1];
    }
  }

  lemma EditBound(a: string, b: string, t: seq<seq<int>>, i: nat, j: nat, e: Edit)
    requires IsTable(a, b, t) && i <= |a| && j <= |b| && Fits(e, a, b, i, j)
    ensures t[i][j] <= t[i - |e.Read()|][j - |e.Written()|] + e.Cost()
  {
    assert CellFits(a, b, t, i, j);
    assert i > 0 ==> CellFits(a, b, t, i - 1, j);
    assert j > 0 ==> CellFits(a, b, t, i, j - 1);
  }

  /** No script that turns a[..i] into b[..j] is cheaper than the table says. */
  lemma {:induction false} NoScriptIsCheaper(a: string, b: string, t: seq<seq<int>>, i: nat, j: nat, script: seq<Edit>)
    requires IsTable(a, b, t) && i <= |a| && j <= |b|
    requires OldText(script) == a[..i] && NewText(script) == b[..j]
    ensures t[i][j] <= TotalCost(script)
    decreases |script|
  {
    if script == [] {
      assert CellFits(a, b, t, 0, 0);
    } else {
      var init, last := script[..|script| - 1], script[|script| - 1];
      SplitPrefix(a, i, OldText(init), last.Read());
      SplitPrefix(b, j, NewText(init), last.Written());
      NoScriptIsCheaper(a, b, t, i - |last.Read()|, j - |last.Written()|, init);
      FitsMeansEnds(last, a, b, i, j);
      EditBound(a, b, t, i, j, last);
    }
  }

  lemma EndsSplit(s: string, n: nat, piece: string)
    requires n <= |s| && Ends(s, n, piece)
    ensures s[..n] == s[..n - |piece|] + piece
  {
  }

  /** A fitting edit extends a script by one step. */
  lemma Extend(a: string, b: string, i: nat, j: nat, init: seq<Edit>, e: Edit) returns (script: seq<Edit>)
    requires i <= |a| && j <= |b| && Fits(e, a, b, i, j)
    requires OldText(init) == a[..i - |e.Read()|] && NewText(init) == b[..j - |e.Written()|]
    ensures OldText(script) == a[..i] && NewText(script) == b[..j]
    ensures TotalCost(script) == TotalCost(init) + e.Cost()
  {
    script := init + [e];
    assert script[..|init|] == init;
    FitsMeansEnds(e, a, b, i, j);
    EndsSplit(a, i, e.Read());
    EndsSplit(b, j, e.Written());
  }

  /** The edit that the table chooses last. */
  lemma LastEdit(a: string, b: string, t: seq<seq<int>>, i: nat, j: nat) returns (e: Edit)
    requires IsTable(a, b, t) && i <= |a| && j <= |b| && i + j > 0
    ensures Fits(e, a, b, i, j)
    ensures t[i][j] == t[i - |e.Read()|][j - |e.Written()|] + e.Cost()
  {
    assert CellFits(a, b, t, i, j);
    assert i > 0 ==> CellFits(a, b, t, i - 1, j);
    assert j > 0 ==> CellFits(a, b, t, i, j - 1);
    if i > 0 && t[i][j] == t[i - 1][j] + 1 {
      e := Delete(a[i - 1]);
    } else if j > 0 && t[i][j] == t[i][j - 1] + 1 {
      e := Insert(b[j - 1]);
    } else if a[i - 1] == b[j - 1] && t[i][j] == t[i - 1][j - 1] {
      e := Keep(a[i - 1]);
    } else if a[i - 1] != b[j - 1] && t[i][j] == t[i - 1][j - 1] + 1 {
      e := Replace(a[i - 1], b[j - 1]);
    } else {
      e := Swap(a[i - 2], a[i - 1]);
    }
  }

  /** Some script turns a[..i] into b[..j] at exactly the cost in the table. */
  lemma {:induction false} CheapestScript(a: string, b: string, t: seq<seq<int>>, i: nat, j: nat)
    returns (script: seq<Edit>)
    requires IsTable(a, b, t) && i <= |a| && j <= |b|
    ensures OldText(script) == a[..i] && NewText(script) == b[..j]
    ensures TotalCost(script) == t[i][j]
    decreases i + j
  {
    if i == 0 && j == 0 {
      assert CellFits(a, b, t, 0, 0);
      script := [];
    } else {
      hide Osa, IsTable, CellFits, OldText, NewText, TotalCost;
      var e := LastEdit(a, b, t, i, j);
      script := CheapestScript(a, b, t, i - |e.Read()|, j - |e.Written()|);
      script := Extend(a, b, i, j, script, e);
    }
  }

  /** The distance is the least cost of a script from a to b. */
  lemma DistanceIsLeastCost(a: string, b: string, d: nat)
    ensures d == Distance(a, b) <==>
      && (exists s :: OldText(s) == a && NewText(s) == b && TotalCost(s) == d)
      && (forall s :: OldText(s) == a && NewText(s) == b ==> d <= TotalCost(s))
  {
    var t := Table(a, b);
    assert a[..|a|] == a && b[..|b|] == b;
    var best := CheapestScript(a, b, t, |a|, |b|);
    forall s | OldText(s) == a && NewText(s) == b
      ensures Distance(a, b) <= TotalCost(s)
    {
      NoScriptIsCheaper(a, b, t, |a|, |b|, s);
    }
  }

  // ---------------------------------------------------------------- pruning

  /** The length shortcut. */
  lemma LengthBound(a: string, b: string)
    ensures |a| - |b| <= Distance(a, b) && |b| - |a| <= Distance(a, b)
  {
    var t := Table(a, b);
    LengthBoundAt(a, b, t, |a|, |b|);
  }

  lemma {:induction false} LengthBoundAt(a: string, b: string, t: seq<seq<int>>, i: nat, j: nat)
    requires IsTable(a, b, t) && i <= |a| && j <= |b|
    ensures i - j <= t[i][j] && j - i <= t[i][j]
    decreases i + j
  {
    assert CellFits(a, b, t, i, j);
    if i > 0 && j > 0 {
      LengthBoundAt(a, b, t, i - 1, j);
      LengthBoundAt(a, b, t, i, j - 1);
      LengthBoundAt(a, b, t, i - 1, j - 1);
      if i > 1 && j > 1 {
        LengthBoundAt(a, b, t, i - 2, j - 2);
      }
    }
  }

  ghost predicate RowAbove(row: seq<int>, max: int) {
    forall k :: 0 <= k < |row| ==> row[k] > max
  }

  /** A row above the bound keeps the next row above it. The swap case jumps over row i, but a
      swap from row i - 1 costs no less than the cell of row i that one edit less would reach. */
  lemma {:induction false} NextRowAbove(a: string, b: string, t: seq<seq<int>>, i: nat, j: nat, max: int)
    requires IsTable(a, b, t) && i < |a| && j <= |b| && RowAbove(t[i], max)
    ensures t[i + 1][j] > max
    decreases j
  {
    assert CellFits(a, b, t, i + 1, j);
    if j == 0 {
      assert CellFits(a, b, t, i, 0);
    } else {
      NextRowAbove(a, b, t, i, j - 1, max);
      if i > 0 && j > 1 {
        assert CellFits(a, b, t, i, j - 1);
      }
    }
  }

  /** The row exit: once a row is above the bound, so is the last row, and with it the distance. */
  lemma {:induction false} RowsStayAbove(a: string, b: string, t: seq<seq<int>>, i: nat, max: int)
    requires IsTable(a, b, t) && i <= |a| && RowAbove(t[i], max)
    ensures RowAbove(t[|a|], max) && t[|a|][|b|] > max
    decreases |a| - i
  {
    if i < |a| {
      forall k {:trigger t[i + 1][k]} | 0 <= k < |t[i + 1]|
        ensures t[i + 1][k] > max
      {
        NextRowAbove(a, b, t, i, k, max);
      }
      RowsStayAbove(a, b, t, i + 1, max);
    }
  }

  // ---------------------------------------------------------------- algorithm

  lemma FirstRow(a: string, b: string, t: seq<seq<int>>, row: seq<int>)
    requires IsTable(a, b, t) && |row| == |b| + 1 && forall k :: 0 <= k < |row| ==> row[k] == k
    ensures row == t[0]
  {
    forall k | 0 <= k <= |b|
      ensures row[k] == t[0][k]
    {
      assert CellFits(a, b, t, 0, k);
    }
  }

  /** The inner loop: fills row i from the two rows above it and returns its minimum. */
  method FillRow(a: string, b: string, i: nat, prevPrev: array<int>, prev: array<int>, curr: array<int>,
                 ghost t: seq<seq<int>>)
    returns (rowMin: int)
    requires 1 <= i <= |a| && IsTable(a, b, t)
    requires prevPrev.Length == |b| + 1 && prev.Length == |b| + 1 && curr.Length == |b| + 1
    requires curr != prev && curr != prevPrev
    requires prev[..] == t[i - 1] && (i > 1 ==> prevPrev[..] == t[i - 2])
    modifies curr
    ensures curr[..] == t[i]
    ensures rowMin in t[i] && forall k :: 0 <= k <= |b| ==> rowMin <= t[i][k]
  {
    assert CellFits(a, b, t, i, 0);
    curr[0] := i;
    rowMin := curr[0];
    for j := 1 to |b| + 1
      invariant prev[..] == t[i - 1] && (i > 1 ==> prevPrev[..] == t[i - 2])
      invariant forall k :: 0 <= k < j ==> curr[k] == t[i][k] && rowMin <= t[i][k]
      invariant rowMin in t[i]
    {
      var cost := if a[i - 1] == b[j - 1] then 0 else 1;
      var v := Min(Min(prev[j] + 1, curr[j - 1] + 1), prev[j - 1] + cost);
      if i > 1 && j > 1 && a[i - 1] == b[j - 2] && a[i - 2] == b[j - 1] {
        v := Min(v, prevPrev[j - 2] + 1);
      }
      assert CellFits(a, b, t, i, j);
      curr[j] := v;
      if v < rowMin {
        rowMin := v;
      }
    }
  }

  /** The search within the bound gets to the end: the lengths are close enough, and all of a comes within the
      bound of some beginning of b. */
  ghost predicate Reaches(a: string, b: string, max: int) {
    && |a| - |b| <= max && |b| - |a| <= max
    && exists j: nat :: j <= |b| && Osa(a, b, |a|, j) <= max
  }

  lemma {:induction false} CellIsOsa(a: string, b: string, t: seq<seq<int>>, i: nat, j: nat)
    requires IsTable(a, b, t) && i <= |a| && j <= |b|
    ensures t[i][j] == Osa(a, b, i, j)
    decreases i + j
  {
    assert CellFits(a, b, t, i, j);
    hide IsTable;
    if i > 0 && j > 0 {
      CellIsOsa(a, b, t, i - 1, j);
      CellIsOsa(a, b, t, i, j - 1);
      CellIsOsa(a, b, t, i - 1, j - 1);
      if i > 1 && j > 1 {
        CellIsOsa(a, b, t, i - 2, j - 2);
      }
    }
  }

  lemma ReachesTheEnd(a: string, b: string, t: seq<seq<int>>, max: int)
    requires IsTable(a, b, t)
    ensures Reaches(a, b, max) <==> |a| - |b| <= max && |b| - |a| <= max && !RowAbove(t[|a|], max)
  {
    forall j: nat {:trigger Osa(a, b, |a|, j)} | j <= |b|
      ensures t[|a|][j] == Osa(a, b, |a|, j)
    {
      CellIsOsa(a, b, t, |a|, j);
    }
    hide Osa, CellFits;
    if !RowAbove(t[|a|], max) {
      var j :| 0 <= j < |t[|a|]| && t[|a|][j] <= max;
      assert Osa(a, b, |a|, j) <= max;
    }
  }

  /** What the bounded search returns. */
  ghost function Bounded(a: string, b: string, max: int): int {
    if Reaches(a, b, max) then Distance(a, b) else max + 1
  }

  /** It is the distance when that is within the bound, and above the bound otherwise. */
  lemma BoundedIsExactWithin(a: string, b: string, max: int)
    ensures Distance(a, b) <= max ==> Bounded(a, b, max) == Distance(a, b)
    ensures Distance(a, b) > max ==> Bounded(a, b, max) > max
  {
    hide Osa;
    LengthBound(a, b);
    assert Distance(a, b) == Osa(a, b, |a|, |b|);
  }

  /** It is `max + 1` above the bound unless the search reaches the end at a distance of more than that. */
  lemma ClampedExactlyWhen(a: string, b: string, max: int)
    ensures Bounded(a, b, max) == (if Distance(a, b) <= max then Distance(a, b) else max + 1) <==>
            !Reaches(a, b, max) || Distance(a, b) <= max + 1
  {
    BoundedIsExactWithin(a, b, max);
  }

  /** Such an input: three edits, found within a bound of one. */
  lemma NotClamped()
    ensures Distance("ab", "bcd") == 3 && Bounded("ab", "bcd", 1) == 3
  {
    assert Osa("ab", "bcd", 2, 1) == 1;
    assert Osa("ab", "bcd", 2, 3) == 3;
  }

  /** Three rotating rows, with the length shortcut and the row exit. */
  method BoundedDamerauLevenshtein(a: string, b: string, max: int) returns (d: int)
    ensures d == Bounded(a, b, max)
  {
    hide Osa, Reaches;
    var al, bl := |a|, |b|;
    BoundedIsExactWithin(a, b, max);
    ghost var t := Table(a, b);
    ReachesTheEnd(a, b, t, max);
    if (if al >= bl then al - bl else bl - al) > max {
      return max + 1;
    }
    var prevPrev := new int[bl + 1];
    var prev := new int[bl + 1];
    var curr := new int[bl + 1];
    for j := 0 to bl + 1
      invariant forall k :: 0 <= k < j ==> prev[k] == k
    {
      prev[j] := j;
    }
    FirstRow(a, b, t, prev[..]);
    assert t[0][0] <= max;
    for i := 1 to al + 1
      invariant fresh(prevPrev) && fresh(prev) && fresh(curr)
      invariant prevPrev != prev && prevPrev != curr && prev != curr
      invariant prevPrev.Length == bl + 1 && prev.Length == bl + 1 && curr.Length == bl + 1
      invariant prev[..] == t[i - 1] && (i > 1 ==> prevPrev[..] == t[i - 2])
      invariant !RowAbove(t[i - 1], max)
    {
      var rowMin := FillRow(a, b, i, prevPrev, prev, curr, t);
      if rowMin > max {
        RowsStayAbove(a, b, t, i, max);
        return max + 1;
      }
      var tmp := prevPrev;
      prevPrev := prev;
      prev := curr;
      curr := tmp;
    }
    return prev[bl];
  }
}
