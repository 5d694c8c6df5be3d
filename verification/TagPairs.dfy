/** Matching opening and closing HTML tags. */
module TagPairs {
  datatype TagInfo = TagInfo(tagName: string, isClosing: bool, isSelfClosing: bool, from: int, to: int)

  datatype MatchedPair = MatchedPair(open: nat, close: nat)

  /** Lower-casing is taken as given. */
  type Lowering = string -> string

  // ---------------------------------------------------------------- balanced matching

  predicate Opens(lower: Lowering, tag: TagInfo, name: string) {
    !tag.isSelfClosing && !tag.isClosing && lower(tag.tagName) == name
  }

  predicate Closes(lower: Lowering, tag: TagInfo, name: string) {
    !tag.isSelfClosing && tag.isClosing && lower(tag.tagName) == name
  }

  /** How many more tags of this name open than close in tags[lo..hi]. */
  function Depth(lower: Lowering, tags: seq<TagInfo>, name: string, lo: nat, hi: nat): int
    requires lo <= hi <= |tags|
  {
    if lo == hi then 0
    else
      var d := Depth(lower, tags, name, lo, hi - 1);
      if Opens(lower, tags[hi - 1], name) then d + 1
      else if Closes(lower, tags[hi - 1], name) then d - 1
      else d
  }

  ghost predicate NeverBelow(lower: Lowering, tags: seq<TagInfo>, name: string, lo: nat, hi: nat)
    requires lo <= hi <= |tags|
  {
    forall k {:trigger Depth(lower, tags, name, lo, k)} :: lo <= k <= hi ==> Depth(lower, tags, name, lo, k) >= 0
  }

  /** The tags of this name in tags[lo..hi] pair up among themselves. */
  ghost predicate Balanced(lower: Lowering, tags: seq<TagInfo>, name: string, lo: nat, hi: nat) {
    lo <= hi <= |tags| && NeverBelow(lower, tags, name, lo, hi) && Depth(lower, tags, name, lo, hi) == 0
  }

  /** An opening and a later closing tag of one name, with the tags of that name in between balanced. */
  ghost predicate Matches(lower: Lowering, tags: seq<TagInfo>, i: nat, j: nat) {
    && i < j < |tags|
    && var name := lower(tags[i].tagName);
    && Opens(lower, tags[i], name) && Closes(lower, tags[j], name)
    && Balanced(lower, tags, name, i + 1, j)
  }

  /** The two tags of a pair are an opening and a later closing tag of one name, upper or lower case. */
  lemma PairsAgree(lower: Lowering, tags: seq<TagInfo>, i: nat, j: nat)
    requires Matches(lower, tags, i, j)
    ensures i < j < |tags| && lower(tags[i].tagName) == lower(tags[j].tagName)
    ensures !tags[i].isClosing && tags[j].isClosing && !tags[i].isSelfClosing && !tags[j].isSelfClosing
  {
  }

  /** Such tags with no other tag of the name in between, but for self-closing ones, are a pair. */
  lemma {:induction false} NearestIsMatched(lower: Lowering, tags: seq<TagInfo>, i: nat, j: nat)
    requires i < j < |tags| && lower(tags[i].tagName) == lower(tags[j].tagName)
    requires !tags[i].isClosing && tags[j].isClosing && !tags[i].isSelfClosing && !tags[j].isSelfClosing
    requires forall k :: i < k < j ==> tags[k].isSelfClosing || lower(tags[k].tagName) != lower(tags[i].tagName)
    ensures Matches(lower, tags, i, j)
  {
    var name := lower(tags[i].tagName);
    forall k {:trigger Depth(lower, tags, name, i + 1, k)} | i + 1 <= k <= j
      ensures Depth(lower, tags, name, i + 1, k) == 0
    {
      NoneOpen(lower, tags, name, i + 1, k);
    }
  }

  lemma {:induction false} NoneOpen(lower: Lowering, tags: seq<TagInfo>, name: string, lo: nat, hi: nat)
    requires lo <= hi <= |tags|
    requires forall k :: lo <= k < hi ==> tags[k].isSelfClosing || lower(tags[k].tagName) != name
    ensures Depth(lower, tags, name, lo, hi) == 0
    decreases hi
  {
    if lo < hi {
      NoneOpen(lower, tags, name, lo, hi - 1);
    }
  }

  lemma {:induction false} DepthSplit(lower: Lowering, tags: seq<TagInfo>, name: string, lo: nat, mid: nat, hi: nat)
    requires lo <= mid <= hi <= |tags|
    ensures Depth(lower, tags, name, lo, hi) == Depth(lower, tags, name, lo, mid) + Depth(lower, tags, name, mid, hi)
    decreases hi - mid
  {
    if mid < hi {
      DepthSplit(lower, tags, name, lo, mid, hi - 1);
    }
  }

  /** Once balanced tags are followed by a closing one, no longer stretch is balanced. */
  lemma AfterClose(lower: Lowering, tags: seq<TagInfo>, name: string, lo: nat, j: nat, hi: nat)
    requires lo <= j < hi <= |tags| && Closes(lower, tags[j], name) && Balanced(lower, tags, name, lo, j)
    ensures !Balanced(lower, tags, name, lo, hi)
  {
    assert Depth(lower, tags, name, lo, j + 1) == -1;
  }

  /** If the tags after a later opener are balanced, those after an earlier one are not. */
  lemma AfterOpen(lower: Lowering, tags: seq<TagInfo>, name: string, lo: nat, i: nat, hi: nat)
    requires lo <= i < hi <= |tags| && Opens(lower, tags[i], name) && Balanced(lower, tags, name, i + 1, hi)
    ensures !Balanced(lower, tags, name, lo, hi)
  {
    DepthSplit(lower, tags, name, lo, i + 1, hi);
    assert Depth(lower, tags, name, lo, i + 1) == Depth(lower, tags, name, lo, i) + 1;
  }

  /** A tag has at most one partner, and is not the opener of one pair and the closer of another. */
  lemma MatchesIsUnique(lower: Lowering, tags: seq<TagInfo>, i: nat, j: nat, i': nat, j': nat)
    requires Matches(lower, tags, i, j) && Matches(lower, tags, i', j')
    ensures i == i' <==> j == j'
    ensures i != j'
  {
    var name := lower(tags[i].tagName);
    if j < j' {
      AfterClose(lower, tags, name, i + 1, j, j');
    } else if j' < j {
      AfterClose(lower, tags, lower(tags[i'].tagName), i' + 1, j', j);
    } else if i < i' {
      AfterOpen(lower, tags, name, i + 1, i', j);
    } else if i' < i {
      AfterOpen(lower, tags, name, i' + 1, i, j);
    }
  }

  /** Where a stretch first goes below: at a closing tag, after a balanced stretch. */
  lemma {:induction false} FirstBelow(
    lower: Lowering, tags: seq<TagInfo>, name: string, lo: nat, hi: nat) returns (l: nat)
    requires lo <= hi <= |tags| && Depth(lower, tags, name, lo, hi) < 0
    ensures lo <= l < hi && Closes(lower, tags[l], name) && Balanced(lower, tags, name, lo, l)
    decreases hi
  {
    if !NeverBelow(lower, tags, name, lo, hi - 1) {
      var k :| lo <= k <= hi - 1 && Depth(lower, tags, name, lo, k) < 0;
      l := FirstBelow(lower, tags, name, lo, k);
    } else {
      assert Depth(lower, tags, name, lo, hi - 1) >= 0;
      l := hi - 1;
    }
  }

  /** What a stretch that never goes below leaves open last: an opening tag, before a balanced stretch. */
  lemma {:induction false} LastOpen(
    lower: Lowering, tags: seq<TagInfo>, name: string, lo: nat, m: nat, hi: nat) returns (l: nat)
    requires lo <= m <= hi <= |tags| && Depth(lower, tags, name, lo, hi) > 0
    requires forall x {:trigger Depth(lower, tags, name, lo, x)} :: m <= x <= hi ==>
               Depth(lower, tags, name, lo, x) >= Depth(lower, tags, name, lo, hi)
    ensures lo <= l < hi && Opens(lower, tags[l], name) && Balanced(lower, tags, name, l + 1, hi)
    decreases m
  {
    assert Depth(lower, tags, name, lo, m) > 0;
    if Depth(lower, tags, name, lo, m - 1) >= Depth(lower, tags, name, lo, hi) {
      l := LastOpen(lower, tags, name, lo, m - 1, hi);
    } else {
      l := m - 1;
      forall x {:trigger Depth(lower, tags, name, m, x)} | m <= x <= hi
        ensures Depth(lower, tags, name, m, x) >= 0
      {
        DepthSplit(lower, tags, name, lo, m, x);
      }
      DepthSplit(lower, tags, name, lo, m, hi);
    }
  }

  /** The tags of that name inside a pair are in pairs of their own inside it: an opening one is closed there. */
  lemma InnerOpenerIsMatched(lower: Lowering, tags: seq<TagInfo>, i: nat, j: nat, k: nat)
    requires Matches(lower, tags, i, j) && i < k < j && Opens(lower, tags[k], lower(tags[i].tagName))
    ensures exists l: nat :: k < l < j && Matches(lower, tags, k, l)
  {
    var name := lower(tags[i].tagName);
    DepthSplit(lower, tags, name, i + 1, k + 1, j);
    assert Depth(lower, tags, name, i + 1, k + 1) == Depth(lower, tags, name, i + 1, k) + 1;
    assert Depth(lower, tags, name, i + 1, k) >= 0;
    hide Depth, NeverBelow, Balanced;
    var l := FirstBelow(lower, tags, name, k + 1, j);
    assert Matches(lower, tags, k, l);
  }

  /** And a closing one is opened there. */
  lemma InnerCloserIsMatched(lower: Lowering, tags: seq<TagInfo>, i: nat, j: nat, k: nat)
    requires Matches(lower, tags, i, j) && i < k < j && Closes(lower, tags[k], lower(tags[i].tagName))
    ensures exists l: nat :: i < l < k && Matches(lower, tags, l, k)
  {
    var name := lower(tags[i].tagName);
    assert Depth(lower, tags, name, i + 1, k + 1) >= 0;
    assert Depth(lower, tags, name, i + 1, k + 1) == Depth(lower, tags, name, i + 1, k) - 1;
    hide Depth, NeverBelow, Balanced;
    var l := LastOpen(lower, tags, name, i + 1, k, k);
    assert Matches(lower, tags, l, k);
  }

  // ---------------------------------------------------------------- the stack

  function NameAt(lower: Lowering, tags: seq<TagInfo>, i: nat): string {
    if i < |tags| then lower(tags[i].tagName) else ""
  }

  /** How many entries of the stack carry the name. */
  function Named(lower: Lowering, tags: seq<TagInfo>, stack: seq<nat>, name: string): nat {
    if stack == [] then 0
    else
      var n := |stack| - 1;
      Named(lower, tags, stack[..n], name) + (if NameAt(lower, tags, stack[n]) == name then 1 else 0)
  }

  lemma {:induction false} NamedConcat(lower: Lowering, tags: seq<TagInfo>, a: seq<nat>, b: seq<nat>, name: string)
    ensures Named(lower, tags, a + b, name) == Named(lower, tags, a, name) + Named(lower, tags, b, name)
  {
    if b == [] {
      assert a + b == a;
    } else {
      NamedConcat(lower, tags, a, b[..|b| - 1], name);
      assert (a + b)[..|a + b| - 1] == a + b[..|b| - 1];
    }
  }

  lemma {:induction false} NamedNone(lower: Lowering, tags: seq<TagInfo>, s: seq<nat>, name: string)
    ensures Named(lower, tags, s, name) == 0 <==> forall q :: 0 <= q < |s| ==> NameAt(lower, tags, s[q]) != name
  {
    if s != [] {
      NamedNone(lower, tags, s[..|s| - 1], name);
    }
  }

  /** Tag i is an opening tag before k; of the tags of its name after it, `above` are still open. */
  ghost predicate Open(lower: Lowering, tags: seq<TagInfo>, k: nat, i: nat, above: int) {
    && i < k <= |tags|
    && var name := NameAt(lower, tags, i);
    && Opens(lower, tags[i], name)
    && NeverBelow(lower, tags, name, i + 1, k)
    && Depth(lower, tags, name, i + 1, k) == above
  }

  /** Entry p of the stack is open below the entries of its name above it. */
  ghost predicate Pending(lower: Lowering, tags: seq<TagInfo>, k: nat, stack: seq<nat>, p: nat) {
    p < |stack| && Open(lower, tags, k, stack[p], Named(lower, tags, stack[p + 1..], NameAt(lower, tags, stack[p])))
  }

  ghost predicate HasMatch(lower: Lowering, tags: seq<TagInfo>, k: nat, i: nat) {
    exists j: nat :: j < k && Matches(lower, tags, i, j)
  }

  ghost predicate AllPending(lower: Lowering, tags: seq<TagInfo>, k: nat, stack: seq<nat>) {
    forall p: nat {:trigger Pending(lower, tags, k, stack, p)} :: p < |stack| ==> Pending(lower, tags, k, stack, p)
  }

  ghost predicate OthersMatched(lower: Lowering, tags: seq<TagInfo>, k: nat, stack: seq<nat>) {
    forall i: nat {:trigger HasMatch(lower, tags, k, i)} ::
      i < k && i < |tags| && Opens(lower, tags[i], NameAt(lower, tags, i)) && i !in stack ==>
        HasMatch(lower, tags, k, i)
  }

  ghost predicate PairsAre(lower: Lowering, tags: seq<TagInfo>, k: nat, pairs: seq<MatchedPair>) {
    forall i: nat, j: nat :: MatchedPair(i, j) in pairs <==> j < k && Matches(lower, tags, i, j)
  }

  ghost predicate Ascending(stack: seq<nat>) {
    forall p, q :: 0 <= p < q < |stack| ==> stack[p] < stack[q]
  }

  /** After k tags: the stack ascends and holds pending tags, every other opening tag is matched, and the
      pairs found are the matches that close before k. */
  ghost predicate Matched(lower: Lowering, tags: seq<TagInfo>, k: nat, stack: seq<nat>, pairs: seq<MatchedPair>) {
    && k <= |tags| && Ascending(stack) && AllPending(lower, tags, k, stack)
    && OthersMatched(lower, tags, k, stack) && PairsAre(lower, tags, k, pairs)
  }

  /** Moving on past tag k: the stack keeps or loses only what tag k matches, and gains tag k if it opens. */
  lemma Advance(lower: Lowering, tags: seq<TagInfo>, k: nat, stack: seq<nat>, pairs: seq<MatchedPair>,
                stack': seq<nat>, pairs': seq<MatchedPair>)
    requires k < |tags| && OthersMatched(lower, tags, k, stack) && PairsAre(lower, tags, k, pairs)
    requires forall i: nat :: i in stack ==> i in stack' || Matches(lower, tags, i, k)
    requires Opens(lower, tags[k], NameAt(lower, tags, k)) ==> k in stack'
    requires forall x :: x in pairs' <==> x in pairs || (x.close == k && Matches(lower, tags, x.open, k))
    ensures OthersMatched(lower, tags, k + 1, stack') && PairsAre(lower, tags, k + 1, pairs')
  {
    hide Matches;
    forall i: nat | i < k && Opens(lower, tags[i], NameAt(lower, tags, i)) && i !in stack'
      ensures HasMatch(lower, tags, k + 1, i)
    {
      assert i in stack || HasMatch(lower, tags, k, i);
    }
  }

  /** What tag k adds to the depth of a name. */
  function Change(lower: Lowering, tag: TagInfo, name: string): int {
    if Opens(lower, tag, name) then 1 else if Closes(lower, tag, name) then -1 else 0
  }

  lemma OpenStep(lower: Lowering, tags: seq<TagInfo>, k: nat, i: nat, above: int)
    requires k < |tags| && Open(lower, tags, k, i, above)
    requires above + Change(lower, tags[k], NameAt(lower, tags, i)) >= 0
    ensures Open(lower, tags, k + 1, i, above + Change(lower, tags[k], NameAt(lower, tags, i)))
  {
    var name := NameAt(lower, tags, i);
    assert Depth(lower, tags, name, i + 1, k + 1) == above + Change(lower, tags[k], name);
    hide Depth;
  }

  lemma JustOpened(lower: Lowering, tags: seq<TagInfo>, k: nat)
    requires k < |tags| && !tags[k].isSelfClosing && !tags[k].isClosing
    ensures Open(lower, tags, k + 1, k, 0)
  {
  }

  /** An opening tag that has left the stack matches nothing more. */
  lemma ClosedOpenerIsDone(
    lower: Lowering, tags: seq<TagInfo>, k: nat, stack: seq<nat>, pairs: seq<MatchedPair>, i: nat)
    requires k < |tags| && Matched(lower, tags, k, stack, pairs) && i !in stack
    ensures !Matches(lower, tags, i, k)
  {
    hide Depth;
    if i < k && Opens(lower, tags[i], NameAt(lower, tags, i)) {
      assert HasMatch(lower, tags, k, i);
      var j: nat :| j < k && Matches(lower, tags, i, j);
      AfterClose(lower, tags, NameAt(lower, tags, i), i + 1, j, k);
    }
  }

  /** A closing tag matches an open one exactly when none of its name is open after that. */
  lemma OpenMatches(lower: Lowering, tags: seq<TagInfo>, k: nat, i: nat, above: int)
    requires k < |tags| && Open(lower, tags, k, i, above)
    ensures Matches(lower, tags, i, k) <==> above == 0 && Closes(lower, tags[k], NameAt(lower, tags, i))
  {
    hide Depth, NeverBelow;
  }

  /** Reading a tag that neither opens nor closes an entry: a void tag, or a closing tag of an absent name. */
  lemma SkipTag(lower: Lowering, tags: seq<TagInfo>, k: nat, stack: seq<nat>, pairs: seq<MatchedPair>)
    requires k < |tags| && Matched(lower, tags, k, stack, pairs)
    requires tags[k].isSelfClosing ||
             (tags[k].isClosing &&
              forall q :: 0 <= q < |stack| ==> NameAt(lower, tags, stack[q]) != NameAt(lower, tags, k))
    ensures Matched(lower, tags, k + 1, stack, pairs)
  {
    forall p {:trigger Pending(lower, tags, k + 1, stack, p)} | 0 <= p < |stack|
      ensures Pending(lower, tags, k + 1, stack, p) && !Matches(lower, tags, stack[p], k)
    {
      hide Matched, Open, Named, Matches;
      assert Pending(lower, tags, k, stack, p);
      var above := Named(lower, tags, stack[p + 1..], NameAt(lower, tags, stack[p]));
      OpenStep(lower, tags, k, stack[p], above);
      OpenMatches(lower, tags, k, stack[p], above);
    }
    forall i: nat
      ensures !Matches(lower, tags, i, k)
    {
      hide Matched, Matches, Pending;
      if i !in stack {
        ClosedOpenerIsDone(lower, tags, k, stack, pairs, i);
      }
    }
    hide Pending, Matches;
    Advance(lower, tags, k, stack, pairs, stack, pairs);
  }

  lemma NamedAppended(lower: Lowering, tags: seq<TagInfo>, s: seq<nat>, i: nat, name: string)
    ensures Named(lower, tags, s + [i], name) ==
            Named(lower, tags, s, name) + (if NameAt(lower, tags, i) == name then 1 else 0)
  {
    assert (s + [i])[..|s|] == s;
  }

  lemma PushTag(lower: Lowering, tags: seq<TagInfo>, k: nat, stack: seq<nat>, pairs: seq<MatchedPair>)
    requires k < |tags| && Matched(lower, tags, k, stack, pairs) && !tags[k].isSelfClosing && !tags[k].isClosing
    ensures Matched(lower, tags, k + 1, stack + [k], pairs)
  {
    var stack' := stack + [k];
    forall p: nat {:trigger Pending(lower, tags, k + 1, stack', p)} | p < |stack'|
      ensures Pending(lower, tags, k + 1, stack', p)
    {
      assert p < |stack| ==> Pending(lower, tags, k, stack, p);
      PushPending(lower, tags, k, stack, p);
    }
    forall p | 0 <= p < |stack|
      ensures stack[p] < k
    {
      assert Pending(lower, tags, k, stack, p);
    }
    assert forall i: nat :: !Matches(lower, tags, i, k);
    hide Pending, Matches;
    Advance(lower, tags, k, stack, pairs, stack', pairs);
  }

  lemma PushPending(lower: Lowering, tags: seq<TagInfo>, k: nat, stack: seq<nat>, p: nat)
    requires k < |tags| && !tags[k].isSelfClosing && !tags[k].isClosing
    requires p <= |stack| && (p < |stack| ==> Pending(lower, tags, k, stack, p))
    ensures Pending(lower, tags, k + 1, stack + [k], p)
  {
    hide Open, Named;
    var stack' := stack + [k];
    if p < |stack| {
      assert stack'[p + 1..] == stack[p + 1..] + [k];
      NamedAppended(lower, tags, stack[p + 1..], k, NameAt(lower, tags, stack[p]));
      OpenStep(lower, tags, k, stack[p], Named(lower, tags, stack[p + 1..], NameAt(lower, tags, stack[p])));
    } else {
      JustOpened(lower, tags, k);
      assert stack'[p + 1..] == [];
      NamedNone(lower, tags, [], NameAt(lower, tags, k));
    }
  }

  function Remove(stack: seq<nat>, p: nat): seq<nat>
    requires p < |stack|
  {
    stack[..p] + stack[p + 1..]
  }

  lemma NamedAround(lower: Lowering, tags: seq<TagInfo>, stack: seq<nat>, p: nat, r: nat, name: string)
    requires r < p < |stack|
    ensures Named(lower, tags, stack[r + 1..], name) ==
            Named(lower, tags, Remove(stack, p)[r + 1..], name)
            + (if NameAt(lower, tags, stack[p]) == name then 1 else 0)
  {
    var a, b := stack[r + 1..p], stack[p + 1..];
    assert stack[r + 1..] == (a + [stack[p]]) + b;
    assert Remove(stack, p)[r + 1..] == a + b;
    hide *;
    NamedConcat(lower, tags, a + [stack[p]], b, name);
    NamedConcat(lower, tags, a, b, name);
    NamedAppended(lower, tags, a, stack[p], name);
  }

  /** Closing the topmost entry of the closing tag's name. */
  lemma CloseEntry(lower: Lowering, tags: seq<TagInfo>, k: nat, stack: seq<nat>, pairs: seq<MatchedPair>, p: nat)
    requires k < |tags| && Matched(lower, tags, k, stack, pairs) && p < |stack|
    requires Closes(lower, tags[k], NameAt(lower, tags, stack[p]))
    requires forall q :: p < q < |stack| ==> NameAt(lower, tags, stack[q]) != NameAt(lower, tags, stack[p])
    ensures Matched(lower, tags, k + 1, Remove(stack, p), pairs + [MatchedPair(stack[p], k)])
  {
    var stack', pairs' := Remove(stack, p), pairs + [MatchedPair(stack[p], k)];
    forall r: nat {:trigger Matches(lower, tags, stack[r], k)} | r < |stack|
      ensures Matches(lower, tags, stack[r], k) <==> r == p
    {
      assert Pending(lower, tags, k, stack, r);
      CloseEntryAt(lower, tags, k, stack, p, r);
    }
    forall r: nat {:trigger Pending(lower, tags, k + 1, stack', r)} | r < |stack'|
      ensures Pending(lower, tags, k + 1, stack', r)
    {
      var r' := if r < p then r else r + 1;
      assert Pending(lower, tags, k, stack, r');
      CloseEntryAt(lower, tags, k, stack, p, r');
    }
    forall i: nat
      ensures Matches(lower, tags, i, k) <==> i == stack[p]
    {
      hide Matches, Pending, AllPending;
      if i !in stack {
        ClosedOpenerIsDone(lower, tags, k, stack, pairs, i);
      } else {
        var r :| 0 <= r < |stack| && stack[r] == i;
        assert Matches(lower, tags, stack[r], k) <==> r == p;
      }
    }
    hide Pending, Matches;
    RemoveKeeps(stack, p);
    Advance(lower, tags, k, stack, pairs, stack', pairs');
  }

  lemma RemoveKeeps(stack: seq<nat>, p: nat)
    requires p < |stack| && Ascending(stack)
    ensures Ascending(Remove(stack, p))
    ensures forall i: nat :: i in stack ==> i in Remove(stack, p) || i == stack[p]
  {
    forall i: nat | i in stack && i != stack[p]
      ensures i in Remove(stack, p)
    {
      var r :| 0 <= r < |stack| && stack[r] == i;
      assert Remove(stack, p)[if r < p then r else r - 1] == i;
    }
  }

  lemma CloseEntryAt(lower: Lowering, tags: seq<TagInfo>, k: nat, stack: seq<nat>, p: nat, r: nat)
    requires k < |tags| && p < |stack| && r < |stack| && Pending(lower, tags, k, stack, r)
    requires Closes(lower, tags[k], NameAt(lower, tags, stack[p]))
    requires forall q :: p < q < |stack| ==> NameAt(lower, tags, stack[q]) != NameAt(lower, tags, stack[p])
    ensures Matches(lower, tags, stack[r], k) <==> r == p
    ensures r < p ==> Pending(lower, tags, k + 1, Remove(stack, p), r)
    ensures r > p ==> Pending(lower, tags, k + 1, Remove(stack, p), r - 1)
  {
    hide Open, Named, Matches;
    var name := NameAt(lower, tags, stack[r]);
    var above := Named(lower, tags, stack[r + 1..], name);
    OpenMatches(lower, tags, k, stack[r], above);
    if r < p {
      NamedAround(lower, tags, stack, p, r, name);
      assert Remove(stack, p)[r] == stack[r];
      OpenStep(lower, tags, k, stack[r], above);
    } else if r > p {
      assert Remove(stack, p)[r - 1] == stack[r] && Remove(stack, p)[r..] == stack[r + 1..];
      OpenStep(lower, tags, k, stack[r], above);
    } else {
      NamedNone(lower, tags, stack[r + 1..], name);
    }
  }

  // ---------------------------------------------------------------- the algorithm

  /** The pairs are exactly the matches; void elements are set aside. Tags are named by their index. */
  method MatchHtmlTagPairs(lower: Lowering, tags: seq<TagInfo>)
    returns (pairs: seq<MatchedPair>, voidElements: seq<nat>)
    ensures forall i: nat, j: nat :: MatchedPair(i, j) in pairs <==> Matches(lower, tags, i, j)
    ensures forall x, y :: 0 <= x < y < |pairs| ==> pairs[x].close < pairs[y].close
    ensures forall i: nat :: i in voidElements <==> i < |tags| && tags[i].isSelfClosing
    ensures Ascending(voidElements)
  {
    pairs, voidElements := [], [];
    var stack: seq<nat> := [];
    NothingYet(lower, tags);
    hide Matched;
    for k := 0 to |tags|
      invariant Matched(lower, tags, k, stack, pairs)
      invariant forall x :: 0 <= x < |pairs| ==> pairs[x].close < k
      invariant forall x, y :: 0 <= x < y < |pairs| ==> pairs[x].close < pairs[y].close
      invariant forall i: nat :: i in voidElements <==> i < k && tags[i].isSelfClosing
      invariant Ascending(voidElements) && forall x :: 0 <= x < |voidElements| ==> voidElements[x] < k
    {
      var tag := tags[k];
      if tag.isSelfClosing {
        SkipTag(lower, tags, k, stack, pairs);
        voidElements := voidElements + [k];
        continue;
      }
      StackIndices(lower, tags, k, stack, pairs);
      if tag.isClosing {
        var i := |stack| - 1;
        while i >= 0 && lower(tags[stack[i]].tagName) != lower(tag.tagName)
          invariant -1 <= i < |stack|
          invariant forall q :: i < q < |stack| ==> NameAt(lower, tags, stack[q]) != NameAt(lower, tags, k)
        {
          i := i - 1;
        }
        if i >= 0 {
          CloseEntry(lower, tags, k, stack, pairs, i);
          pairs := pairs + [MatchedPair(stack[i], k)];
          stack := stack[..i] + stack[i + 1..];
        } else {
          SkipTag(lower, tags, k, stack, pairs);
        }
      } else {
        PushTag(lower, tags, k, stack, pairs);
        stack := stack + [k];
      }
    }
    MatchedPairsAre(lower, tags, stack, pairs);
  }

  lemma NothingYet(lower: Lowering, tags: seq<TagInfo>)
    ensures Matched(lower, tags, 0, [], [])
  {
  }

  lemma StackIndices(lower: Lowering, tags: seq<TagInfo>, k: nat, stack: seq<nat>, pairs: seq<MatchedPair>)
    requires Matched(lower, tags, k, stack, pairs)
    ensures forall q :: 0 <= q < |stack| ==> 0 <= stack[q] < |tags|
  {
    forall q | 0 <= q < |stack|
      ensures 0 <= stack[q] < |tags|
    {
      assert Pending(lower, tags, k, stack, q);
    }
  }

  lemma MatchedPairsAre(lower: Lowering, tags: seq<TagInfo>, stack: seq<nat>, pairs: seq<MatchedPair>)
    requires Matched(lower, tags, |tags|, stack, pairs)
    ensures forall i: nat, j: nat :: MatchedPair(i, j) in pairs <==> Matches(lower, tags, i, j)
  {
  }
}
