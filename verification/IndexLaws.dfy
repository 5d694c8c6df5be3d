/** What the object index is for: what was set is found under its tag, with its value, and references are cleaned. */
module IndexLaws {
  import opened Utf16
  import opened KvKeys
  import opened KvStore
  import opened ObjectIndex

  /** Exactly the page name and the at sign in front are taken off; a reference without them stays. */
  lemma CleanKeyStrips(objectRef: JsString, page: JsString, rest: JsString)
    ensures objectRef == page + [AT] + rest ==> CleanKey(objectRef, page) == rest
    ensures CleanKey(objectRef, page) == objectRef <==>
            forall tail: JsString :: objectRef != page + [AT] + tail
  {
    if page + [AT] <= objectRef {
      assert objectRef == page + [AT] + objectRef[|page| + 1..];
    }
  }

  lemma {:induction false} PairsHold<V>(page: JsString, kvs: seq<(Key, V)>, mark: V, kv: (Key, V))
    requires kv in kvs
    ensures (Forward(kv.0, page), kv.1) in Pairs(page, kvs, mark)
    ensures (Reverse(kv.0, page), mark) in Pairs(page, kvs, mark)
  {
    var n := |kvs| - 1;
    assert kvs == kvs[..n] + [kvs[n]];
    PairsOfAdded(page, kvs[..n], kvs[n], mark);
    hide Forward, Reverse, Pairs;
    if kv != kvs[n] {
      PairsHold(page, kvs[..n], mark, kv);
    }
  }

  /** A batch that succeeds stores the first value given for a key in the forward row, and the mark in the reverse
      row. */
  lemma SetWritesValues<V>(data: map<JsString, V>, page: JsString, kvs: seq<(Key, V)>, mark: V, kv: (Key, V))
    requires AllBuild(page, kvs) && IsFirstEntry(kvs, kv)
    ensures var after := Step(data, Set(page, kvs), mark);
            var f, r := Join(Forward(kv.0, page)), Join(Reverse(kv.0, page));
            f in after && r in after && after[f] == kv.1 && after[r] == mark
  {
    var f, r := (Forward(kv.0, page), kv.1), (Reverse(kv.0, page), mark);
    hide *;
    var rows := Pairs(page, kvs, mark);
    StepIsPut(data, page, kvs, mark);
    PairsOfFirsts(page, kvs, mark);
    FirstsAreFirst(kvs, kv);
    PairsHold(page, FirstOfEachKey(kvs), mark, kv);
    FirstsAreFirst(rows, f);
    FirstsAreFirst(rows, r);
    PairsBuild(page, kvs, mark);
    PairsNotEmptyKeys(page, kvs, mark);
    AllRowsStorable(rows);
    FirstValueWins(data, rows, f);
    FirstValueWins(data, rows, r);
  }

  lemma ForwardOfTag(key: Key, page: JsString, tag: JsString)
    ensures StrictlyExtends(Forward(key, page), [IDX, tag]) <==> key != [] && key[0] == tag
    ensures Separable(Forward(key, page)) && key != [] ==> SEP !in key[0] && Separable([IDX, key[0]])
  {
    var f := Forward(key, page);
    if key != [] {
      assert f[..2] == [IDX, key[0]];
      assert f[..2][1] == key[0] && [IDX, tag][1] == tag;
      assert f[1] == key[0];
      assert [IDX, key[0]][1] == key[0] && SEP !in IDX;
    }
  }

  /** A query for a tag finds, of the forward rows, exactly those whose key begins with the tag and does not go past
      U+FFFF after it. */
  lemma TagQueryFinds<V>(
    data: map<JsString, V>, tag: JsString, rows: seq<(Key, V)>, key: Key, page: JsString)
    requires Separable([IDX, tag]) && IsScan(data, [IDX, tag], rows)
    requires Separable(Forward(key, page))
    ensures (exists v :: (Forward(key, page), v) in rows) <==>
            Forward(key, page) in Keys(data) && key != [] && key[0] == tag && BelowTop(Forward(key, page), 2)
  {
    ForwardOfTag(key, page, tag);
    assert Forward(key, page) != [];
    assert |Forward(key, page)| == |key| + 2;
    hide *;
    ScanIsPrefixQuery(data, [IDX, tag], rows, Forward(key, page));
  }

  /** What was set for a page is found by a query for its tag, with the value set, exactly when its key does not go
      past U+FFFF after the tag. */
  lemma SetIsFound<V>(
    data: map<JsString, V>, page: JsString, kvs: seq<(Key, V)>, mark: V, kv: (Key, V), rows: seq<(Key, V)>)
    requires AllBuild(page, kvs) && IsFirstEntry(kvs, kv)
    requires kv.0 != []
    requires IsScan(Step(data, Set(page, kvs), mark), [IDX, kv.0[0]], rows)
    ensures forall v :: (Forward(kv.0, page), v) in rows <==> v == kv.1 && BelowTop(Forward(kv.0, page), 2)
  {
    var f, after := Forward(kv.0, page), Step(data, Set(page, kvs), mark);
    FirstIsBuilt(page, kvs, kv);
    assert f != [] && |f| == |kv.0| + 2;
    ForwardOfTag(kv.0, page, kv.0[0]);
    hide *;
    PairSeparable(kv.0, page);
    SetWritesValues(data, page, kvs, mark, kv);
    StoredKey(after, f);
    ScanIsPrefixQuery(after, [IDX, kv.0[0]], rows, f);
  }

  lemma FirstIsBuilt<V>(page: JsString, kvs: seq<(Key, V)>, kv: (Key, V))
    requires AllBuild(page, kvs) && IsFirstEntry(kvs, kv)
    ensures Separable(kv.0 + [page])
  {
    hide Separable, KeysOf;
  }
}
