/** The object index: forward rows by tag, and reverse rows by page that let one page be cleared. */
module ObjectIndex {
  import opened Options
  import opened Utf16
  import opened KvKeys
  import opened KvStore

  const IDX: JsString := [105, 100, 120]
  const RIDX: JsString := [114, 105, 100, 120]
  const MD: JsString := [46, 109, 100]
  const AT: CodeUnit := 64

  function Forward(key: Key, page: JsString): Key {
    [IDX] + key + [page]
  }

  function Reverse(key: Key, page: JsString): Key {
    [RIDX, page] + key
  }

  predicate IsForward(k: Key) {
    |k| >= 2 && k[0] == IDX
  }

  function PageOf(k: Key): JsString
    requires IsForward(k)
  {
    k[|k| - 1]
  }

  function KeyOf(k: Key): Key
    requires IsForward(k)
  {
    k[1..|k| - 1]
  }

  function ReverseOf(k: Key): Key
    requires IsForward(k)
  {
    Reverse(KeyOf(k), PageOf(k))
  }

  lemma ForwardIsForward(key: Key, page: JsString)
    ensures IsForward(Forward(key, page))
    ensures KeyOf(Forward(key, page)) == key && PageOf(Forward(key, page)) == page
    ensures !IsForward(Reverse(key, page)) && Reverse(key, page)[2..] == key
  {
    assert Forward(key, page)[1..|key| + 1] == key;
  }

  lemma ForwardOfItsParts(k: Key)
    requires IsForward(k)
    ensures Forward(KeyOf(k), PageOf(k)) == k
  {
    assert k == [k[0]] + k[1..|k| - 1] + [k[|k| - 1]];
  }

  lemma PairSeparable(key: Key, page: JsString)
    ensures Separable(Forward(key, page)) <==> Separable(key + [page])
    ensures Separable(Reverse(key, page)) <==> Separable(key + [page])
  {
    SeparableConcat([IDX], key + [page]);
    SeparableConcat(key, [page]);
    SeparableConcat([RIDX, page], key);
    assert Forward(key, page) == [IDX] + (key + [page]);
    assert SEP !in IDX && SEP !in RIDX;
    assert [RIDX, page][1] == page && [page][0] == page && [RIDX, page][0] == RIDX && [IDX][0] == IDX;
  }

  lemma SeparableConcat(a: Key, b: Key)
    ensures Separable(a + b) <==> Separable(a) && Separable(b)
  {
    var ab := a + b;
    assert forall i :: 0 <= i < |a| ==> ab[i] == a[i];
    assert forall i :: 0 <= i < |b| ==> ab[|a| + i] == b[i];
    assert forall i :: |a| <= i < |ab| ==> ab[i] == b[i - |a|];
  }

  /** Every forward row has its reverse row. */
  ghost predicate Covered(keys: set<Key>) {
    forall k :: k in keys && IsForward(k) ==> ReverseOf(k) in keys
  }

  // ---------------------------------------------------------------- setting rows

  /** The rows written for a page, a forward row and its reverse row for each entry. */
  function Pairs<V>(page: JsString, kvs: seq<(Key, V)>, mark: V): seq<(Key, V)> {
    if kvs == [] then []
    else
      var n := |kvs| - 1;
      Pairs(page, kvs[..n], mark) + [(Forward(kvs[n].0, page), kvs[n].1), (Reverse(kvs[n].0, page), mark)]
  }

  lemma {:induction false} PairsFirst<V>(page: JsString, kvs: seq<(Key, V)>, mark: V)
    requires kvs != []
    ensures Pairs(page, kvs, mark) ==
            [(Forward(kvs[0].0, page), kvs[0].1), (Reverse(kvs[0].0, page), mark)] + Pairs(page, kvs[1..], mark)
  {
    hide Forward, Reverse;
    var n := |kvs| - 1;
    if n == 0 {
      assert kvs[..0] == [] && kvs[1..] == [];
    } else {
      PairsFirst(page, kvs[..n], mark);
      assert kvs[..n][1..] == kvs[1..][..n - 1];
    }
  }

  lemma {:induction false} PairsKeys<V>(page: JsString, kvs: seq<(Key, V)>, mark: V, key: Key)
    ensures Forward(key, page) in KeysOf(Pairs(page, kvs, mark)) <==> key in KeysOf(kvs)
    ensures Reverse(key, page) in KeysOf(Pairs(page, kvs, mark)) <==> key in KeysOf(kvs)
  {
    if kvs != [] {
      var n := |kvs| - 1;
      PairsKeys(page, kvs[..n], mark, key);
      var f, r := Forward(kvs[n].0, page), Reverse(kvs[n].0, page);
      var before := Pairs(page, kvs[..n], mark);
      assert KeysOf(kvs) == KeysOf(kvs[..n]) + [kvs[n].0];
      assert KeysOf(Pairs(page, kvs, mark)) == KeysOf(before) + [f, r] by {
        assert Pairs(page, kvs, mark) == before + [(f, kvs[n].1), (r, mark)];
      }
      ForwardIsForward(key, page);
      ForwardIsForward(kvs[n].0, page);
      hide *;
    }
  }

  /** Dropping repeated keys drops whole pairs, so a forward row never loses its reverse row to it. */
  lemma {:induction false} PairsOfFirsts<V>(page: JsString, kvs: seq<(Key, V)>, mark: V)
    ensures FirstOfEachKey(Pairs(page, kvs, mark)) == Pairs(page, FirstOfEachKey(kvs), mark)
  {
    if kvs != [] {
      var n := |kvs| - 1;
      assert kvs == kvs[..n] + [kvs[n]];
      hide Pairs, FirstOfEachKey, KeysOf, Forward, Reverse;
      PairsOfFirsts(page, kvs[..n], mark);
      PairsOfAdded(page, kvs[..n], kvs[n], mark);
      PairsOfAdded(page, FirstOfEachKey(kvs[..n]), kvs[n], mark);
      FirstsOfAdded(kvs[..n], kvs[n]);
      FirstsOfPairAdded(page, kvs[..n], kvs[n], mark);
    }
  }

  lemma PairsOfAdded<V>(page: JsString, kvs: seq<(Key, V)>, kv: (Key, V), mark: V)
    ensures Pairs(page, kvs + [kv], mark) ==
            Pairs(page, kvs, mark) + [(Forward(kv.0, page), kv.1), (Reverse(kv.0, page), mark)]
  {
    hide Forward, Reverse;
    assert (kvs + [kv])[..|kvs|] == kvs;
  }

  lemma {:induction false} FirstsOfPairAdded<V>(page: JsString, kvs: seq<(Key, V)>, kv: (Key, V), mark: V)
    ensures var firsts := FirstOfEachKey(Pairs(page, kvs, mark));
            FirstOfEachKey(Pairs(page, kvs + [kv], mark)) ==
            if kv.0 in KeysOf(kvs) then firsts
            else firsts + [(Forward(kv.0, page), kv.1), (Reverse(kv.0, page), mark)]
  {
    var before := Pairs(page, kvs, mark);
    var f, r := (Forward(kv.0, page), kv.1), (Reverse(kv.0, page), mark);
    ForwardIsForward(kv.0, page);
    assert f.0 != r.0;
    assert KeysOf(before + [f]) == KeysOf(before) + [f.0];
    hide Pairs, FirstOfEachKey, KeysOf, Forward, Reverse;
    PairsOfAdded(page, kvs, kv, mark);
    PairsKeys(page, kvs, mark, kv.0);
    assert Pairs(page, kvs + [kv], mark) == before + [f] + [r];
    FirstsOfAdded(before, f);
    FirstsOfAdded(before + [f], r);
  }

  lemma FirstsOfAdded<V>(entries: seq<(Key, V)>, entry: (Key, V))
    ensures FirstOfEachKey(entries + [entry]) ==
            if entry.0 in KeysOf(entries) then FirstOfEachKey(entries) else FirstOfEachKey(entries) + [entry]
  {
    assert (entries + [entry])[..|entries|] == entries;
  }

  /** A batch keeps coverage, even one that fails half-way on a key that cannot be built. */
  lemma {:induction false} PairsKeepCover<V>(data: map<JsString, V>, page: JsString, kvs: seq<(Key, V)>, mark: V)
    requires Covered(Keys(data))
    ensures Covered(Keys(PutAll(data, Pairs(page, kvs, mark))))
    decreases |kvs|
  {
    hide Covered, Keys, Forward, Reverse, Separable, Join;
    if kvs != [] {
      var key := kvs[0].0;
      var f, r := Forward(key, page), Reverse(key, page);
      PairsFirst(page, kvs, mark);
      PairSeparable(key, page);
      var rest := Pairs(page, kvs[1..], mark);
      PutTwo(data, (f, kvs[0].1), (r, mark), rest);
      if Separable(key + [page]) {
        PutOnePair(data, page, key, kvs[0].1, mark);
        PairsKeepCover(data[Join(f) := kvs[0].1][Join(r) := mark], page, kvs[1..], mark);
      }
    }
  }

  ghost predicate AllBuild<V>(page: JsString, kvs: seq<(Key, V)>) {
    forall i :: 0 <= i < |kvs| ==> Separable(kvs[i].0 + [page])
  }

  ghost predicate RowsBuild<V>(rows: seq<(Key, V)>) {
    forall i :: 0 <= i < |rows| ==> Separable(rows[i].0)
  }

  lemma RowsBuildConcat<V>(a: seq<(Key, V)>, f: (Key, V), r: (Key, V))
    ensures RowsBuild(a + [f, r]) <==> RowsBuild(a) && Separable(f.0) && Separable(r.0)
  {
    hide Separable;
    var ab := a + [f, r];
    assert forall i :: 0 <= i < |a| ==> ab[i] == a[i];
    assert ab[|a|] == f && ab[|a| + 1] == r;
  }

  lemma AllBuildAdded<V>(page: JsString, kvs: seq<(Key, V)>, kv: (Key, V))
    ensures AllBuild(page, kvs + [kv]) <==> AllBuild(page, kvs) && Separable(kv.0 + [page])
  {
    hide Separable;
    assert forall i :: 0 <= i < |kvs| ==> (kvs + [kv])[i] == kvs[i];
    assert (kvs + [kv])[|kvs|] == kv;
  }

  lemma {:induction false} PairsBuild<V>(page: JsString, kvs: seq<(Key, V)>, mark: V)
    ensures AllBuild(page, kvs) <==> RowsBuild(Pairs(page, kvs, mark))
  {
    if kvs != [] {
      var n := |kvs| - 1;
      assert kvs == kvs[..n] + [kvs[n]];
      hide *;
      PairsBuild(page, kvs[..n], mark);
      PairSeparable(kvs[n].0, page);
      AllBuildAdded(page, kvs[..n], kvs[n]);
      PairsOfAdded(page, kvs[..n], kvs[n], mark);
      var key := kvs[n].0;
      RowsBuildConcat(Pairs(page, kvs[..n], mark), (Forward(key, page), kvs[n].1), (Reverse(key, page), mark));
    }
  }

  lemma FirstsBuild<V>(page: JsString, kvs: seq<(Key, V)>)
    ensures AllBuild(page, FirstOfEachKey(kvs)) <==> AllBuild(page, kvs)
  {
    hide Separable, FirstOfEachKey;
    var firsts := FirstOfEachKey(kvs);
    forall i | 0 <= i < |firsts|
      ensures exists j :: 0 <= j < |kvs| && kvs[j].0 == firsts[i].0
    {
      FirstOfEachKeyKeys(kvs, firsts[i].0);
      assert KeysOf(firsts)[i] == firsts[i].0;
      var j :| 0 <= j < |KeysOf(kvs)| && KeysOf(kvs)[j] == firsts[i].0;
    }
    forall j | 0 <= j < |kvs|
      ensures exists i :: 0 <= i < |firsts| && firsts[i].0 == kvs[j].0
    {
      FirstOfEachKeyKeys(kvs, kvs[j].0);
      assert KeysOf(kvs)[j] == kvs[j].0;
      var i :| 0 <= i < |KeysOf(firsts)| && KeysOf(firsts)[i] == kvs[j].0;
    }
  }

  /** When the batch succeeds, the store gains exactly the two rows of each entry. */
  lemma SetWritesPairs<V>(data: map<JsString, V>, page: JsString, kvs: seq<(Key, V)>, mark: V, key: Key)
    requires AllBuild(page, kvs)
    ensures Forward(key, page) in Keys(Step(data, Set(page, kvs), mark)) <==>
            Forward(key, page) in Keys(data) || key in KeysOf(kvs)
    ensures Reverse(key, page) in Keys(Step(data, Set(page, kvs), mark)) <==>
            Reverse(key, page) in Keys(data) || key in KeysOf(kvs)
  {
    var firsts := FirstOfEachKey(kvs);
    var rows := Pairs(page, firsts, mark);
    assert Step(data, Set(page, kvs), mark) == PutAll(data, rows);
    FirstsBuild(page, kvs);
    PairsBuild(page, firsts, mark);
    hide Pairs, FirstOfEachKey, Separable, PutAll, Keys, Forward, Reverse, Step;
    PairsNotEmptyKeys(page, firsts, mark);
    AllRowsStorable(rows);
    PutAllKeys(data, rows);
    PairsKeys(page, firsts, mark, key);
    FirstOfEachKeyKeys(kvs, key);
  }

  lemma AllRowsStorable<V>(rows: seq<(Key, V)>)
    requires forall i :: 0 <= i < |rows| ==> rows[i].0 != []
    requires RowsBuild(rows)
    ensures AllStorable(KeysOf(rows))
  {
    hide Separable;
  }

  lemma {:induction false} PairsNotEmptyKeys<V>(page: JsString, kvs: seq<(Key, V)>, mark: V)
    ensures forall i :: 0 <= i < |Pairs(page, kvs, mark)| ==> Pairs(page, kvs, mark)[i].0 != []
  {
    if kvs != [] {
      PairsNotEmptyKeys(page, kvs[..|kvs| - 1], mark);
    }
  }

  lemma PutTwo<V>(data: map<JsString, V>, f: (Key, V), r: (Key, V), rest: seq<(Key, V)>)
    ensures !Separable(f.0) ==> PutAll(data, [f, r] + rest) == data
    ensures Separable(f.0) && Separable(r.0) ==>
            PutAll(data, [f, r] + rest) == PutAll(data[Join(f.0) := f.1][Join(r.0) := r.1], rest)
  {
    hide Separable, Join;
    assert ([f, r] + rest)[1..] == [r] + rest;
    assert ([r] + rest)[1..] == rest;
  }

  lemma PutOnePair<V>(data: map<JsString, V>, page: JsString, key: Key, value: V, mark: V)
    requires Separable(key + [page])
    ensures Keys(data[Join(Forward(key, page)) := value][Join(Reverse(key, page)) := mark]) ==
            Keys(data) + {Forward(key, page), Reverse(key, page)}
    ensures Covered(Keys(data)) ==>
            Covered(Keys(data[Join(Forward(key, page)) := value][Join(Reverse(key, page)) := mark]))
  {
    PairSeparable(key, page);
    ForwardIsForward(key, page);
    var f, r := Forward(key, page), Reverse(key, page);
    assert f != [] && r != [];
    hide Separable, Join, Keys, Forward, Reverse, KeyOf, PageOf;
    PutOneKey(data, f, value);
    PutOneKey(data[Join(f) := value], r, mark);
  }

  // ---------------------------------------------------------------- deleting rows

  function Forwards(page: JsString, keys: seq<Key>): (fs: seq<Key>)
    ensures |fs| == |keys| && forall i :: 0 <= i < |keys| ==> fs[i] == Forward(keys[i], page)
  {
    seq(|keys|, i requires 0 <= i < |keys| => Forward(keys[i], page))
  }

  lemma {:induction false} DeletingForwardsKeepsCover<V>(data: map<JsString, V>, fs: seq<Key>)
    requires forall i :: 0 <= i < |fs| ==> IsForward(fs[i])
    requires Covered(Keys(data))
    ensures Covered(Keys(DeleteAll(data, fs)))
    decreases |fs|
  {
    if fs != [] && Separable(fs[0]) {
      DeleteOneKey(data, fs[0]);
      hide Keys, Join;
      var after := data - {Join(fs[0])};
      assert forall k :: IsForward(k) ==> !IsForward(ReverseOf(k));
      DeletingForwardsKeepsCover(after, fs[1..]);
    }
  }

  // ---------------------------------------------------------------- clearing a page

  /** The reverse rows that the query for a page finds. */
  ghost predicate IsFound(keys: set<Key>, page: JsString, k: Key) {
    k in keys && StrictlyExtends(k, [RIDX, page]) && BelowTop(k, 2)
  }

  /** A key is cleared when it is a reverse row found, or the forward row of one. */
  ghost predicate IsCleared(keys: set<Key>, page: JsString, k: Key) {
    IsFound(keys, page, k) || (IsForward(k) && PageOf(k) == page && IsFound(keys, page, ReverseOf(k)))
  }

  ghost function ClearedRows<V>(data: map<JsString, V>, page: JsString): map<JsString, V> {
    data - (set s | s in data && IsCleared(Keys(data), page, ExtractKey(s)))
  }

  function AfterPage(k: Key): Key {
    if |k| >= 2 then k[2..] else []
  }

  function ClearKeys<V>(rows: seq<(Key, V)>, page: JsString): seq<Key> {
    if rows == [] then []
    else
      var n := |rows| - 1;
      ClearKeys(rows[..n], page) + [rows[n].0, Forward(AfterPage(rows[n].0), page)]
  }

  lemma {:induction false} ClearKeysAt<V>(rows: seq<(Key, V)>, page: JsString, k: Key)
    ensures k in ClearKeys(rows, page) <==>
            exists i :: 0 <= i < |rows| && (k == rows[i].0 || k == Forward(AfterPage(rows[i].0), page))
  {
    if rows != [] {
      var n := |rows| - 1;
      ClearKeysAt(rows[..n], page, k);
      hide Forward, AfterPage;
      assert forall i :: 0 <= i < n ==> rows[..n][i] == rows[i];
      assert k in ClearKeys(rows, page) <==>
             k in ClearKeys(rows[..n], page) || k == rows[n].0 || k == Forward(AfterPage(rows[n].0), page);
    }
  }

  /** What the query returned decides exactly what is cleared. */
  lemma {:induction false} ScanDecidesCleared<V>(
    data: map<JsString, V>, page: JsString, rows: seq<(Key, V)>, s: JsString)
    requires SEP !in page && IsScan(data, [RIDX, page], rows) && s in data
    ensures ExtractKey(s) in ClearKeys(rows, page) <==> IsCleared(Keys(data), page, ExtractKey(s))
  {
    var k := ExtractKey(s);
    ClearKeysAt(rows, page, k);
    hide ClearKeys, IsScan, IsRow;
    if k in ClearKeys(rows, page) {
      var i :| 0 <= i < |rows| && (k == rows[i].0 || k == Forward(AfterPage(rows[i].0), page));
      RowIsFound(data, page, rows, i);
      var c := rows[i].0;
      assert c == Reverse(c[2..], page);
      ForwardIsForward(c[2..], page);
      hide Forward, Keys, ExtractKey;
    }
    if IsFound(Keys(data), page, k) {
      FoundIsRow(data, page, rows, k);
    } else if IsCleared(Keys(data), page, k) {
      FoundIsRow(data, page, rows, ReverseOf(k));
      ForwardOfItsParts(k);
      assert AfterPage(ReverseOf(k)) == KeyOf(k);
    }
  }

  lemma PrefixSeparable(page: JsString)
    requires SEP !in page
    ensures Separable([RIDX, page])
  {
    assert SEP !in RIDX;
  }

  lemma RowIsFound<V>(data: map<JsString, V>, page: JsString, rows: seq<(Key, V)>, i: nat)
    requires SEP !in page && IsScan(data, [RIDX, page], rows) && i < |rows|
    ensures IsFound(Keys(data), page, rows[i].0)
    ensures Separable(rows[i].0)
  {
    assert IsRow(data, [RIDX, page], rows[i]);
    var s := Join(rows[i].0);
    assert ExtractKey(s) in Keys(data);
    PrefixSeparable(page);
    hide Keys, InRange, Leq, Join, IsScan;
    RangeIsPrefixQuery(rows[i].0, [RIDX, page]);
  }

  lemma FoundIsRow<V>(data: map<JsString, V>, page: JsString, rows: seq<(Key, V)>, k: Key)
    requires SEP !in page && IsScan(data, [RIDX, page], rows) && IsFound(Keys(data), page, k)
    ensures exists i :: 0 <= i < |rows| && k == rows[i].0
  {
    var s :| s in data && ExtractKey(s) == k;
    BuildUndoesExtract(s);
    PrefixSeparable(page);
    RangeIsPrefixQuery(k, [RIDX, page]);
    assert (k, data[s]) in rows;
  }

  lemma {:induction false} DeleteAllRows<V>(data: map<JsString, V>, keys: seq<Key>)
    requires AllStorable(keys)
    ensures DeleteAll(data, keys) == data - (set s | s in data && ExtractKey(s) in keys)
    decreases |keys|
  {
    if keys != [] {
      var key := keys[0];
      DeleteAllRows(data - {Join(key)}, keys[1..]);
      ExtractUndoesBuild(key);
      hide Join, ExtractKey;
      forall s
        ensures ExtractKey(s) in keys <==> s == Join(key) || ExtractKey(s) in keys[1..]
      {
        BuildUndoesExtract(s);
      }
    }
  }

  lemma {:induction false} ClearKeysStorable<V>(rows: seq<(Key, V)>, page: JsString)
    requires SEP !in page && forall i :: 0 <= i < |rows| ==> rows[i].0 != [] && Separable(rows[i].0)
    ensures AllStorable(ClearKeys(rows, page))
  {
    if rows != [] {
      var n := |rows| - 1;
      ClearKeysStorable(rows[..n], page);
      var k := AfterPage(rows[n].0);
      PairSeparable(k, page);
      SeparableConcat(k, [page]);
      assert Separable([page]);
      assert Separable(k);
    }
  }

  /** Deleting the keys collected from the query is clearing. */
  lemma DeletingIsClearing<V>(data: map<JsString, V>, page: JsString, rows: seq<(Key, V)>)
    requires SEP !in page && IsScan(data, [RIDX, page], rows)
    ensures DeleteAll(data, ClearKeys(rows, page)) == ClearedRows(data, page)
    ensures AllStorable(ClearKeys(rows, page))
  {
    hide IsScan, IsRow, Join, InRange, Keys, IsCleared, Separable, DeleteAll, ClearKeys, BelowTop, AllStorable;
    forall i | 0 <= i < |rows|
      ensures rows[i].0 != [] && Separable(rows[i].0)
    {
      RowIsFound(data, page, rows, i);
    }
    ClearKeysStorable(rows, page);
    DeleteAllRows(data, ClearKeys(rows, page));
    forall s | s in data
      ensures ExtractKey(s) in ClearKeys(rows, page) <==> IsCleared(Keys(data), page, ExtractKey(s))
    {
      ScanDecidesCleared(data, page, rows, s);
    }
  }

  lemma ClearedKeys<V>(data: map<JsString, V>, page: JsString, k: Key)
    ensures k in Keys(ClearedRows(data, page)) <==> k in Keys(data) && !IsCleared(Keys(data), page, k)
  {
    hide IsCleared, ExtractKey;
    if k in Keys(ClearedRows(data, page)) {
      var s :| s in ClearedRows(data, page) && ExtractKey(s) == k;
    }
    if k in Keys(data) && !IsCleared(Keys(data), page, k) {
      var s :| s in data && ExtractKey(s) == k;
      assert s in ClearedRows(data, page);
    }
  }

  lemma ClearingKeepsCover<V>(data: map<JsString, V>, page: JsString)
    requires Covered(Keys(data))
    ensures Covered(Keys(ClearedRows(data, page)))
  {
    hide Keys, ClearedRows, BelowTop;
    var after := Keys(ClearedRows(data, page));
    forall k | k in after && IsForward(k)
      ensures ReverseOf(k) in after
    {
      ClearedKeys(data, page, k);
      ClearedKeys(data, page, ReverseOf(k));
      ForwardIsForward(KeyOf(k), PageOf(k));
      assert StrictlyExtends(ReverseOf(k), [RIDX, page]) ==> ReverseOf(k)[..2][1] == page;
      assert ReverseOf(k)[1] == PageOf(k);
    }
  }

  /** Clearing a page removes its forward rows, all but those the query cannot reach: an empty key,
      or one that goes past U+FFFF. It removes no forward row of another page and no row that is not
      of the index. */
  lemma ClearsExactlyThePage<V>(data: map<JsString, V>, page: JsString, k: Key)
    requires Covered(Keys(data)) && k in Keys(data)
    ensures IsForward(k) ==>
            (k in Keys(ClearedRows(data, page)) <==>
             PageOf(k) != page || KeyOf(k) == [] || !BelowTop(KeyOf(k), 0))
    ensures k != [] && k[0] != IDX && k[0] != RIDX ==> k in Keys(ClearedRows(data, page))
    ensures |k| >= 2 && k[0] == RIDX && k[1] != page ==> k in Keys(ClearedRows(data, page))
  {
    ClearedKeys(data, page, k);
    hide Keys, ClearedRows;
    assert StrictlyExtends(k, [RIDX, page]) ==> k[..2][0] == k[0] == RIDX && k[..2][1] == k[1] == page;
    if IsForward(k) {
      var r := ReverseOf(k);
      assert r[..2] == [RIDX, PageOf(k)];
      assert r[..2][1] == PageOf(k);
      assert |r| > 2 <==> KeyOf(k) != [];
      if |r| > 2 {
        assert r[2] == KeyOf(k)[0];
        assert BelowTop(r, 2) <==> BelowTop(KeyOf(k), 0);
      }
    }
  }

  /** Values of the rows that stay are untouched. */
  lemma ClearingKeepsValues<V>(data: map<JsString, V>, page: JsString, s: JsString)
    requires s in ClearedRows(data, page)
    ensures s in data && ClearedRows(data, page)[s] == data[s]
  {
  }

  // ---------------------------------------------------------------- runs

  datatype Op<V> =
    | Set(page: JsString, kvs: seq<(Key, V)>)
    | Delete(page: JsString, keys: seq<Key>)
    | DeleteObject(page: JsString, tag: JsString, objectRef: JsString)
    | ClearFile(file: JsString)

  predicate EndsWith(s: JsString, suffix: JsString) {
    |suffix| <= |s| && s[|s| - |suffix|..] == suffix
  }

  /** The page of a file: its name without one trailing ".md". */
  function PageOfFile(file: JsString): (page: JsString) {
    if EndsWith(file, MD) then file[..|file| - |MD|] else file
  }

  function CleanKey(objectRef: JsString, page: JsString): JsString {
    if page + [AT] <= objectRef then objectRef[|page| + 1..] else objectRef
  }

  lemma FileOfPage(page: JsString)
    ensures PageOfFile(page + MD) == page
    ensures PageOfFile(page) == page <==> !EndsWith(page, MD)
    ensures CleanKey(page + [AT] + page, page) == page
  {
    assert (page + MD)[|page|..] == MD;
    assert page + [AT] <= page + [AT] + page;
  }

  /** What each operation makes of the store, also when it fails half-way. */
  ghost function Step<V>(data: map<JsString, V>, op: Op<V>, mark: V): map<JsString, V> {
    match op
    case Set(page, kvs) => PutAll(data, Pairs(page, FirstOfEachKey(kvs), mark))
    case Delete(page, keys) => DeleteAll(data, Forwards(page, keys))
    case DeleteObject(page, tag, objectRef) => DeleteAll(data, Forwards(page, [[tag, CleanKey(objectRef, page)]]))
    case ClearFile(file) => if SEP in PageOfFile(file) then data else ClearedRows(data, PageOfFile(file))
  }

  ghost function Run<V>(data: map<JsString, V>, ops: seq<Op<V>>, mark: V): map<JsString, V> {
    if ops == [] then data else Step(Run(data, ops[..|ops| - 1], mark), ops[|ops| - 1], mark)
  }

  lemma StepKeepsCover<V>(data: map<JsString, V>, op: Op<V>, mark: V)
    requires Covered(Keys(data))
    ensures Covered(Keys(Step(data, op, mark)))
  {
    hide Covered, Keys, Pairs, PutAll, DeleteAll, ClearedRows, FirstOfEachKey;
    match op
    case Set(page, kvs) => PairsKeepCover(data, page, FirstOfEachKey(kvs), mark);
    case Delete(page, keys) => DeletingForwardsKeepsCover(data, Forwards(page, keys));
    case DeleteObject(page, tag, objectRef) =>
      DeletingForwardsKeepsCover(data, Forwards(page, [[tag, CleanKey(objectRef, page)]]));
    case ClearFile(file) => ClearingKeepsCover(data, PageOfFile(file));
  }

  lemma {:induction false} RunKeepsCover<V>(data: map<JsString, V>, ops: seq<Op<V>>, mark: V)
    requires Covered(Keys(data))
    ensures Covered(Keys(Run(data, ops, mark)))
  {
    if ops != [] {
      hide Covered, Keys, Step;
      RunKeepsCover(data, ops[..|ops| - 1], mark);
      StepKeepsCover(Run(data, ops[..|ops| - 1], mark), ops[|ops| - 1], mark);
    }
  }

  /** The main result: after any run, clearing a file removes the forward rows of its page and of no other. */
  lemma ClearAfterAnyRun<V>(data: map<JsString, V>, ops: seq<Op<V>>, file: JsString, mark: V, k: Key)
    requires Covered(Keys(data)) && SEP !in PageOfFile(file)
    requires k in Keys(Run(data, ops, mark)) && IsForward(k)
    ensures k in Keys(Run(data, ops + [ClearFile(file)], mark)) <==>
            PageOf(k) != PageOfFile(file) || KeyOf(k) == [] || !BelowTop(KeyOf(k), 0)
  {
    assert (ops + [ClearFile(file)])[..|ops|] == ops;
    var before := Run(data, ops, mark);
    assert Run(data, ops + [ClearFile(file)], mark) == Step(before, ClearFile(file), mark);
    assert Step(before, ClearFile(file), mark) == ClearedRows(before, PageOfFile(file));
    hide *;
    RunKeepsCover(data, ops, mark);
    ClearsExactlyThePage(before, PageOfFile(file), k);
  }

  /** A row that survives its page: set from the empty store with an empty key, or with a key that goes past U+FFFF,
      and still there after the page is cleared. */
  lemma ClearLeavesRow<V>(page: JsString, key: Key, value: V, mark: V)
    requires SEP !in page && (key == [] || key == [[TOP, 65]])
    ensures var ops := [Set(page, [(key, value)]), ClearFile(page + MD)];
            Forward(key, page) in Keys(Run(map[], ops, mark))
  {
    var put, clear := Set(page, [(key, value)]), ClearFile(page + MD);
    var none: map<JsString, V> := map[];
    assert Keys(none) == {};
    assert Covered(Keys(none));
    assert [put][..0] == [] && [put] + [clear] == [put, clear];
    assert Run(none, [put], mark) == Step(none, put, mark);
    assert KeysOf([(key, value)])[0] == key;
    assert Separable(key + [page]) by {
      assert forall i :: 0 <= i < |key + [page]| ==> (key + [page])[i] in key || (key + [page])[i] == page;
    }
    assert AllBuild(page, [(key, value)]);
    FileOfPage(page);
    ForwardIsForward(key, page);
    hide Keys, Covered, Run, Step, Forward, AllBuild, KeyOf, PageOf;
    SetWritesPairs(none, page, [(key, value)], mark, key);
    ClearAfterAnyRun(none, [put], page + MD, mark, Forward(key, page));
  }

  /** Coverage goes one way only: deleting an object leaves its reverse row behind. */
  lemma DeleteLeavesReverse<V>(data: map<JsString, V>, page: JsString, keys: seq<Key>, k: Key)
    requires AllStorable(Forwards(page, keys))
    requires k in Keys(data) && !IsForward(k)
    ensures k in Keys(DeleteAll(data, Forwards(page, keys)))
  {
    hide Keys, DeleteAll, AllStorable;
    DeleteAllKeys(data, Forwards(page, keys));
    assert forall f :: f in Forwards(page, keys) ==> IsForward(f);
  }

  class ObjectIndex<V> {
    const ds: DataStore<V>
    const mark: V

    constructor (ds: DataStore<V>, mark: V)
      ensures this.ds == ds && this.mark == mark
    {
      this.ds := ds;
      this.mark := mark;
    }

    method BatchSet(page: JsString, kvs: seq<(Key, V)>) returns (ok: bool)
      modifies ds.kv
      ensures ok <==> AllBuild(page, kvs)
      ensures ds.kv.data == Step(old(ds.kv.data), Set(page, kvs), mark)
      ensures Covered(Keys(old(ds.kv.data))) ==> Covered(Keys(ds.kv.data))
    {
      hide *;
      var finalBatch: seq<(Key, V)> := [];
      assert finalBatch == Pairs(page, kvs[..0], mark) by {
        BatchStart(page, kvs, mark);
      }
      for n := 0 to |kvs|
        invariant finalBatch == Pairs(page, kvs[..n], mark)
        invariant ds.kv.data == old(ds.kv.data)
      {
        BatchStep(page, kvs, mark, n);
        finalBatch := finalBatch + [(Forward(kvs[n].0, page), kvs[n].1), (Reverse(kvs[n].0, page), mark)];
      }
      assert kvs[..|kvs|] == kvs;
      ok := ds.BatchSet(finalBatch);
      PairsOfFirsts(page, kvs, mark);
      PairsBuild(page, FirstOfEachKey(kvs), mark);
      FirstsBuild(page, kvs);
      RowsBuildMeans(Pairs(page, FirstOfEachKey(kvs), mark));
      StepIsPut(old(ds.kv.data), page, kvs, mark);
      CoverKept(old(ds.kv.data), Set(page, kvs), mark);
    }

    method BatchDelete(page: JsString, keys: seq<Key>) returns (ok: bool)
      modifies ds.kv
      ensures ok <==> forall i :: 0 <= i < |keys| ==> Separable(keys[i] + [page])
      ensures ds.kv.data == Step(old(ds.kv.data), Delete(page, keys), mark)
      ensures Covered(Keys(old(ds.kv.data))) ==> Covered(Keys(ds.kv.data))
    {
      var finalBatch: seq<Key> := [];
      for n := 0 to |keys|
        invariant |finalBatch| == n
        invariant forall i :: 0 <= i < n ==> finalBatch[i] == Forward(keys[i], page)
        invariant ds.kv.data == old(ds.kv.data)
      {
        finalBatch := finalBatch + [Forward(keys[n], page)];
      }
      assert finalBatch == Forwards(page, keys);
      hide Keys, Covered, DeleteAll;
      CoverKept(ds.kv.data, Delete(page, keys), mark);
      ForwardsBuild(page, keys);
      hide Separable;
      ok := ds.BatchDelete(finalBatch);
    }

    method DeleteObject(page: JsString, tag: JsString, objectRef: JsString) returns (ok: bool)
      modifies ds.kv
      ensures ok <==> SEP !in tag && SEP !in CleanKey(objectRef, page) && SEP !in page
      ensures ds.kv.data == Step(old(ds.kv.data), Op.DeleteObject(page, tag, objectRef), mark)
      ensures Covered(Keys(old(ds.kv.data))) ==> Covered(Keys(ds.kv.data))
    {
      hide Keys, Covered, DeleteAll;
      var key := [tag, CleanKey(objectRef, page)];
      TwoPartsSeparable(tag, CleanKey(objectRef, page), page);
      hide Separable;
      assert [key][0] == key;
      ok := BatchDelete(page, [key]);
    }

    /** False when the page's name cannot be part of a key; then nothing changes. */
    method ClearFileIndex(file: JsString) returns (ok: bool)
      modifies ds.kv
      ensures ok <==> SEP !in PageOfFile(file)
      ensures ds.kv.data == Step(old(ds.kv.data), ClearFile(file), mark)
      ensures Covered(Keys(old(ds.kv.data))) ==> Covered(Keys(ds.kv.data))
    {
      CoverKept(ds.kv.data, ClearFile(file), mark);
      var page := PageOfFile(file);
      assert SEP !in page <==> Separable([RIDX, page]) by {
        assert [RIDX, page][1] == page && SEP !in RIDX;
      }
      assert Step(ds.kv.data, ClearFile(file), mark) ==
             if SEP in page then ds.kv.data else ClearedRows(ds.kv.data, page);
      hide *;
      var found := ds.kv.Query([RIDX, page]);
      match found {
        case None => return false;
        case Some(rows) =>
          assert ClearKeys(rows[..0], page) == [] by {
            ClearStart(rows, page);
          }
          var allKeys: seq<Key> := [];
          for n := 0 to |rows|
            invariant allKeys == ClearKeys(rows[..n], page)
            invariant ds.kv.data == old(ds.kv.data)
          {
            ClearStep(rows, page, n);
            allKeys := allKeys + [rows[n].0, Forward(AfterPage(rows[n].0), page)];
          }
          assert rows[..|rows|] == rows;
          DeletingIsClearing(ds.kv.data, page, rows);
          AllSeparable(allKeys);
          ok := ds.BatchDelete(allKeys);
      }
    }
  }

  lemma TwoPartsSeparable(a: JsString, b: JsString, c: JsString)
    ensures Separable([a, b] + [c]) <==> SEP !in a && SEP !in b && SEP !in c
  {
    var key := [a, b] + [c];
    assert key[0] == a && key[1] == b && key[2] == c;
  }

  lemma ForwardsBuild(page: JsString, keys: seq<Key>)
    ensures (forall i :: 0 <= i < |keys| ==> Separable(Forwards(page, keys)[i])) <==>
            forall i :: 0 <= i < |keys| ==> Separable(keys[i] + [page])
  {
    hide Separable, Forward;
    forall i | 0 <= i < |keys|
      ensures Separable(Forwards(page, keys)[i]) <==> Separable(keys[i] + [page])
    {
      PairSeparable(keys[i], page);
    }
  }

  lemma RowsBuildMeans<V>(rows: seq<(Key, V)>)
    ensures RowsBuild(rows) <==> forall i :: 0 <= i < |rows| ==> Separable(rows[i].0)
  {
  }

  lemma AllSeparable(keys: seq<Key>)
    requires AllStorable(keys)
    ensures forall i :: 0 <= i < |keys| ==> Separable(keys[i])
  {
  }

  lemma BatchStart<V>(page: JsString, kvs: seq<(Key, V)>, mark: V)
    ensures Pairs(page, kvs[..0], mark) == []
  {
  }

  lemma BatchStep<V>(page: JsString, kvs: seq<(Key, V)>, mark: V, n: nat)
    requires n < |kvs|
    ensures Pairs(page, kvs[..n + 1], mark) ==
            Pairs(page, kvs[..n], mark) + [(Forward(kvs[n].0, page), kvs[n].1), (Reverse(kvs[n].0, page), mark)]
  {
    assert kvs[..n + 1] == kvs[..n] + [kvs[n]];
    hide *;
    PairsOfAdded(page, kvs[..n], kvs[n], mark);
  }

  lemma ClearStart<V>(rows: seq<(Key, V)>, page: JsString)
    ensures ClearKeys(rows[..0], page) == []
  {
  }

  lemma ClearStep<V>(rows: seq<(Key, V)>, page: JsString, n: nat)
    requires n < |rows|
    ensures ClearKeys(rows[..n + 1], page) ==
            ClearKeys(rows[..n], page) + [rows[n].0, Forward(AfterPage(rows[n].0), page)]
  {
    assert rows[..n + 1][..n] == rows[..n];
  }

  lemma StepIsPut<V>(data: map<JsString, V>, page: JsString, kvs: seq<(Key, V)>, mark: V)
    ensures Step(data, Set(page, kvs), mark) == PutAll(data, Pairs(page, FirstOfEachKey(kvs), mark))
  {
  }

  lemma CoverKept<V>(data: map<JsString, V>, op: Op<V>, mark: V)
    ensures Covered(Keys(data)) ==> Covered(Keys(Step(data, op, mark)))
  {
    hide *;
    if Covered(Keys(data)) {
      StepKeepsCover(data, op, mark);
    }
  }
}
