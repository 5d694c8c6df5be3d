/** The IndexedDB-backed key-value store, and the data store in front of it. */
module KvStore {
  import opened Options
  import opened Utf16
  import opened KvKeys

  /** Entries are written in order, up to the first whose key cannot be built. */
  function PutAll<V>(data: map<JsString, V>, entries: seq<(Key, V)>): map<JsString, V>
    decreases |entries|
  {
    if entries == [] || !Separable(entries[0].0) then data
    else PutAll(data[Join(entries[0].0) := entries[0].1], entries[1..])
  }

  function DeleteAll<V>(data: map<JsString, V>, keys: seq<Key>): map<JsString, V>
    decreases |keys|
  {
    if keys == [] || !Separable(keys[0]) then data
    else DeleteAll(data - {Join(keys[0])}, keys[1..])
  }

  /** The keys of the store, part by part. */
  ghost function Keys<V>(data: map<JsString, V>): set<Key> {
    set s | s in data :: ExtractKey(s)
  }

  ghost predicate AllStorable(keys: seq<Key>) {
    forall i :: 0 <= i < |keys| ==> keys[i] != [] && Separable(keys[i])
  }

  function KeysOf<V>(entries: seq<(Key, V)>): seq<Key> {
    seq(|entries|, i requires 0 <= i < |entries| => entries[i].0)
  }

  lemma StoredKey<V>(data: map<JsString, V>, key: Key)
    requires key != [] && Separable(key)
    ensures key in Keys(data) <==> Join(key) in data
  {
    ExtractUndoesBuild(key);
    if key in Keys(data) {
      var s :| s in data && ExtractKey(s) == key;
      BuildUndoesExtract(s);
    }
  }

  lemma PutOneKey<V>(data: map<JsString, V>, key: Key, value: V)
    requires key != [] && Separable(key)
    ensures Keys(data[Join(key) := value]) == Keys(data) + {key}
  {
    ExtractUndoesBuild(key);
    var after := data[Join(key) := value];
    assert forall s :: s in after <==> s in data || s == Join(key);
    forall k
      ensures k in Keys(after) <==> k in Keys(data) || k == key
    {
      if k in Keys(data) {
        var s :| s in data && ExtractKey(s) == k;
        assert s in after;
      }
      if k == key {
        assert Join(key) in after && ExtractKey(Join(key)) == key;
      }
    }
  }

  lemma DeleteOneKey<V>(data: map<JsString, V>, key: Key)
    requires key != [] && Separable(key)
    ensures Keys(data - {Join(key)}) == Keys(data) - {key}
  {
    ExtractUndoesBuild(key);
    var after := data - {Join(key)};
    forall k
      ensures k in Keys(after) <==> k in Keys(data) && k != key
    {
      if k in Keys(after) {
        var s :| s in after && ExtractKey(s) == k;
        BuildUndoesExtract(s);
      }
      if k in Keys(data) && k != key {
        var s :| s in data && ExtractKey(s) == k;
        assert s in after;
      }
    }
  }

  lemma KeysOfRest<V>(entries: seq<(Key, V)>)
    requires entries != []
    ensures KeysOf(entries)[0] == entries[0].0
    ensures AllStorable(KeysOf(entries)) ==>
            Separable(entries[0].0) && entries[0].0 != [] && AllStorable(KeysOf(entries[1..]))
    ensures forall k :: k in KeysOf(entries) <==> k == entries[0].0 || k in KeysOf(entries[1..])
  {
    hide Separable;
    var rest := entries[1..];
    assert KeysOf(entries) == [entries[0].0] + KeysOf(rest);
    assert forall i :: 0 <= i < |rest| ==> KeysOf(rest)[i] == KeysOf(entries)[i + 1];
  }

  lemma {:induction false} PutAllKeys<V>(data: map<JsString, V>, entries: seq<(Key, V)>)
    requires AllStorable(KeysOf(entries))
    ensures Keys(PutAll(data, entries)) == Keys(data) + (set k | k in KeysOf(entries))
    decreases |entries|
  {
    if entries != [] {
      var key, rest := entries[0].0, entries[1..];
      hide Join, ExtractKey, Keys, AllStorable, Separable;
      KeysOfRest(entries);
      hide KeysOf;
      PutOneKey(data, key, entries[0].1);
      PutAllKeys(data[Join(key) := entries[0].1], rest);
      assert PutAll(data, entries) == PutAll(data[Join(key) := entries[0].1], rest);
    }
  }

  /** The first n entries are written: their keys can be built, and after them the entries end or a key cannot. */
  ghost predicate IsWritten<V>(entries: seq<(Key, V)>, n: nat) {
    && n <= |entries|
    && (forall i :: 0 <= i < n ==> Separable(entries[i].0))
    && (n < |entries| ==> !Separable(entries[n].0))
  }

  /** Is this the last entry written under the string? */
  ghost predicate IsLastOf<V>(entries: seq<(Key, V)>, n: nat, i: int, s: JsString)
    requires n <= |entries|
  {
    0 <= i < n && Join(entries[i].0) == s && forall j :: i < j < n ==> Join(entries[j].0) != s
  }

  lemma WrittenRest<V>(entries: seq<(Key, V)>, n: nat)
    requires IsWritten(entries, n) && n > 0
    ensures Separable(entries[0].0) && IsWritten(entries[1..], n - 1)
    ensures forall i, s :: IsLastOf(entries, n, i, s) && i > 0 ==> IsLastOf(entries[1..], n - 1, i - 1, s)
  {
    hide Separable, Join;
    assert forall i :: 0 <= i < n - 1 ==> entries[1..][i] == entries[i + 1];
  }

  /** Of the entries written under a string the last one is what the store then holds. */
  lemma {:induction false} LastPutStays<V>(data: map<JsString, V>, entries: seq<(Key, V)>, n: nat, i: nat, s: JsString)
    requires IsWritten(entries, n) && IsLastOf(entries, n, i, s)
    ensures s in PutAll(data, entries) && PutAll(data, entries)[s] == entries[i].1
    decreases n
  {
    var s0, v0, rest := Join(entries[0].0), entries[0].1, entries[1..];
    WrittenRest(entries, n);
    assert PutAll(data, entries) == PutAll(data[s0 := v0], rest);
    if i == 0 {
      assert forall j :: 0 <= j < n - 1 ==> rest[j] == entries[j + 1];
      hide PutAll, Separable;
      PutElsewhere(data[s0 := v0], rest, n - 1, s);
    } else {
      hide PutAll, Separable;
      LastPutStays(data[s0 := v0], rest, n - 1, i - 1, s);
    }
  }

  /** A string under which no entry is written keeps what it had. */
  lemma {:induction false} PutElsewhere<V>(data: map<JsString, V>, entries: seq<(Key, V)>, n: nat, s: JsString)
    requires IsWritten(entries, n)
    requires forall j :: 0 <= j < n ==> Join(entries[j].0) != s
    ensures s in PutAll(data, entries) <==> s in data
    ensures s in data ==> PutAll(data, entries)[s] == data[s]
    decreases n
  {
    if n > 0 {
      WrittenRest(entries, n);
      var s0, v0, rest := Join(entries[0].0), entries[0].1, entries[1..];
      assert PutAll(data, entries) == PutAll(data[s0 := v0], rest);
      assert s0 != s;
      assert forall j :: 0 <= j < n - 1 ==> rest[j] == entries[j + 1];
      hide PutAll, Separable;
      PutElsewhere(data[s0 := v0], rest, n - 1, s);
    }
  }

  lemma {:induction false} DeleteAllKeys<V>(data: map<JsString, V>, keys: seq<Key>)
    requires AllStorable(keys)
    ensures Keys(DeleteAll(data, keys)) == Keys(data) - (set k | k in keys)
    decreases |keys|
  {
    if keys != [] {
      hide Join, ExtractKey;
      DeleteOneKey(data, keys[0]);
      DeleteAllKeys(data - {Join(keys[0])}, keys[1..]);
      hide Keys, DeleteAll;
      assert forall k :: k in keys <==> k == keys[0] || k in keys[1..];
    }
  }

  /** The rows of a scan: every stored key in the range of the prefix, in ascending order, with its value. */
  ghost predicate IsScan<V>(data: map<JsString, V>, prefix: Key, rows: seq<(Key, V)>) {
    && (forall i :: 0 <= i < |rows| ==> IsRow(data, prefix, rows[i]))
    && (forall i, j :: 0 <= i < j < |rows| ==> Less(Join(rows[i].0), Join(rows[j].0)))
    && (forall s :: s in data && InRange(s, prefix) ==> (ExtractKey(s), data[s]) in rows)
  }

  ghost predicate IsRow<V>(data: map<JsString, V>, prefix: Key, row: (Key, V)) {
    var s := Join(row.0);
    s in data && InRange(s, prefix) && row == (ExtractKey(s), data[s])
  }

  /** Rows found so far, with the keys still to come all behind them. */
  ghost predicate PartScan<V>(data: map<JsString, V>, prefix: Key, found: seq<(Key, V)>, rest: set<JsString>) {
    && (forall s :: s in rest ==> s in data && InRange(s, prefix))
    && (forall s :: s in data && InRange(s, prefix) ==> s in rest || (ExtractKey(s), data[s]) in found)
    && (forall i :: 0 <= i < |found| ==> IsRow(data, prefix, found[i]))
    && (forall i, s :: 0 <= i < |found| && s in rest ==> Less(Join(found[i].0), s))
    && (forall i, j :: 0 <= i < j < |found| ==> Less(Join(found[i].0), Join(found[j].0)))
  }

  lemma PartScanIsInData<V>(data: map<JsString, V>, prefix: Key, found: seq<(Key, V)>, rest: set<JsString>, s: JsString)
    requires PartScan(data, prefix, found, rest) && s in rest
    ensures s in data
  {
    hide InRange, Leq, Join, ExtractKey, IsRow;
  }

  lemma RowOf<V>(data: map<JsString, V>, prefix: Key, s: JsString)
    requires s in data && InRange(s, prefix)
    ensures IsRow(data, prefix, (ExtractKey(s), data[s]))
  {
    BuildUndoesExtract(s);
  }

  lemma AddedBehind<V>(found: seq<(Key, V)>, rest: set<JsString>, row: (Key, V), s: JsString)
    requires s in rest && Join(row.0) == s && forall x :: x in rest ==> Leq(s, x)
    requires forall i, x :: 0 <= i < |found| && x in rest ==> Less(Join(found[i].0), x)
    ensures forall i, x :: 0 <= i <= |found| && x in rest - {s} ==> Less(Join((found + [row])[i].0), x)
    ensures (forall i, j :: 0 <= i < j < |found| ==> Less(Join(found[i].0), Join(found[j].0))) ==>
            forall i, j :: 0 <= i < j <= |found| ==> Less(Join((found + [row])[i].0), Join((found + [row])[j].0))
  {
    hide Leq, Join;
  }

  lemma PartScanStep<V>(data: map<JsString, V>, prefix: Key, found: seq<(Key, V)>, rest: set<JsString>, s: JsString)
    requires PartScan(data, prefix, found, rest)
    requires s in rest && s in data && forall x :: x in rest ==> Leq(s, x)
    ensures PartScan(data, prefix, found + [(ExtractKey(s), data[s])], rest - {s})
  {
    BuildUndoesExtract(s);
    hide InRange, Leq, Join, ExtractKey, IsRow;
    var row := (ExtractKey(s), data[s]);
    var after := found + [row];
    RowOf(data, prefix, s);
    AddedBehind(found, rest, row, s);
    hide Less;
    assert forall r :: r in found ==> r in after;
    assert row in after;
  }

  lemma PartScanEnds<V>(data: map<JsString, V>, prefix: Key, found: seq<(Key, V)>)
    requires PartScan(data, prefix, found, {})
    ensures IsScan(data, prefix, found)
  {
    hide InRange, Leq, Join, ExtractKey, IsRow;
  }

  class IndexedDBKvPrimitives<V> {
    var data: map<JsString, V>

    constructor ()
      ensures data == map[]
    {
      data := map[];
    }

    method Clear()
      modifies this
      ensures data == map[]
    {
      data := map[];
    }

    /** False when some key could not be built; what was put before it stays. */
    method BatchSet(entries: seq<(Key, V)>) returns (ok: bool)
      modifies this
      ensures ok <==> forall i :: 0 <= i < |entries| ==> Separable(entries[i].0)
      ensures data == PutAll(old(data), entries)
    {
      for n := 0 to |entries|
        invariant forall i :: 0 <= i < n ==> Separable(entries[i].0)
        invariant PutAll(data, entries[n..]) == PutAll(old(data), entries)
      {
        assert entries[n..][0] == entries[n] && entries[n..][1..] == entries[n + 1..];
        match BuildKey(entries[n].0) {
          case None => return false;
          case Some(s) => data := data[s := entries[n].1];
        }
      }
      return true;
    }

    method BatchDelete(keys: seq<Key>) returns (ok: bool)
      modifies this
      ensures ok <==> forall i :: 0 <= i < |keys| ==> Separable(keys[i])
      ensures data == DeleteAll(old(data), keys)
    {
      for n := 0 to |keys|
        invariant forall i :: 0 <= i < n ==> Separable(keys[i])
        invariant DeleteAll(data, keys[n..]) == DeleteAll(old(data), keys)
      {
        assert keys[n..][0] == keys[n] && keys[n..][1..] == keys[n + 1..];
        match BuildKey(keys[n]) {
          case None => return false;
          case Some(s) => data := data - {s};
        }
      }
      return true;
    }

    /** None when the prefix cannot be built; otherwise the scan of its range. */
    method Query(prefix: Key) returns (rows: Option<seq<(Key, V)>>)
      ensures rows.None? <==> !Separable(prefix)
      ensures rows.Some? ==> IsScan(data, prefix, rows.value)
    {
      if !Separable(prefix) {
        return None;
      }
      var found: seq<(Key, V)> := [];
      var rest := set s | s in data && InRange(s, prefix);
      assert PartScan(data, prefix, found, rest);
      hide PartScan, IsScan, InRange, Leq, Join, ExtractKey;
      while rest != {}
        invariant PartScan(data, prefix, found, rest)
        decreases rest
      {
        ghost var least := Least(rest);
        var s :| s in rest && forall x :: x in rest ==> Leq(s, x);
        PartScanIsInData(data, prefix, found, rest, s);
        PartScanStep(data, prefix, found, rest, s);
        found := found + [(ExtractKey(s), data[s])];
        rest := rest - {s};
      }
      PartScanEnds(data, prefix, found);
      return Some(found);
    }

    method CountQuery(prefix: Key) returns (n: Option<nat>)
      ensures n.None? <==> !Separable(prefix)
      ensures n.Some? ==> n.value == |Extensions(data, prefix)|
    {
      if !Separable(prefix) {
        return None;
      }
      var found := set s | s in data && InRange(s, prefix);
      CountIsOfExtensions(data, prefix, found);
      return Some(|found|);
    }
  }

  /** The stored keys that strictly extend the prefix and do not go past U+FFFF there. */
  ghost function Extensions<V>(data: map<JsString, V>, prefix: Key): set<Key> {
    set key | key in Keys(data) && StrictlyExtends(key, prefix) && BelowTop(key, |prefix|)
  }

  ghost function Extracted(ss: set<JsString>): set<Key> {
    set s | s in ss :: ExtractKey(s)
  }

  /** Different strings are different keys. */
  lemma {:induction false} ExtractedSize(ss: set<JsString>)
    ensures |Extracted(ss)| == |ss|
    decreases |ss|
  {
    hide ExtractKey;
    if ss == {} {
      assert Extracted(ss) == {};
    } else {
      var s :| s in ss;
      var rest := ss - {s};
      ExtractedSize(rest);
      forall r | r in rest
        ensures ExtractKey(r) != ExtractKey(s)
      {
        BuildUndoesExtract(r);
        BuildUndoesExtract(s);
      }
      assert Extracted(ss) == Extracted(rest) + {ExtractKey(s)};
    }
  }

  lemma CountIsOfExtensions<V>(data: map<JsString, V>, prefix: Key, found: set<JsString>)
    requires Separable(prefix) && found == set s | s in data && InRange(s, prefix)
    ensures |found| == |Extensions(data, prefix)|
  {
    hide ExtractKey, InRange, Join, BelowTop;
    forall s
      ensures InRange(s, prefix) <==>
              StrictlyExtends(ExtractKey(s), prefix) && BelowTop(ExtractKey(s), |prefix|)
    {
      BuildUndoesExtract(s);
      RangeIsPrefixQuery(ExtractKey(s), prefix);
    }
    assert Extracted(found) == Extensions(data, prefix);
    ExtractedSize(found);
  }

  /** A scan returns exactly the rows whose key strictly extends the prefix, but for those that go past U+FFFF there. */
  lemma {:induction false} ScanIsPrefixQuery<V>(data: map<JsString, V>, prefix: Key, rows: seq<(Key, V)>, key: Key)
    requires Separable(prefix) && IsScan(data, prefix, rows) && key != [] && Separable(key)
    ensures (exists v :: (key, v) in rows) <==>
            key in Keys(data) && StrictlyExtends(key, prefix) && BelowTop(key, |prefix|)
    ensures forall v :: (key, v) in rows ==> Join(key) in data && v == data[Join(key)]
  {
    hide Join, InRange, Leq, ExtractKey;
    RangeIsPrefixQuery(key, prefix);
    StoredKey(data, key);
    ExtractUndoesBuild(key);
    if exists v :: (key, v) in rows {
      var v :| (key, v) in rows;
      var i :| 0 <= i < |rows| && rows[i] == (key, v);
      assert IsRow(data, prefix, rows[i]);
    }
    forall v | (key, v) in rows
      ensures Join(key) in data && v == data[Join(key)]
    {
      var i :| 0 <= i < |rows| && rows[i] == (key, v);
      assert IsRow(data, prefix, rows[i]);
    }
    if key in Keys(data) && StrictlyExtends(key, prefix) && BelowTop(key, |prefix|) {
      assert (key, data[Join(key)]) in rows;
    }
  }

  /** Entries whose key has occurred before are dropped, so the first value of a key wins. */
  function FirstOfEachKey<V>(entries: seq<(Key, V)>): seq<(Key, V)> {
    if entries == [] then []
    else
      var n := |entries| - 1;
      var kept := FirstOfEachKey(entries[..n]);
      if entries[n].0 in KeysOf(entries[..n]) then kept else kept + [entries[n]]
  }

  lemma {:induction false} FirstOfEachKeyKeys<V>(entries: seq<(Key, V)>, k: Key)
    ensures k in KeysOf(FirstOfEachKey(entries)) <==> k in KeysOf(entries)
  {
    if entries != [] {
      var n := |entries| - 1;
      FirstOfEachKeyKeys(entries[..n], k);
      var kept, last := FirstOfEachKey(entries[..n]), entries[n];
      assert KeysOf(entries) == KeysOf(entries[..n]) + [last.0];
      assert KeysOf(kept + [last]) == KeysOf(kept) + [last.0];
    }
  }

  /** Is this an entry, and none before it of the same key? */
  ghost predicate IsFirstEntry<V>(entries: seq<(Key, V)>, entry: (Key, V)) {
    exists i :: 0 <= i < |entries| && entries[i] == entry && entry.0 !in KeysOf(entries[..i])
  }

  lemma FirstEntryAdded<V>(entries: seq<(Key, V)>, last: (Key, V), entry: (Key, V))
    ensures IsFirstEntry(entries + [last], entry) <==>
            IsFirstEntry(entries, entry) || (entry == last && last.0 !in KeysOf(entries))
  {
    var all := entries + [last];
    assert all[..|entries|] == entries && all[|entries|] == last;
    hide KeysOf;
    if IsFirstEntry(entries, entry) {
      var i :| 0 <= i < |entries| && entries[i] == entry && entry.0 !in KeysOf(entries[..i]);
      assert all[..i] == entries[..i] && all[i] == entry;
    }
    if IsFirstEntry(all, entry) {
      var i :| 0 <= i < |all| && all[i] == entry && entry.0 !in KeysOf(all[..i]);
      assert i < |entries| ==> all[..i] == entries[..i] && entries[i] == entry;
    }
  }

  /** What is kept is exactly the first entry of each key. */
  lemma {:induction false} FirstsAreFirst<V>(entries: seq<(Key, V)>, entry: (Key, V))
    ensures entry in FirstOfEachKey(entries) <==> IsFirstEntry(entries, entry)
  {
    if entries != [] {
      var n := |entries| - 1;
      FirstsAreFirst(entries[..n], entry);
      FirstEntryAdded(entries[..n], entries[n], entry);
      assert entries == entries[..n] + [entries[n]];
      hide IsFirstEntry, KeysOf;
    }
  }

  /** No key is kept twice. */
  lemma {:induction false} FirstsDiffer<V>(entries: seq<(Key, V)>)
    ensures var firsts := FirstOfEachKey(entries);
            forall a, b :: 0 <= a < b < |firsts| ==> firsts[a].0 != firsts[b].0
  {
    if entries != [] {
      var n := |entries| - 1;
      FirstsDiffer(entries[..n]);
      var kept := FirstOfEachKey(entries[..n]);
      FirstOfEachKeyKeys(entries[..n], entries[n].0);
      assert forall a :: 0 <= a < |kept| ==> kept[a].0 == KeysOf(kept)[a];
    }
  }

  /** After a batch the store holds, under each of its keys, the first value the batch had for it. */
  lemma FirstValueWins<V>(data: map<JsString, V>, entries: seq<(Key, V)>, entry: (Key, V))
    requires IsFirstEntry(entries, entry) && AllStorable(KeysOf(entries))
    ensures var after := PutAll(data, FirstOfEachKey(entries));
            Join(entry.0) in after && after[Join(entry.0)] == entry.1
  {
    var firsts := FirstOfEachKey(entries);
    hide FirstOfEachKey, PutAll, Join, Separable, ExtractKey, IsFirstEntry;
    FirstsAreFirst(entries, entry);
    var i: nat :| i < |firsts| && firsts[i] == entry;
    FirstsStorable(entries);
    FirstsDiffer(entries);
    forall j | i < j < |firsts|
      ensures Join(firsts[j].0) != Join(entry.0)
    {
      ExtractUndoesBuild(firsts[i].0);
      ExtractUndoesBuild(firsts[j].0);
    }
    LastPutStays(data, firsts, |firsts|, i, Join(entry.0));
  }

  lemma FirstsStorable<V>(entries: seq<(Key, V)>)
    requires AllStorable(KeysOf(entries))
    ensures var firsts := FirstOfEachKey(entries);
            forall i :: 0 <= i < |firsts| ==> firsts[i].0 != [] && Separable(firsts[i].0)
  {
    var firsts := FirstOfEachKey(entries);
    hide FirstOfEachKey, Separable;
    forall i | 0 <= i < |firsts|
      ensures firsts[i].0 != [] && Separable(firsts[i].0)
    {
      assert KeysOf(firsts)[i] == firsts[i].0;
      FirstOfEachKeyKeys(entries, firsts[i].0);
      var j :| 0 <= j < |KeysOf(entries)| && KeysOf(entries)[j] == firsts[i].0;
    }
  }

  class DataStore<V> {
    const kv: IndexedDBKvPrimitives<V>

    constructor (kv: IndexedDBKvPrimitives<V>)
      ensures this.kv == kv
    {
      this.kv := kv;
    }

    method BatchSet(entries: seq<(Key, V)>) returns (ok: bool)
      modifies kv
      ensures ok <==> forall i :: 0 <= i < |FirstOfEachKey(entries)| ==> Separable(FirstOfEachKey(entries)[i].0)
      ensures kv.data == PutAll(old(kv.data), FirstOfEachKey(entries))
    {
      if entries == [] {
        return true;
      }
      var seen: set<Key> := {};
      var unique: seq<(Key, V)> := [];
      for n := 0 to |entries|
        invariant seen == set k | k in KeysOf(entries[..n])
        invariant unique == FirstOfEachKey(entries[..n])
      {
        assert entries[..n + 1][..n] == entries[..n];
        assert KeysOf(entries[..n + 1]) == KeysOf(entries[..n]) + [entries[n].0];
        if entries[n].0 !in seen {
          seen := seen + {entries[n].0};
          unique := unique + [entries[n]];
        }
      }
      assert entries[..|entries|] == entries;
      ok := kv.BatchSet(unique);
    }

    method BatchDelete(keys: seq<Key>) returns (ok: bool)
      modifies kv
      ensures ok <==> forall i :: 0 <= i < |keys| ==> Separable(keys[i])
      ensures kv.data == DeleteAll(old(kv.data), keys)
    {
      if keys == [] {
        return true;
      }
      ok := kv.BatchDelete(keys);
    }
  }
}
