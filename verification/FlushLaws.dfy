/** What a batch and a flush come to, said by the positions of events and entries. */
module FlushLaws {
  import opened RealtimeEvents

  // ---------------------------------------------------------------- the pending map

  /** An event whose name is pending takes the place of the first event of that name. */
  lemma {:induction false} PutInPlace(pending: seq<Event>, ev: Event, i: nat)
    requires i < |pending| && pending[i].name == ev.name && forall j :: 0 <= j < i ==> pending[j].name != ev.name
    ensures Put(pending, ev) == pending[i := ev]
  {
    if i > 0 {
      PutInPlace(pending[1..], ev, i - 1);
      assert pending == [pending[0]] + pending[1..];
    }
  }

  /** An event whose name is not pending comes last. */
  lemma {:induction false} PutAtEnd(pending: seq<Event>, ev: Event)
    requires forall j :: 0 <= j < |pending| ==> pending[j].name != ev.name
    ensures Put(pending, ev) == pending + [ev]
  {
    if pending != [] {
      PutAtEnd(pending[1..], ev);
      assert pending == [pending[0]] + pending[1..];
    }
  }

  // ---------------------------------------------------------------- picking by action

  /** The positions, in ascending order, of the events of one action. */
  ghost predicate ArePositions(batch: seq<Event>, action: Action, at: seq<nat>) {
    && (forall x, y :: 0 <= x < y < |at| ==> at[x] < at[y])
    && (forall x :: 0 <= x < |at| ==> at[x] < |batch| && batch[at[x]].action == action)
    && (forall i: nat :: i < |batch| && batch[i].action == action ==> i in at)
  }

  lemma {:induction false} OfActionAdded(batch: seq<Event>, action: Action, last: Event)
    ensures OfAction(batch + [last], action) ==
            OfAction(batch, action) + if last.action == action then [last] else []
  {
    if batch != [] {
      OfActionAdded(batch[1..], action, last);
      assert (batch + [last])[1..] == batch[1..] + [last];
    }
  }

  /** The events picked are those at these positions, one by one. */
  ghost predicate ArePicks(batch: seq<Event>, action: Action, at: seq<nat>, picks: seq<Event>) {
    && ArePositions(batch, action, at)
    && |at| == |picks|
    && (forall x :: 0 <= x < |at| ==> picks[x] == batch[at[x]])
  }

  lemma PicksAdded(batch: seq<Event>, action: Action, at: seq<nat>, picks: seq<Event>, last: Event)
    requires ArePicks(batch, action, at, picks)
    ensures last.action == action ==> ArePicks(batch + [last], action, at + [|batch|], picks + [last])
    ensures last.action != action ==> ArePicks(batch + [last], action, at, picks)
  {
    assert forall x :: x in at ==> x in at + [|batch|];
    assert forall i: nat :: i < |batch| ==> (batch + [last])[i] == batch[i];
  }

  /** The events of one action are picked in the order of the batch. */
  lemma {:induction false} PicksInOrder(batch: seq<Event>, action: Action) returns (at: seq<nat>)
    ensures ArePicks(batch, action, at, OfAction(batch, action))
  {
    at := [];
    if batch != [] {
      var n := |batch| - 1;
      var last, before := batch[n], OfAction(batch[..n], action);
      assert batch == batch[..n] + [last];
      hide *;
      at := PicksInOrder(batch[..n], action);
      PicksAdded(batch[..n], action, at, before, last);
      OfActionAdded(batch[..n], action, last);
      assert before + [] == before;
      at := if last.action == action then at + [n] else at;
    }
  }

  ghost predicate FourChanges(batch: seq<Event>, i: nat, j: nat, k: nat, l: nat) {
    && i < j < k < l < |batch|
    && batch[i].action == batch[j].action == batch[k].action == batch[l].action == Change
  }

  /** A batch is a flood exactly when it asks for a resync or has changes at four places. */
  lemma FloodExactlyWhen(batch: seq<Event>)
    ensures IsFlood(batch) <==>
            (exists ev :: ev in batch && ev.action == Resync) ||
            (exists i: nat, j: nat, k: nat, l: nat :: FourChanges(batch, i, j, k, l))
  {
    var at := PicksInOrder(batch, Change);
    var resyncs, changes := OfAction(batch, Resync), OfAction(batch, Change);
    assert resyncs != [] <==> exists ev :: ev in batch && ev.action == Resync by {
      if resyncs != [] {
        assert resyncs[0] in resyncs;
      }
    }
    assert |changes| >= 4 ==> FourChanges(batch, at[0], at[1], at[2], at[3]);
    if i: nat, j: nat, k: nat, l: nat :| FourChanges(batch, i, j, k, l) {
      FourInside(at, i, j, k, l);
    }
  }

  lemma FourInside(at: seq<nat>, i: nat, j: nat, k: nat, l: nat)
    requires forall x, y :: 0 <= x < y < |at| ==> at[x] < at[y]
    requires i < j < k < l && i in at && j in at && k in at && l in at
    ensures |at| >= 4
  {
    var a, b :| 0 <= a < |at| && 0 <= b < |at| && at[a] == i && at[b] == j;
    var c, d :| 0 <= c < |at| && 0 <= d < |at| && at[c] == k && at[d] == l;
    assert a < b < c < d;
  }

  // ---------------------------------------------------------------- every call is due

  /** Is this a call, or a rejection of one, that an event of the batch asks for? Files are handled only outside a
      flood. */
  ghost predicate IsDue(batch: seq<Event>, entry: Entry) {
    match entry
    case Arrived(_) => false
    case Called(call, b) => b == batch && IsDueCall(batch, call)
    case Failed(call, b) => b == batch && IsDueCall(batch, call)
  }

  ghost predicate IsDueCall(batch: seq<Event>, call: Call) {
    && (exists ev :: Covers(call, batch, ev))
    && (call.SyncFile? || call.ProbeFile? ==> !IsFlood(batch))
  }

  /** The changes a flush has still to come to are the last of its batch. */
  ghost predicate IsOnItsWay(f: Flush, n: nat) {
    var changes := OfAction(f.batch, Change);
    match f.phase
    case FloodStart => IsFlood(f.batch)
    case FloodSyncing => IsFlood(f.batch)
    case Files(rest) => !IsFlood(f.batch) && n <= |changes| && rest == changes[n..]
    case FileSyncing(ev, rest) =>
      !IsFlood(f.batch) && n < |changes| && ev == changes[n] && rest == changes[n + 1..]
    case FileProbing(ev, rest) =>
      !IsFlood(f.batch) && n < |changes| && ev == changes[n] && rest == changes[n + 1..]
    case Refreshing => IsFlood(f.batch) || OfAction(f.batch, Delete) != []
    case Done => true
  }

  function Next(f: Flush, n: nat, ok: bool): nat {
    if f.phase.FileProbing? || (f.phase.FileSyncing? && !ok) then n + 1 else n
  }

  lemma BeginsOnItsWay(batch: seq<Event>)
    ensures IsOnItsWay(Begin(batch), 0)
  {
    assert OfAction(batch, Change)[0..] == OfAction(batch, Change);
  }

  lemma FloodIsNotEmpty(batch: seq<Event>)
    requires IsFlood(batch)
    ensures batch != []
  {
  }

  lemma StaysOnItsWay(f: Flush, n: nat, active: bool, ok: bool)
    requires !f.phase.Done? && IsOnItsWay(f, n)
    ensures IsOnItsWay(Advance(f, active, ok).0, Next(f, n, ok))
  {
    hide IsFlood;
  }

  lemma AdvanceIsDue(f: Flush, n: nat, active: bool, ok: bool)
    requires !f.phase.Done? && IsOnItsWay(f, n)
    ensures var (g, es) := Advance(f, active, ok);
            forall i :: 0 <= i < |es| ==> IsDue(f.batch, es[i])
  {
    var batch := f.batch;
    var (g, es) := Advance(f, active, ok);
    var changes, deletes := OfAction(batch, Change), OfAction(batch, Delete);
    if IsFlood(batch) {
      FloodIsNotEmpty(batch);
      hide IsFlood, OfAction;
      assert Covers(SyncSpace, batch, batch[0]) && Covers(RefreshFileList, batch, batch[0]);
    } else {
      hide IsFlood;
      if n < |changes| {
        var ev := changes[n];
        assert ev in changes;
        assert Covers(SyncFile(ev.name), batch, ev) && Covers(ProbeFile(ev.name), batch, ev);
      }
      if deletes != [] {
        assert deletes[0] in deletes;
        assert Covers(RefreshFileList, batch, deletes[0]);
      }
    }
  }

  lemma {:induction false} EntriesAreDue(f: Flush, n: nat, k: nat, active: nat -> bool, ok: nat -> bool, i: nat)
    requires IsOnItsWay(f, n) && i < |Entries(f, k, active, ok)|
    ensures IsDue(f.batch, Entries(f, k, active, ok)[i])
    decreases Work(f.phase)
  {
    hide IsOnItsWay, IsDue, Advance, Work;
    FlushAdvances(f, active(k), ok(k));
    EntriesUnfold(f, k, active, ok);
    var (g, es) := Advance(f, active(k), ok(k));
    hide Entries;
    if i < |es| {
      AdvanceIsDue(f, n, active(k), ok(k));
    } else {
      StaysOnItsWay(f, n, active(k), ok(k));
      EntriesAreDue(g, Next(f, n, ok(k)), k + 1, active, ok, i - |es|);
    }
  }

  /** No call is made, and none rejected, that no event of the batch asks for. */
  lemma CallsAreDue(batch: seq<Event>, active: nat -> bool, ok: nat -> bool, i: nat)
    requires i < |Entries(Begin(batch), 0, active, ok)|
    ensures IsDue(batch, Entries(Begin(batch), 0, active, ok)[i])
  {
    assert Begin(batch).batch == batch;
    hide *;
    BeginsOnItsWay(batch);
    EntriesAreDue(Begin(batch), 0, 0, active, ok, i);
  }

  // ---------------------------------------------------------------- the order of the calls

  /** Do two changes of the batch, in this order, have these names? */
  ghost predicate InTurn(batch: seq<Event>, first: string, second: string) {
    exists i, j :: 0 <= i < j < |batch| && IsChange(batch[i], first) && IsChange(batch[j], second)
  }

  ghost predicate IsChange(ev: Event, name: string) {
    ev.action == Change && ev.name == name
  }

  ghost predicate SameKind(a: Call, b: Call) {
    (a.SyncFile? && b.SyncFile?) || (a.ProbeFile? && b.ProbeFile?)
  }

  /** Files are synced in the order of the batch and none for one event twice, and so they are probed. */
  ghost predicate FilesInTurn(batch: seq<Event>, log: seq<Entry>) {
    forall x, y :: 0 <= x < y < |log| && log[x].Called? && log[y].Called? && SameKind(log[x].call, log[y].call) ==>
                     InTurn(batch, log[x].call.name, log[y].call.name)
  }

  /** The files synced so far are among the first few changes, and so are those probed. */
  ghost predicate UpTo(batch: seq<Event>, log: seq<Entry>, call: Call, n: nat) {
    forall x :: 0 <= x < |log| && log[x].Called? && SameKind(log[x].call, call) ==>
                  exists m :: 0 <= m < n && m < |OfAction(batch, Change)| &&
                              OfAction(batch, Change)[m].name == log[x].call.name
  }

  lemma ChangesInTurn(batch: seq<Event>, m: nat, n: nat)
    requires m < n < |OfAction(batch, Change)|
    ensures InTurn(batch, OfAction(batch, Change)[m].name, OfAction(batch, Change)[n].name)
  {
    var at := PicksInOrder(batch, Change);
    assert IsChange(batch[at[m]], OfAction(batch, Change)[m].name);
    assert IsChange(batch[at[n]], OfAction(batch, Change)[n].name);
  }

  /** One more call, for the next change. */
  lemma CallInTurn(batch: seq<Event>, log: seq<Entry>, call: Call, n: nat)
    requires FilesInTurn(batch, log) && n < |OfAction(batch, Change)| && (call.SyncFile? || call.ProbeFile?)
    requires UpTo(batch, log, call, n) && call.name == OfAction(batch, Change)[n].name
    ensures FilesInTurn(batch, log + [Called(call, batch)])
    ensures UpTo(batch, log + [Called(call, batch)], call, n + 1)
  {
    var after := log + [Called(call, batch)];
    hide OfAction;
    forall x | 0 <= x < |log| && log[x].Called? && SameKind(log[x].call, call)
      ensures InTurn(batch, log[x].call.name, call.name)
    {
      var m: nat :| m < n && m < |OfAction(batch, Change)| &&
                    OfAction(batch, Change)[m].name == log[x].call.name;
      ChangesInTurn(batch, m, n);
    }
    hide InTurn;
  }

  /** An entry of another kind changes neither. */
  lemma OtherInTurn(batch: seq<Event>, log: seq<Entry>, entry: Entry)
    ensures FilesInTurn(batch, log) && (entry.Called? ==> !SameKind(entry.call, entry.call)) ==>
            FilesInTurn(batch, log + [entry])
    ensures forall call, n: nat :: UpTo(batch, log, call, n) && (entry.Called? ==> !SameKind(entry.call, call)) ==>
                                     UpTo(batch, log + [entry], call, n)
  {
    hide InTurn, OfAction;
  }

  lemma UpToMore(batch: seq<Event>, log: seq<Entry>, call: Call, n: nat)
    requires UpTo(batch, log, call, n)
    ensures UpTo(batch, log, call, n + 1)
  {
    hide OfAction;
  }

  lemma SameUpTo(batch: seq<Event>, log: seq<Entry>, call: Call, n: nat)
    ensures call.ProbeFile? ==> (UpTo(batch, log, call, n) <==> UpTo(batch, log, ProbeFile(""), n))
    ensures call.SyncFile? ==> (UpTo(batch, log, call, n) <==> UpTo(batch, log, SyncFile(""), n))
  {
    hide OfAction;
  }

  /** How far the files were synced and probed, the order kept. */
  ghost predicate Turn(batch: seq<Event>, log: seq<Entry>, synced: nat, probed: nat) {
    FilesInTurn(batch, log) && UpTo(batch, log, SyncFile(""), synced) && UpTo(batch, log, ProbeFile(""), probed)
  }

  lemma AddSync(batch: seq<Event>, log: seq<Entry>, name: string, n: nat, probed: nat)
    requires Turn(batch, log, n, probed) && n < |OfAction(batch, Change)| && OfAction(batch, Change)[n].name == name
    ensures Turn(batch, log + [Called(SyncFile(name), batch)], n + 1, probed)
  {
    hide FilesInTurn, UpTo, OfAction;
    SameUpTo(batch, log, SyncFile(name), n);
    CallInTurn(batch, log, SyncFile(name), n);
    SameUpTo(batch, log + [Called(SyncFile(name), batch)], SyncFile(name), n + 1);
    OtherInTurn(batch, log, Called(SyncFile(name), batch));
  }

  lemma AddProbe(batch: seq<Event>, log: seq<Entry>, name: string, n: nat, synced: nat)
    requires Turn(batch, log, synced, n) && n < |OfAction(batch, Change)| && OfAction(batch, Change)[n].name == name
    ensures Turn(batch, log + [Called(ProbeFile(name), batch)], synced, n + 1)
  {
    hide FilesInTurn, UpTo, OfAction;
    SameUpTo(batch, log, ProbeFile(name), n);
    CallInTurn(batch, log, ProbeFile(name), n);
    SameUpTo(batch, log + [Called(ProbeFile(name), batch)], ProbeFile(name), n + 1);
    OtherInTurn(batch, log, Called(ProbeFile(name), batch));
  }

  lemma AddOther(batch: seq<Event>, log: seq<Entry>, entry: Entry, synced: nat, probed: nat)
    requires Turn(batch, log, synced, probed) && (entry.Called? ==> !SameKind(entry.call, entry.call))
    ensures Turn(batch, log + [entry], synced, probed) && Turn(batch, log + [entry], synced, probed + 1)
  {
    hide FilesInTurn, UpTo, OfAction;
    OtherInTurn(batch, log, entry);
    UpToMore(batch, log + [entry], ProbeFile(""), probed);
  }

  lemma AddNothing(batch: seq<Event>, log: seq<Entry>, synced: nat, probed: nat)
    requires Turn(batch, log, synced, probed)
    ensures Turn(batch, log, synced + 1, probed) && log + [] == log
  {
    hide FilesInTurn, UpTo, OfAction;
    UpToMore(batch, log, SyncFile(""), synced);
  }

  /** In a flood no file is called, and else those of the changes so far. */
  ghost predicate Progress(log: seq<Entry>, f: Flush, n: nat) {
    if f.phase.Files? then Turn(f.batch, log, n, n)
    else if f.phase.FileSyncing? then Turn(f.batch, log, n + 1, n)
    else if f.phase.FileProbing? then Turn(f.batch, log, n + 1, n + 1)
    else exists synced: nat, probed: nat :: Turn(f.batch, log, synced, probed)
  }

  lemma FilesStart(log: seq<Entry>, f: Flush, n: nat, active: bool, ok: bool)
    requires f.phase.Files? && IsOnItsWay(f, n) && Progress(log, f, n)
    ensures Progress(log + Advance(f, active, ok).1, Advance(f, active, ok).0, n)
  {
    hide IsFlood, OfAction, Turn;
    assert log + [] == log;
    if f.phase.rest == [] {
      if OfAction(f.batch, Delete) != [] {
        AddOther(f.batch, log, Called(RefreshFileList, f.batch), n, n);
      }
    } else if active {
      AddSync(f.batch, log, f.phase.rest[0].name, n, n);
    } else {
      AddNothing(f.batch, log, n, n);
      AddProbe(f.batch, log, f.phase.rest[0].name, n, n + 1);
    }
  }

  lemma FileGoesOn(log: seq<Entry>, f: Flush, n: nat, active: bool, ok: bool)
    requires (f.phase.FileSyncing? || f.phase.FileProbing?) && IsOnItsWay(f, n) && Progress(log, f, n)
    ensures Progress(log + Advance(f, active, ok).1, Advance(f, active, ok).0, Next(f, n, ok))
  {
    hide IsFlood, OfAction, Turn;
    assert log + [] == log;
    if f.phase.FileProbing? {
      AddOther(f.batch, log, Failed(ProbeFile(f.phase.event.name), f.batch), n + 1, n + 1);
    } else if ok {
      AddProbe(f.batch, log, f.phase.event.name, n, n + 1);
    } else {
      AddOther(f.batch, log, Failed(SyncFile(f.phase.event.name), f.batch), n + 1, n);
    }
  }

  lemma AdvanceInTurn(log: seq<Entry>, f: Flush, n: nat, active: bool, ok: bool)
    requires !f.phase.Done? && IsOnItsWay(f, n) && Progress(log, f, n)
    ensures Progress(log + Advance(f, active, ok).1, Advance(f, active, ok).0, Next(f, n, ok))
  {
    hide IsOnItsWay, Turn;
    if f.phase.Files? {
      FilesStart(log, f, n, active, ok);
    } else if f.phase.FileSyncing? || f.phase.FileProbing? {
      FileGoesOn(log, f, n, active, ok);
    } else {
      assert log + [] == log;
      var synced: nat, probed: nat :| Turn(f.batch, log, synced, probed);
      var es := Advance(f, active, ok).1;
      if es != [] {
        AddOther(f.batch, log, es[0], synced, probed);
      }
    }
  }

  lemma {:induction false} EntriesInTurn(
    log: seq<Entry>, f: Flush, n: nat, k: nat, active: nat -> bool, ok: nat -> bool)
    requires IsOnItsWay(f, n) && Progress(log, f, n)
    ensures FilesInTurn(f.batch, log + Entries(f, k, active, ok))
    decreases Work(f.phase)
  {
    if f.phase.Done? {
      assert log + Entries(f, k, active, ok) == log;
      return;
    }
    hide Entries, FilesInTurn, Progress, IsOnItsWay, Advance, Work;
    FlushAdvances(f, active(k), ok(k));
    EntriesUnfold(f, k, active, ok);
    var (g, es) := Advance(f, active(k), ok(k));
    StaysOnItsWay(f, n, active(k), ok(k));
    AdvanceInTurn(log, f, n, active(k), ok(k));
    EntriesInTurn(log + es, g, Next(f, n, ok(k)), k + 1, active, ok);
    assert log + es + Entries(g, k + 1, active, ok) == log + (es + Entries(g, k + 1, active, ok));
  }

  /** Files are handled in the order of their changes, and none twice for one change. */
  lemma FlushKeepsOrder(batch: seq<Event>, active: nat -> bool, ok: nat -> bool)
    ensures FilesInTurn(batch, Entries(Begin(batch), 0, active, ok))
  {
    assert Turn(batch, [], 0, 0);
    assert Progress([], Begin(batch), 0);
    assert Begin(batch).batch == batch;
    hide *;
    BeginsOnItsWay(batch);
    EntriesInTurn([], Begin(batch), 0, 0, active, ok);
    assert [] + Entries(Begin(batch), 0, active, ok) == Entries(Begin(batch), 0, active, ok);
  }

  /** Only the rejection of its own refresh, or of nothing, comes after a list refresh. */
  ghost predicate RefreshIsLast(log: seq<Entry>, i: nat)
    requires i < |log|
  {
    log[i].Called? && log[i].call.RefreshFileList? ==>
      i + 1 == |log| || (i + 2 == |log| && log[i + 1] == Failed(RefreshFileList, log[i].batch))
  }

  lemma {:induction false} EntriesEnd(f: Flush, k: nat, active: nat -> bool, ok: nat -> bool, i: nat)
    requires i < |Entries(f, k, active, ok)|
    ensures RefreshIsLast(Entries(f, k, active, ok), i)
    decreases Work(f.phase)
  {
    FlushAdvances(f, active(k), ok(k));
    EntriesUnfold(f, k, active, ok);
    var (g, es) := Advance(f, active(k), ok(k));
    if i < |es| {
      if g.phase.Refreshing? {
        RefreshEnds(g, k + 1, active, ok);
      }
    } else {
      hide Advance, Work, Entries;
      EntriesEnd(g, k + 1, active, ok, i - |es|);
    }
  }

  lemma RefreshEnds(f: Flush, k: nat, active: nat -> bool, ok: nat -> bool)
    requires f.phase.Refreshing?
    ensures Entries(f, k, active, ok) == if ok(k) then [] else [Failed(RefreshFileList, f.batch)]
  {
    EntriesUnfold(f, k, active, ok);
  }

  /** A flush refreshes the list at most once, and then as its last call. */
  lemma FlushRefreshesLast(batch: seq<Event>, active: nat -> bool, ok: nat -> bool, i: nat)
    requires i < |Entries(Begin(batch), 0, active, ok)|
    ensures RefreshIsLast(Entries(Begin(batch), 0, active, ok), i)
  {
    EntriesEnd(Begin(batch), 0, active, ok, i);
  }

  lemma {:induction false} NoWorkerFrom(f: Flush, k: nat, active: nat -> bool, ok: nat -> bool, i: nat)
    requires i < |Entries(f, k, active, ok)| && !f.phase.FloodSyncing? && !f.phase.FileSyncing?
    requires forall n: nat :: !active(n)
    ensures var entry := Entries(f, k, active, ok)[i];
            !entry.Arrived? && (entry.call.RefreshFileList? || entry.call.ProbeFile?)
    decreases Work(f.phase)
  {
    FlushAdvances(f, active(k), ok(k));
    EntriesUnfold(f, k, active, ok);
    var (g, es) := Advance(f, active(k), ok(k));
    if i >= |es| {
      hide Work, Entries;
      NoWorkerFrom(g, k + 1, active, ok, i - |es|);
    }
  }

  /** Without an active service worker nothing is synced. */
  lemma NoWorkerNoSync(batch: seq<Event>, active: nat -> bool, ok: nat -> bool, i: nat)
    requires i < |Entries(Begin(batch), 0, active, ok)| && forall n: nat :: !active(n)
    ensures var entry := Entries(Begin(batch), 0, active, ok)[i];
            !entry.Arrived? && (entry.call.RefreshFileList? || entry.call.ProbeFile?)
  {
    assert Begin(batch).phase.FloodStart? || Begin(batch).phase.Files?;
    NoWorkerFrom(Begin(batch), 0, active, ok, i);
  }
}
