/** Batching of file events: a single timer field that also locks out a second flush. */
module RealtimeEvents {
  import opened Options

  const BATCH_THRESHOLD: nat := 4

  datatype Action = Change | Delete | Resync

  datatype Event = Event(name: string, action: Action, lastModified: int)

  datatype Call = SyncSpace | RefreshFileList | SyncFile(name: string) | ProbeFile(name: string)

  /** What happened, in order: an event came in, a hook was called for a batch, a hook call was rejected. */
  datatype Entry =
    | Arrived(event: Event)
    | Called(call: Call, batch: seq<Event>)
    | Failed(call: Call, batch: seq<Event>)

  // ---------------------------------------------------------------- the pending map

  /** The pending events in the order of the map: an event of a known name takes the place of the one before it. */
  function Put(pending: seq<Event>, ev: Event): seq<Event> {
    if pending == [] then [ev]
    else if pending[0].name == ev.name then [ev] + pending[1..]
    else [pending[0]] + Put(pending[1..], ev)
  }

  ghost predicate DistinctNames(pending: seq<Event>) {
    forall i, j :: 0 <= i < j < |pending| ==> pending[i].name != pending[j].name
  }

  lemma {:induction false} PutKeepsOthers(pending: seq<Event>, ev: Event, e: Event)
    ensures ev in Put(pending, ev)
    ensures e.name != ev.name ==> (e in Put(pending, ev) <==> e in pending)
    ensures DistinctNames(pending) ==> (e in Put(pending, ev) && e.name == ev.name ==> e == ev)
    ensures DistinctNames(pending) ==> DistinctNames(Put(pending, ev))
  {
    if pending != [] {
      var rest := pending[1..];
      if pending[0].name == ev.name {
        assert DistinctNames(pending) ==> forall i :: 1 <= i < |pending| ==> pending[i].name != pending[0].name;
      } else {
        PutKeepsOthers(rest, ev, e);
        if DistinctNames(pending) {
          forall j | 0 <= j < |Put(rest, ev)|
            ensures Put(rest, ev)[j].name != pending[0].name
          {
            PutKeepsOthers(rest, ev, Put(rest, ev)[j]);
            if Put(rest, ev)[j] in rest {
              var k :| 0 <= k < |rest| && rest[k] == Put(rest, ev)[j];
              assert pending[k + 1] == rest[k];
            }
          }
        }
      }
    }
  }

  // ---------------------------------------------------------------- one flush

  function OfAction(batch: seq<Event>, action: Action): (es: seq<Event>)
    ensures forall e :: e in es <==> e in batch && e.action == action
  {
    if batch == [] then []
    else if batch[0].action == action then [batch[0]] + OfAction(batch[1..], action)
    else OfAction(batch[1..], action)
  }

  predicate IsFlood(batch: seq<Event>) {
    OfAction(batch, Resync) != [] || |OfAction(batch, Change)| >= BATCH_THRESHOLD
  }

  /** Where a flush is: which hook call it awaits, and which changes are still to come. */
  datatype Phase =
    | FloodStart
    | FloodSyncing
    | Files(rest: seq<Event>)
    | FileSyncing(event: Event, rest: seq<Event>)
    | FileProbing(event: Event, rest: seq<Event>)
    | Refreshing
    | Done

  datatype Flush = Flush(batch: seq<Event>, phase: Phase)

  function Begin(batch: seq<Event>): Flush {
    Flush(batch, if IsFlood(batch) then FloodStart else Files(OfAction(batch, Change)))
  }

  /** A flush goes on to its next hook call: `active` is what serviceWorkerActive answers, `ok` whether the
      call awaited was fulfilled. */
  function Advance(f: Flush, active: bool, ok: bool): (Flush, seq<Entry>)
    requires !f.phase.Done?
  {
    match f.phase
    case FloodStart =>
      if active then (f.(phase := FloodSyncing), [Called(SyncSpace, f.batch)])
      else (f.(phase := Refreshing), [Called(RefreshFileList, f.batch)])
    case FloodSyncing =>
      if ok then (f.(phase := Refreshing), [Called(RefreshFileList, f.batch)])
      else (f.(phase := Done), [Failed(SyncSpace, f.batch)])
    case Files(rest) =>
      if rest == [] then
        if OfAction(f.batch, Delete) != [] then (f.(phase := Refreshing), [Called(RefreshFileList, f.batch)])
        else (f.(phase := Done), [])
      else if active then (f.(phase := FileSyncing(rest[0], rest[1..])), [Called(SyncFile(rest[0].name), f.batch)])
      else (f.(phase := FileProbing(rest[0], rest[1..])), [Called(ProbeFile(rest[0].name), f.batch)])
    case FileSyncing(ev, rest) =>
      if ok then (f.(phase := FileProbing(ev, rest)), [Called(ProbeFile(ev.name), f.batch)])
      else (f.(phase := Files(rest)), [Failed(SyncFile(ev.name), f.batch)])
    case FileProbing(ev, rest) =>
      (f.(phase := Files(rest)), if ok then [] else [Failed(ProbeFile(ev.name), f.batch)])
    case Refreshing =>
      (f.(phase := Done), if ok then [] else [Failed(RefreshFileList, f.batch)])
  }

  /** How many hook calls a flush has before it at most, and so how often it advances. */
  function Work(phase: Phase): nat {
    match phase
    case FloodStart => 3
    case FloodSyncing => 2
    case Files(rest) => 3 * |rest| + 2
    case FileSyncing(_, rest) => 3 * |rest| + 4
    case FileProbing(_, rest) => 3 * |rest| + 3
    case Refreshing => 1
    case Done => 0
  }

  lemma FlushAdvances(f: Flush, active: bool, ok: bool)
    requires !f.phase.Done?
    ensures Work(Advance(f, active, ok).0.phase) < Work(f.phase)
    ensures Advance(f, active, ok).0.batch == f.batch
  {
  }

  /** The entries of a flush from some phase to its end, the k-th answer of each hook given by a function. */
  ghost function Entries(f: Flush, k: nat, active: nat -> bool, ok: nat -> bool): seq<Entry>
    decreases Work(f.phase)
  {
    if f.phase.Done? then []
    else
      FlushAdvances(f, active(k), ok(k));
      var (g, es) := Advance(f, active(k), ok(k));
      es + Entries(g, k + 1, active, ok)
  }

  // ---------------------------------------------------------------- what a call is good for

  /** Is the call, made for this batch, one that looks after the event? A list refresh stands in for changes only in a
      flood. */
  predicate Covers(call: Call, batch: seq<Event>, ev: Event) {
    ev in batch &&
    match call
    case SyncSpace => IsFlood(batch)
    case RefreshFileList => IsFlood(batch) || ev.action == Delete
    case SyncFile(name) => ev.action == Change && ev.name == name
    case ProbeFile(name) => ev.action == Change && ev.name == name
  }

  /** Does this entry look after the event? Loosely: a hook call that covers it was made. Strictly: the list or the
      file was probed for it, or the sync that had to come first was rejected. */
  predicate Serves(entry: Entry, ev: Event, strict: bool) {
    match entry
    case Arrived(_) => false
    case Called(call, batch) => Covers(call, batch, ev) && (strict ==> call.RefreshFileList? || call.ProbeFile?)
    case Failed(call, batch) => Covers(call, batch, ev) && (call.SyncSpace? || call.SyncFile?)
  }

  /** The events of the batch that no call has served yet. */
  ghost predicate InRemainder(f: Flush, ev: Event, strict: bool) {
    ev in f.batch &&
    match f.phase
    case FloodStart => true
    case FloodSyncing => strict
    case Files(rest) => ev in rest || ev.action == Delete
    case FileSyncing(current, rest) => (strict && ev == current) || ev in rest || ev.action == Delete
    case FileProbing(_, rest) => ev in rest || ev.action == Delete
    case Refreshing => false
    case Done => false
  }

  /** Only changes are handled one by one, and only outside a flood. */
  ghost predicate IsUnderWay(f: Flush) {
    match f.phase
    case FloodStart => IsFlood(f.batch)
    case FloodSyncing => IsFlood(f.batch)
    case Files(rest) => !IsFlood(f.batch) && AllChanges(rest)
    case FileSyncing(ev, rest) => !IsFlood(f.batch) && ev.action == Change && AllChanges(rest)
    case FileProbing(ev, rest) => !IsFlood(f.batch) && ev.action == Change && AllChanges(rest)
    case Refreshing => true
    case Done => true
  }

  ghost predicate AllChanges(es: seq<Event>) {
    forall e :: e in es ==> e.action == Change
  }

  /** At its start a flush owes a call to every event of its batch. */
  lemma BeginOwesEverything(batch: seq<Event>, ev: Event, strict: bool)
    ensures InRemainder(Begin(batch), ev, strict) <==> ev in batch
    ensures IsUnderWay(Begin(batch))
  {
    if ev in batch && ev.action == Resync {
      assert ev in OfAction(batch, Resync);
    }
  }

  /** An event leaves the remainder only when an entry serves it. */
  lemma AdvanceServes(f: Flush, active: bool, ok: bool, ev: Event, strict: bool)
    requires !f.phase.Done? && IsUnderWay(f)
    ensures IsUnderWay(Advance(f, active, ok).0)
    ensures var (g, es) := Advance(f, active, ok);
            InRemainder(f, ev, strict) ==>
            InRemainder(g, ev, strict) || exists i :: 0 <= i < |es| && Serves(es[i], ev, strict)
  {
    var (g, es) := Advance(f, active, ok);
    if InRemainder(f, ev, strict) && !InRemainder(g, ev, strict) {
      assert |es| == 1 && Serves(es[0], ev, strict);
    }
  }

  /** A flush that runs to its end serves every event of its batch. */
  lemma {:induction false} FlushServesRemainder(
    f: Flush, k: nat, active: nat -> bool, ok: nat -> bool, ev: Event, strict: bool)
    requires IsUnderWay(f) && InRemainder(f, ev, strict)
    ensures exists i :: 0 <= i < |Entries(f, k, active, ok)| && Serves(Entries(f, k, active, ok)[i], ev, strict)
    decreases Work(f.phase)
  {
    FlushAdvances(f, active(k), ok(k));
    AdvanceServes(f, active(k), ok(k), ev, strict);
    var (g, es) := Advance(f, active(k), ok(k));
    var later := Entries(g, k + 1, active, ok);
    assert Entries(f, k, active, ok) == es + later;
    hide Advance, InRemainder, IsUnderWay, Serves, Entries, Work;
    if InRemainder(g, ev, strict) {
      FlushServesRemainder(g, k + 1, active, ok, ev, strict);
      var i :| 0 <= i < |later| && Serves(later[i], ev, strict);
      assert (es + later)[|es| + i] == later[i];
    } else {
      var i :| 0 <= i < |es| && Serves(es[i], ev, strict);
      assert (es + later)[i] == es[i];
    }
  }

  lemma FlushServesBatch(batch: seq<Event>, active: nat -> bool, ok: nat -> bool, ev: Event, strict: bool)
    requires ev in batch
    ensures var entries := Entries(Begin(batch), 0, active, ok);
            exists i :: 0 <= i < |entries| && Serves(entries[i], ev, strict)
  {
    hide *;
    BeginOwesEverything(batch, ev, strict);
    FlushServesRemainder(Begin(batch), 0, active, ok, ev, strict);
  }

  ghost predicate IsServed(log: seq<Entry>, ev: Event, strict: bool) {
    exists i :: 0 <= i < |log| && Serves(log[i], ev, strict)
  }

  lemma BatchIsServed(batch: seq<Event>, active: nat -> bool, ok: nat -> bool)
    ensures forall ev, strict :: ev in batch ==> IsServed(Entries(Begin(batch), 0, active, ok), ev, strict)
  {
    hide Entries, Begin, Serves;
    forall ev, strict: bool | ev in batch
      ensures IsServed(Entries(Begin(batch), 0, active, ok), ev, strict)
    {
      FlushServesBatch(batch, active, ok, ev, strict);
    }
  }

  lemma EntriesUnfold(f: Flush, k: nat, active: nat -> bool, ok: nat -> bool)
    requires !f.phase.Done?
    ensures var (g, es) := Advance(f, active(k), ok(k));
            Entries(f, k, active, ok) == es + Entries(g, k + 1, active, ok)
  {
    hide Advance, Work;
    FlushAdvances(f, active(k), ok(k));
  }

  /** One step of a flush, on the log so far. */
  lemma Extend(total: seq<Entry>, log: seq<Entry>, f: Flush, k: nat, active: nat -> bool, ok: nat -> bool)
    requires log + Entries(f, k, active, ok) == total && !f.phase.Done?
    ensures var (g, es) := Advance(f, active(k), ok(k));
            log + es + Entries(g, k + 1, active, ok) == total
    ensures log + [] == log
  {
    hide Advance, Entries, Work;
    EntriesUnfold(f, k, active, ok);
    var (g, es) := Advance(f, active(k), ok(k));
    var later := Entries(g, k + 1, active, ok);
    assert log + es + later == log + (es + later);
  }

  lemma Finish(total: seq<Entry>, log: seq<Entry>, batch: seq<Event>, k: nat, active: nat -> bool, ok: nat -> bool)
    requires log + Entries(Flush(batch, Done), k, active, ok) == total
    ensures log == total
  {
  }

  /** With an active service worker a file is probed right after it was synced, and a flood refreshes the list right
      after the space was synced. */
  ghost predicate IsSyncedFirst(log: seq<Entry>, i: nat)
    requires i < |log|
  {
    match log[i]
    case Called(ProbeFile(name), batch) => i > 0 && log[i - 1] == Called(SyncFile(name), batch)
    case Called(RefreshFileList, batch) => IsFlood(batch) ==> i > 0 && log[i - 1] == Called(SyncSpace, batch)
    case _ => true
  }

  ghost predicate AllSyncedFirst(log: seq<Entry>) {
    forall i :: 0 <= i < |log| ==> IsSyncedFirst(log, i)
  }

  /** The flush awaits the sync that was called last. */
  ghost predicate AwaitsSync(log: seq<Entry>, f: Flush) {
    && (f.phase.FloodSyncing? ==> log != [] && log[|log| - 1] == Called(SyncSpace, f.batch))
    && (f.phase.FileSyncing? ==> log != [] && log[|log| - 1] == Called(SyncFile(f.phase.event.name), f.batch))
  }

  lemma AdvanceSyncsFirst(log: seq<Entry>, f: Flush, ok: bool)
    requires !f.phase.Done? && IsUnderWay(f) && AllSyncedFirst(log) && AwaitsSync(log, f)
    ensures var (g, es) := Advance(f, true, ok);
            AllSyncedFirst(log + es) && AwaitsSync(log + es, g)
  {
    var (g, es) := Advance(f, true, ok);
    hide IsFlood;
    forall i | 0 <= i < |log + es|
      ensures IsSyncedFirst(log + es, i)
    {
      if i < |log| {
        assert IsSyncedFirst(log, i);
      }
    }
  }

  lemma {:induction false} FlushSyncsFirst(
    log: seq<Entry>, f: Flush, k: nat, active: nat -> bool, ok: nat -> bool)
    requires IsUnderWay(f) && AllSyncedFirst(log) && AwaitsSync(log, f) && forall n: nat :: active(n)
    ensures AllSyncedFirst(log + Entries(f, k, active, ok))
    decreases Work(f.phase)
  {
    if f.phase.Done? {
      assert log + Entries(f, k, active, ok) == log;
      return;
    }
    hide Entries, AllSyncedFirst, AwaitsSync, IsUnderWay, Advance, Work;
    FlushAdvances(f, active(k), ok(k));
    AdvanceServes(f, active(k), ok(k), Event("", Change, 0), true);
    AdvanceSyncsFirst(log, f, ok(k));
    EntriesUnfold(f, k, active, ok);
    var (g, es) := Advance(f, active(k), ok(k));
    FlushSyncsFirst(log + es, g, k + 1, active, ok);
    assert log + es + Entries(g, k + 1, active, ok) == log + (es + Entries(g, k + 1, active, ok));
  }

  lemma SyncsComeFirst(batch: seq<Event>, active: nat -> bool, ok: nat -> bool)
    requires forall n: nat :: active(n)
    ensures AllSyncedFirst(Entries(Begin(batch), 0, active, ok))
  {
    BeginOwesEverything(batch, Event("", Change, 0), true);
    assert AwaitsSync([], Begin(batch));
    hide Entries, Begin, IsUnderWay;
    FlushSyncsFirst([], Begin(batch), 0, active, ok);
    assert [] + Entries(Begin(batch), 0, active, ok) == Entries(Begin(batch), 0, active, ok);
  }

  // ---------------------------------------------------------------- the object

  /** The fields of the object, with the number of the next timer. */
  datatype Batching = Batching(pending: seq<Event>, flushTimer: Option<nat>, nextTimer: nat)

  function StartTimer(b: Batching): Batching {
    b.(flushTimer := Some(b.nextTimer), nextTimer := b.nextTimer + 1)
  }

  /** The timer that a change of the fields has started. */
  function Started(before: Batching, after: Batching): set<nat> {
    if after.nextTimer == before.nextTimer then {} else {before.nextTimer}
  }

  function Receive(b: Batching, ev: Event): Batching {
    var c := b.(pending := Put(b.pending, ev));
    if c.flushTimer.None? then StartTimer(c) else c
  }

  function Release(b: Batching): Batching {
    var c := b.(flushTimer := None);
    if c.pending != [] then StartTimer(c) else c
  }

  class RealtimeEvents {
    var pending: seq<Event>
    var flushTimer: Option<nat>
    var nextTimer: nat

    ghost function Fields(): Batching
      reads this
    {
      Batching(pending, flushTimer, nextTimer)
    }

    ghost predicate Valid()
      reads this
    {
      DistinctNames(pending) && (pending != [] ==> flushTimer.Some?)
    }

    constructor ()
      ensures Valid() && Fields() == Batching([], None, 0)
    {
      pending, flushTimer, nextTimer := [], None, 0;
    }

    /** True when a timer was started. */
    method HandleEvent(ev: Event) returns (started: bool)
      requires Valid()
      modifies this
      ensures Valid()
      ensures Fields() == Receive(old(Fields()), ev)
      ensures started <==> old(flushTimer).None?
    {
      PutKeepsOthers(pending, ev, ev);
      pending := Put(pending, ev);
      started := flushTimer.None?;
      if started {
        flushTimer, nextTimer := Some(nextTimer), nextTimer + 1;
      }
    }

    /** The start of a flush, up to its first hook call. */
    method TakeBatch() returns (batch: seq<Event>)
      requires Valid()
      modifies this
      ensures Valid() && batch == old(pending)
      ensures Fields() == old(Fields()).(pending := [])
    {
      batch := pending;
      pending := [];
    }

    /** The hook calls of a flush, in order. */
    method CallHooks(batch: seq<Event>, active: nat -> bool, ok: nat -> bool) returns (log: seq<Entry>)
      ensures log == Entries(Begin(batch), 0, active, ok)
      ensures forall ev, strict :: ev in batch ==> IsServed(log, ev, strict)
    {
      BatchIsServed(batch, active, ok);
      hide Entries, IsServed, IsFlood;
      ghost var total := Entries(Begin(batch), 0, active, ok);
      log := [];
      if IsFlood(batch) {
        var k := 0;
        Extend(total, log, Flush(batch, FloodStart), 0, active, ok);
        if active(0) {
          log := log + [Called(SyncSpace, batch)];
          k := 1;
          Extend(total, log, Flush(batch, FloodSyncing), 1, active, ok);
          if !ok(1) {
            log := log + [Failed(SyncSpace, batch)];
            Finish(total, log, batch, 2, active, ok);
            return;
          }
        }
        log := log + [Called(RefreshFileList, batch)];
        Extend(total, log, Flush(batch, Refreshing), k + 1, active, ok);
        if !ok(k + 1) {
          log := log + [Failed(RefreshFileList, batch)];
        }
        Finish(total, log, batch, k + 2, active, ok);
        return;
      }
      var changes := OfAction(batch, Change);
      var k := 0;
      assert changes[0..] == changes;
      for n := 0 to |changes|
        invariant log + Entries(Flush(batch, Files(changes[n..])), k, active, ok) == total
      {
        var name, rest := changes[n].name, changes[n + 1..];
        assert changes[n..][0] == changes[n] && changes[n..][1..] == rest;
        Extend(total, log, Flush(batch, Files(changes[n..])), k, active, ok);
        var synced := true;
        if active(k) {
          log := log + [Called(SyncFile(name), batch)];
          k := k + 1;
          Extend(total, log, Flush(batch, FileSyncing(changes[n], rest)), k, active, ok);
          synced := ok(k);
          if !synced {
            log := log + [Failed(SyncFile(name), batch)];
          }
        }
        if synced {
          log := log + [Called(ProbeFile(name), batch)];
          k := k + 1;
          Extend(total, log, Flush(batch, FileProbing(changes[n], rest)), k, active, ok);
          if !ok(k) {
            log := log + [Failed(ProbeFile(name), batch)];
          }
        }
        k := k + 1;
      }
      Extend(total, log, Flush(batch, Files([])), k, active, ok);
      if OfAction(batch, Delete) != [] {
        log := log + [Called(RefreshFileList, batch)];
        Extend(total, log, Flush(batch, Refreshing), k + 1, active, ok);
        if !ok(k + 1) {
          log := log + [Failed(RefreshFileList, batch)];
        }
        k := k + 1;
      }
      Finish(total, log, batch, k + 1, active, ok);
    }

    /** The end of a flush: the lock is released, or a new timer started for what came in meanwhile. */
    method EndFlush() returns (started: bool)
      requires DistinctNames(pending)
      modifies this
      ensures Valid()
      ensures Fields() == Release(old(Fields()))
      ensures started <==> old(pending) != []
    {
      flushTimer := None;
      started := pending != [];
      if started {
        flushTimer, nextTimer := Some(nextTimer), nextTimer + 1;
      }
    }
  }
}
