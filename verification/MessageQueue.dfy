/** The message queue over its store: what each operation does when it runs on its own. */
module MessageQueue {
  import opened Utf16
  import opened MessageIds
  import KvKeys

  type Slot = (JsString, JsString)

  datatype Message<B> = Message(id: JsString, queue: JsString, body: B, retries: nat)

  datatype Timed<B> = Timed(message: Message<B>, ts: int)

  /** The three parts of the store, by queue and id. */
  datatype Store<B> = Store(
    queued: map<Slot, Message<B>>,
    processing: map<Slot, Timed<B>>,
    dlq: map<Slot, Timed<B>>)

  datatype Stats = Stats(queued: nat, processing: nat, dlq: nat)

  predicate Keyed<B>(store: Store<B>) {
    && (forall s :: s in store.queued ==> SlotOf(store.queued[s]) == s)
    && (forall s :: s in store.processing ==> SlotOf(store.processing[s].message) == s)
    && (forall s :: s in store.dlq ==> SlotOf(store.dlq[s].message) == s)
  }

  function SlotOf<B>(m: Message<B>): Slot {
    (m.queue, m.id)
  }

  ghost function Slots<B>(queue: JsString, messages: seq<Message<B>>): set<Slot> {
    set i | 0 <= i < |messages| :: (queue, messages[i].id)
  }

  ghost predicate OfQueue<B>(queue: JsString, messages: seq<Message<B>>) {
    forall i :: 0 <= i < |messages| ==> messages[i].queue == queue
  }

  // ---------------------------------------------------------------- sending

  /** The messages made of the bodies, numbered on from the last one. */
  function Minted<B>(queue: JsString, bodies: seq<B>, clock: nat -> nat, serial: nat): (ms: seq<Message<B>>)
    ensures |ms| == |bodies|
  {
    seq(|bodies|, i requires 0 <= i < |bodies| => Message(Id(clock(i), serial + i + 1), queue, bodies[i], 0))
  }

  function Enqueue<B>(queued: map<Slot, Message<B>>, queue: JsString, ms: seq<Message<B>>): map<Slot, Message<B>> {
    if ms == [] then queued
    else
      var n := |ms| - 1;
      Enqueue(queued, queue, ms[..n])[(queue, ms[n].id) := ms[n]]
  }

  lemma {:induction false} EnqueueHas<B>(queued: map<Slot, Message<B>>, queue: JsString, ms: seq<Message<B>>, s: Slot)
    ensures s in Enqueue(queued, queue, ms) <==> s in queued || s in Slots(queue, ms)
    ensures s in Enqueue(queued, queue, ms) && s !in Slots(queue, ms) ==> Enqueue(queued, queue, ms)[s] == queued[s]
    ensures s in Slots(queue, ms) ==>
            exists i :: 0 <= i < |ms| && s == (queue, ms[i].id) && Enqueue(queued, queue, ms)[s] == ms[i]
  {
    if ms != [] {
      var n := |ms| - 1;
      EnqueueHas(queued, queue, ms[..n], s);
      assert forall i :: 0 <= i < n ==> ms[..n][i] == ms[i];
      if s in Slots(queue, ms) && s != (queue, ms[n].id) {
        var i :| 0 <= i < |ms| && s == (queue, ms[i].id);
        assert ms[..n][i] == ms[i];
      }
    }
  }

  // ---------------------------------------------------------------- polling

  /** As many as asked for and at least one, or all there are. */
  ghost predicate IsAsMuchAsAsked<B>(
    queued: map<Slot, Message<B>>, queue: JsString, maxItems: int, ms: seq<Message<B>>)
  {
    && (maxItems >= 1 ==> |ms| <= maxItems)
    && (maxItems <= 1 ==> |ms| <= 1)
    && (ms == [] ==> forall s :: s in queued ==> s.0 != queue)
    && (|ms| < maxItems ==> forall s :: s in queued && s.0 == queue ==> s in Slots(queue, ms))
  }

  ghost predicate AreStored<B>(queued: map<Slot, Message<B>>, queue: JsString, ms: seq<Message<B>>) {
    forall i :: 0 <= i < |ms| ==> (queue, ms[i].id) in queued && ms[i] == queued[(queue, ms[i].id)]
  }

  /** The queue's messages with the least ids, in order. */
  ghost predicate IsPolled<B>(queued: map<Slot, Message<B>>, queue: JsString, maxItems: int, ms: seq<Message<B>>) {
    && IsAsMuchAsAsked(queued, queue, maxItems, ms)
    && AreStored(queued, queue, ms)
    && (forall i, j :: 0 <= i < j < |ms| ==> Less(ms[i].id, ms[j].id))
    && (forall i, s :: 0 <= i < |ms| && s in queued && s.0 == queue && s !in Slots(queue, ms) ==> Less(ms[i].id, s.1))
  }

  function WriteProcessing<B>(processing: map<Slot, Timed<B>>, queue: JsString, ms: seq<Message<B>>, now: nat -> int)
    : map<Slot, Timed<B>>
  {
    if ms == [] then processing
    else
      var n := |ms| - 1;
      WriteProcessing(processing, queue, ms[..n], now)[(queue, ms[n].id) := Timed(ms[n], now(n))]
  }

  lemma {:induction false} WriteHas<B>(
    processing: map<Slot, Timed<B>>, queue: JsString, ms: seq<Message<B>>, now: nat -> int, s: Slot)
    ensures s in WriteProcessing(processing, queue, ms, now) <==> s in processing || s in Slots(queue, ms)
    ensures s in WriteProcessing(processing, queue, ms, now) && s !in Slots(queue, ms) ==>
            WriteProcessing(processing, queue, ms, now)[s] == processing[s]
    ensures s in Slots(queue, ms) ==>
            exists i :: 0 <= i < |ms| && s == (queue, ms[i].id) &&
                        WriteProcessing(processing, queue, ms, now)[s] == Timed(ms[i], now(i))
  {
    if ms != [] {
      var n := |ms| - 1;
      WriteHas(processing, queue, ms[..n], now, s);
      assert forall i :: 0 <= i < n ==> ms[..n][i] == ms[i];
      if s in Slots(queue, ms) && s != (queue, ms[n].id) {
        var i :| 0 <= i < |ms| && s == (queue, ms[i].id);
        assert ms[..n][i] == ms[i];
      }
    }
  }

  // ---------------------------------------------------------------- acknowledging and requeueing

  ghost function IdSlots(queue: JsString, ids: seq<JsString>): set<Slot> {
    set i | 0 <= i < |ids| :: (queue, ids[i])
  }

  function Expired<B>(processing: map<Slot, Timed<B>>, limit: int): set<Slot> {
    set s | s in processing && processing[s].ts < limit
  }

  /** A cap of zero is no cap. */
  predicate Exceeds(retries: nat, cap: int) {
    cap != 0 && retries > cap
  }

  function Retried<B>(m: Message<B>): Message<B> {
    m.(retries := m.retries + 1)
  }

  /** The expired messages that go back to their queue. */
  function Returned<B>(processing: map<Slot, Timed<B>>, limit: int, cap: int): set<Slot> {
    set s | s in processing && processing[s].ts < limit && !Exceeds(processing[s].message.retries + 1, cap)
  }

  /** The expired messages that have been retried too often. */
  function Spent<B>(processing: map<Slot, Timed<B>>, limit: int, cap: int): set<Slot> {
    set s | s in processing && processing[s].ts < limit && Exceeds(processing[s].message.retries + 1, cap)
  }

  /** Some messages, each with one retry more. */
  ghost predicate AreRetried<B>(processing: map<Slot, Timed<B>>, slots: set<Slot>, back: map<Slot, Message<B>>) {
    back.Keys == slots && forall s :: s in slots ==> s in processing && back[s] == Retried(processing[s].message)
  }

  ghost predicate AreDead<B>(
    processing: map<Slot, Timed<B>>, slots: set<Slot>, clock: Slot -> int, dead: map<Slot, Timed<B>>)
  {
    dead.Keys == slots &&
    forall s :: s in slots ==> s in processing && dead[s] == Timed(Retried(processing[s].message), clock(s))
  }

  /** The store after a requeue: the expired messages have left processing, with one retry more they are back in
      their queue or, when retried too often, in the dead letter queue or dropped. */
  ghost predicate IsRequeued<B>(
    store: Store<B>, limit: int, cap: int, disableDLQ: bool, clock: Slot -> int, after: Store<B>)
  {
    var processing := store.processing;
    var returned := Returned(processing, limit, cap);
    var spent := if disableDLQ then {} else Spent(processing, limit, cap);
    && after.processing == processing - Expired(processing, limit)
    && after.queued.Keys == store.queued.Keys + returned
    && (forall s :: s in after.queued ==>
          after.queued[s] == if s in returned then Retried(processing[s].message) else store.queued[s])
    && after.dlq.Keys == store.dlq.Keys + spent
    && (forall s :: s in after.dlq ==>
          after.dlq[s] == if s in spent then Timed(Retried(processing[s].message), clock(s)) else store.dlq[s])
  }

  /** A message is taken exactly when it is older than the timeout. */
  lemma YoungOnesStay<B>(
    store: Store<B>, now: int, timeout: int, cap: int, disableDLQ: bool, clock: Slot -> int, after: Store<B>)
    requires IsRequeued(store, now - timeout, cap, disableDLQ, clock, after)
    ensures forall s :: s in store.processing ==>
              (s in after.processing <==> now - store.processing[s].ts <= timeout)
  {
    hide Returned, Spent;
  }

  /** Without a cap no message is spent, and every one taken is back in its queue. */
  lemma NoCapSpendsNothing<B>(
    store: Store<B>, limit: int, disableDLQ: bool, clock: Slot -> int, after: Store<B>, s: Slot)
    requires IsRequeued(store, limit, 0, disableDLQ, clock, after)
    requires s in store.processing && s !in after.processing
    ensures s in after.queued && after.queued[s].retries == store.processing[s].message.retries + 1
    ensures after.dlq == store.dlq
  {
    assert Spent(store.processing, limit, 0) == {};
  }

  /** With a cap a message taken is back in its queue exactly while it has been retried less often than that. */
  lemma CapDecides<B>(
    store: Store<B>, limit: int, cap: nat, disableDLQ: bool, clock: Slot -> int, after: Store<B>, s: Slot)
    requires IsRequeued(store, limit, cap, disableDLQ, clock, after) && cap > 0
    requires s in store.processing && s !in after.processing && s !in store.queued && s !in store.dlq
    ensures s in after.queued <==> store.processing[s].message.retries < cap
    ensures s in after.dlq <==> !disableDLQ && store.processing[s].message.retries >= cap
  {
  }

  lemma RequeuedIsKeyed<B>(
    store: Store<B>, limit: int, cap: int, disableDLQ: bool, clock: Slot -> int, after: Store<B>)
    requires Keyed(store) && IsRequeued(store, limit, cap, disableDLQ, clock, after)
    ensures Keyed(after)
  {
  }

  /** It is one store. */
  lemma RequeuedIsUnique<B>(
    store: Store<B>, limit: int, cap: int, disableDLQ: bool, clock: Slot -> int, a: Store<B>, b: Store<B>)
    requires IsRequeued(store, limit, cap, disableDLQ, clock, a) && IsRequeued(store, limit, cap, disableDLQ, clock, b)
    ensures a == b
  {
    hide Expired, Returned, Spent;
  }

  // ---------------------------------------------------------------- counting

  /** The empty name stands for every queue, but for those whose name starts with U+FFFF: the scan over all queues
      does not reach them. */
  predicate Concerns(queue: JsString, s: Slot) {
    if queue == [] then s.0 == [] || s.0[0] != KvKeys.TOP else s.0 == queue
  }

  function Counted<T>(part: map<Slot, T>, queue: JsString): set<Slot> {
    set s | s in part && Concerns(queue, s)
  }

  class DataStoreMQ<B> {
    var serial: nat
    var store: Store<B>

    constructor ()
      ensures serial == 0 && store == Store(map[], map[], map[]) && Keyed(store)
    {
      serial := 0;
      store := Store(map[], map[], map[]);
    }

    method BatchSend(queue: JsString, bodies: seq<B>, clock: nat -> nat)
      modifies this
      ensures serial == old(serial) + |bodies|
      ensures store == old(store).(
                queued := Enqueue(old(store).queued, queue, Minted(queue, bodies, clock, old(serial))))
      ensures old(Keyed(store)) ==> Keyed(store)
    {
      EnqueueKeyed(store, queue, Minted(queue, bodies, clock, serial));
      if bodies == [] {
        return;
      }
      hide Keyed, Minted, Enqueue, Id;
      var messages: seq<Message<B>> := [];
      for n := 0 to |bodies|
        invariant serial == old(serial) + n && store == old(store)
        invariant messages == Minted(queue, bodies, clock, old(serial))[..n]
      {
        MintedAt(queue, bodies, clock, old(serial), n);
        serial := serial + 1;
        messages := messages + [Message(Id(clock(n), serial), queue, bodies[n], 0)];
      }
      assert messages == Minted(queue, bodies, clock, old(serial));
      EnqueueStep(store.queued, queue, messages, 0);
      var queued := store.queued;
      for n := 0 to |messages|
        invariant serial == old(serial) + |bodies| && store == old(store)
        invariant queued == Enqueue(old(store).queued, queue, messages[..n])
      {
        EnqueueStep(old(store).queued, queue, messages, n);
        queued := queued[(queue, messages[n].id) := messages[n]];
      }
      assert messages[..|messages|] == messages;
      store := store.(queued := queued);
    }

    /** One poll, its two writes included, with nothing running in between. */
    method Poll(queue: JsString, maxItems: int, now: nat -> int) returns (messages: seq<Message<B>>)
      requires Keyed(store)
      modifies this
      ensures serial == old(serial)
      ensures IsPolled(old(store).queued, queue, maxItems, messages)
      ensures store.processing == WriteProcessing(old(store).processing, queue, messages, now)
      ensures store.queued == old(store).queued - Slots(queue, messages)
      ensures store.dlq == old(store).dlq
      ensures Keyed(store)
    {
      hide *;
      messages := First(queue, maxItems);
      PollKeyed(store, queue, maxItems, messages, now);
      NothingPolled(store, queue, now);
      if messages == [] {
        return;
      }
      var processing := store.processing;
      WriteStep(store.processing, queue, messages, now, 0);
      for n := 0 to |messages|
        invariant serial == old(serial) && store == old(store)
        invariant processing == WriteProcessing(old(store).processing, queue, messages[..n], now)
      {
        WriteStep(old(store).processing, queue, messages, now, n);
        processing := processing[(queue, messages[n].id) := Timed(messages[n], now(n))];
      }
      assert messages[..|messages|] == messages && messages[..0] == [];
      store := store.(processing := processing);
      var queued := store.queued;
      for n := 0 to |messages|
        invariant serial == old(serial) && store == old(store).(processing := processing)
        invariant queued == old(store).queued - Slots(queue, messages[..n])
      {
        DeleteStep(old(store).queued, queue, messages, n);
        queued := queued - {(queue, messages[n].id)};
      }
      store := store.(queued := queued);
    }

    /** The scan of a poll: rows in key order, until enough of them have been seen. */
    method First(queue: JsString, maxItems: int) returns (messages: seq<Message<B>>)
      requires Keyed(store)
      ensures IsPolled(store.queued, queue, maxItems, messages)
    {
      messages := [];
      var rest := set s | s in store.queued && s.0 == queue :: s.1;
      ScanStarts(store.queued, queue);
      hide IsScanned, IsPolled;
      while rest != {}
        invariant IsScanned(store.queued, queue, messages, rest)
        invariant messages == [] || |messages| < maxItems
        decreases rest
      {
        ghost var least := Least(rest);
        var id :| id in rest && forall x :: x in rest ==> Leq(id, x);
        ScanIsQueued(store.queued, queue, messages, rest, id);
        ScanStep(store.queued, queue, messages, rest, id);
        messages := messages + [store.queued[(queue, id)]];
        rest := rest - {id};
        if |messages| >= maxItems {
          break;
        }
      }
      ScanEnds(store.queued, queue, messages, rest, maxItems);
    }

    method BatchAck(queue: JsString, ids: seq<JsString>)
      modifies this
      ensures serial == old(serial)
      ensures store == old(store).(processing := old(store).processing - IdSlots(queue, ids))
      ensures forall s :: s in store.processing <==> s in old(store).processing && !(s.0 == queue && s.1 in ids)
      ensures old(Keyed(store)) ==> Keyed(store)
    {
      var processing := store.processing;
      for n := 0 to |ids|
        invariant serial == old(serial) && store == old(store)
        invariant processing == old(store).processing - IdSlots(queue, ids[..n])
      {
        assert forall i :: 0 <= i < n ==> ids[..n + 1][i] == ids[..n][i];
        assert IdSlots(queue, ids[..n + 1]) == IdSlots(queue, ids[..n]) + {(queue, ids[n])};
        processing := processing - {(queue, ids[n])};
      }
      assert ids[..|ids|] == ids;
      IdSlotsAre(queue, ids);
      store := store.(processing := processing);
    }

    method RequeueTimeouts(now: int, timeout: int, cap: int, disableDLQ: bool, clock: Slot -> int)
      requires Keyed(store)
      modifies this
      ensures serial == old(serial)
      ensures IsRequeued(old(store), now - timeout, cap, disableDLQ, clock, store)
      ensures forall s :: s in old(store).processing ==>
                (s in store.processing <==> now - old(store).processing[s].ts <= timeout)
      ensures Keyed(store)
    {
      hide IsSorted, Keyed, Expired, IsRequeued, AreRetried, AreDead, Returned, Spent;
      var limit := now - timeout;
      var expiring := store.processing;
      var taken := Expired(store.processing, limit);
      if taken == {} {
        NothingExpired(store, limit, cap, disableDLQ, clock);
        YoungOnesStay(store, now, timeout, cap, disableDLQ, clock, store);
        return;
      }
      store := store.(processing := store.processing - taken);
      var back: map<Slot, Message<B>> := map[];
      var dead: map<Slot, Timed<B>> := map[];
      var rest := taken;
      SortStarts(expiring, limit, cap, disableDLQ, clock);
      while rest != {}
        invariant serial == old(serial) && store == old(store).(processing := expiring - taken)
        invariant IsSorted(expiring, limit, cap, disableDLQ, clock, rest, back, dead)
        decreases rest
      {
        var s :| s in rest;
        SortStep(old(store), limit, cap, disableDLQ, clock, rest, back, dead, s);
        var m := expiring[s].message;
        var retries := m.retries + 1;
        if cap != 0 && retries > cap {
          if !disableDLQ {
            dead := dead[(m.queue, m.id) := Timed(Message(m.id, m.queue, m.body, retries), clock(s))];
          }
        } else {
          back := back[(m.queue, m.id) := m.(retries := retries)];
        }
        rest := rest - {s};
      }
      SortEnds(old(store), limit, cap, disableDLQ, clock, back, dead);
      store := store.(queued := store.queued + back, dlq := store.dlq + dead);
      RequeuedIsKeyed(old(store), limit, cap, disableDLQ, clock, store);
      YoungOnesStay(old(store), now, timeout, cap, disableDLQ, clock, store);
    }

    method GetQueueStats(queue: JsString) returns (stats: Stats)
      ensures stats.queued == |Counted(store.queued, queue)|
      ensures stats.processing == |Counted(store.processing, queue)| && stats.dlq == |Counted(store.dlq, queue)|
    {
      return Stats(|Counted(store.queued, queue)|, |Counted(store.processing, queue)|, |Counted(store.dlq, queue)|);
    }

    method IsQueueEmpty(queue: JsString) returns (empty: bool)
      ensures empty <==>
              forall s :: Concerns(queue, s) ==> s !in store.queued && s !in store.processing
    {
      var stats := GetQueueStats(queue);
      assert forall s :: s in Counted(store.queued, queue) <==> s in store.queued && Concerns(queue, s);
      assert forall s :: s in Counted(store.processing, queue) <==> s in store.processing && Concerns(queue, s);
      return stats.queued == 0 && stats.processing == 0;
    }
  }

  // ---------------------------------------------------------------- steps of the methods

  lemma IdSlotsAre(queue: JsString, ids: seq<JsString>)
    ensures forall s :: s in IdSlots(queue, ids) <==> s.0 == queue && s.1 in ids
  {
    forall s
      ensures s in IdSlots(queue, ids) <==> s.0 == queue && s.1 in ids
    {
      if s.0 == queue && s.1 in ids {
        var i :| 0 <= i < |ids| && ids[i] == s.1;
        assert s == (queue, ids[i]);
      }
    }
  }

  lemma MintedAt<B>(queue: JsString, bodies: seq<B>, clock: nat -> nat, serial: nat, n: nat)
    requires n < |bodies|
    ensures Minted(queue, bodies, clock, serial)[..n + 1] ==
            Minted(queue, bodies, clock, serial)[..n] + [Message(Id(clock(n), serial + n + 1), queue, bodies[n], 0)]
  {
    hide Id;
  }

  lemma EnqueueStep<B>(queued: map<Slot, Message<B>>, queue: JsString, ms: seq<Message<B>>, n: nat)
    requires n <= |ms|
    ensures Enqueue(queued, queue, ms[..0]) == queued
    ensures n < |ms| ==>
            Enqueue(queued, queue, ms[..n + 1]) == Enqueue(queued, queue, ms[..n])[(queue, ms[n].id) := ms[n]]
  {
    assert n < |ms| ==> ms[..n + 1][..n] == ms[..n];
  }

  lemma WriteStep<B>(
    processing: map<Slot, Timed<B>>, queue: JsString, ms: seq<Message<B>>, now: nat -> int, n: nat)
    requires n <= |ms|
    ensures WriteProcessing(processing, queue, ms[..0], now) == processing
    ensures n < |ms| ==>
            WriteProcessing(processing, queue, ms[..n + 1], now) ==
            WriteProcessing(processing, queue, ms[..n], now)[(queue, ms[n].id) := Timed(ms[n], now(n))]
  {
    assert n < |ms| ==> ms[..n + 1][..n] == ms[..n];
  }

  lemma NothingPolled<B>(store: Store<B>, queue: JsString, now: nat -> int)
    ensures Slots<B>(queue, []) == {} && WriteProcessing(store.processing, queue, [], now) == store.processing
    ensures store.queued - {} == store.queued
  {
  }

  lemma DeleteStep<B>(queued: map<Slot, Message<B>>, queue: JsString, ms: seq<Message<B>>, n: nat)
    requires n < |ms|
    ensures queued - Slots(queue, ms[..n + 1]) == queued - Slots(queue, ms[..n]) - {(queue, ms[n].id)}
  {
    SlotsAdded(queue, ms, n);
    hide Slots;
  }

  lemma SlotsAdded<B>(queue: JsString, ms: seq<Message<B>>, n: nat)
    requires n < |ms|
    ensures Slots(queue, ms[..n + 1]) == Slots(queue, ms[..n]) + {(queue, ms[n].id)}
    ensures ms[..|ms|] == ms
  {
    assert forall i :: 0 <= i < n ==> ms[..n + 1][i] == ms[..n][i];
    assert ms[..n + 1][n] == ms[n];
  }

  lemma EnqueueKeyed<B>(store: Store<B>, queue: JsString, ms: seq<Message<B>>)
    requires OfQueue(queue, ms)
    ensures Keyed(store) ==> Keyed(store.(queued := Enqueue(store.queued, queue, ms)))
  {
    forall s | Keyed(store) && s in Enqueue(store.queued, queue, ms)
      ensures SlotOf(Enqueue(store.queued, queue, ms)[s]) == s
    {
      EnqueueHas(store.queued, queue, ms, s);
    }
  }

  lemma PollKeyed<B>(store: Store<B>, queue: JsString, maxItems: int, ms: seq<Message<B>>, now: nat -> int)
    requires IsPolled(store.queued, queue, maxItems, ms)
    ensures Keyed(store) ==>
            Keyed(Store(store.queued - Slots(queue, ms), WriteProcessing(store.processing, queue, ms, now), store.dlq))
  {
    forall s | Keyed(store) && s in WriteProcessing(store.processing, queue, ms, now)
      ensures SlotOf(WriteProcessing(store.processing, queue, ms, now)[s].message) == s
    {
      WriteHas(store.processing, queue, ms, now, s);
    }
  }

  lemma NothingExpired<B>(store: Store<B>, limit: int, cap: int, disableDLQ: bool, clock: Slot -> int)
    requires Expired(store.processing, limit) == {}
    ensures IsRequeued(store, limit, cap, disableDLQ, clock, store)
  {
    SortStarts(store.processing, limit, cap, disableDLQ, clock);
    SortEnds(store, limit, cap, disableDLQ, clock, map[], map[]);
    hide IsRequeued, IsSorted, Keyed;
    assert store.queued + map[] == store.queued && store.dlq + map[] == store.dlq;
    assert store.processing - {} == store.processing;
  }

  /** The expired messages sorted so far, all but the rest. */
  ghost predicate IsSorted<B>(
    processing: map<Slot, Timed<B>>, limit: int, cap: int, disableDLQ: bool, clock: Slot -> int,
    rest: set<Slot>, back: map<Slot, Message<B>>, dead: map<Slot, Timed<B>>)
  {
    && rest <= Expired(processing, limit)
    && AreRetried(processing, Returned(processing, limit, cap) - rest, back)
    && AreDead(processing, if disableDLQ then {} else Spent(processing, limit, cap) - rest, clock, dead)
  }

  lemma SortStarts<B>(processing: map<Slot, Timed<B>>, limit: int, cap: int, disableDLQ: bool, clock: Slot -> int)
    ensures IsSorted(processing, limit, cap, disableDLQ, clock, Expired(processing, limit), map[], map[])
  {
    assert Returned(processing, limit, cap) - Expired(processing, limit) == {};
    assert Spent(processing, limit, cap) - Expired(processing, limit) == {};
  }

  lemma SortStep<B>(
    store: Store<B>, limit: int, cap: int, disableDLQ: bool, clock: Slot -> int,
    rest: set<Slot>, back: map<Slot, Message<B>>, dead: map<Slot, Timed<B>>, s: Slot)
    requires Keyed(store) && IsSorted(store.processing, limit, cap, disableDLQ, clock, rest, back, dead) && s in rest
    ensures s in store.processing && SlotOf(store.processing[s].message) == s
    ensures var m := Retried(store.processing[s].message);
            if Exceeds(m.retries, cap) then
              IsSorted(store.processing, limit, cap, disableDLQ, clock, rest - {s}, back,
                       if disableDLQ then dead else dead[s := Timed(m, clock(s))])
            else IsSorted(store.processing, limit, cap, disableDLQ, clock, rest - {s}, back[s := m], dead)
  {
    var m := Retried(store.processing[s].message);
    var returned := Returned(store.processing, limit, cap);
    var spent := Spent(store.processing, limit, cap);
    if Exceeds(m.retries, cap) {
      assert s in spent && s !in returned;
      assert returned - (rest - {s}) == returned - rest;
      assert spent - (rest - {s}) == (spent - rest) + {s};
    } else {
      assert s in returned && s !in spent;
      assert returned - (rest - {s}) == (returned - rest) + {s};
      assert spent - (rest - {s}) == spent - rest;
    }
    hide Expired, Returned, Spent, Keyed;
  }

  lemma SortEnds<B>(
    store: Store<B>, limit: int, cap: int, disableDLQ: bool, clock: Slot -> int,
    back: map<Slot, Message<B>>, dead: map<Slot, Timed<B>>)
    requires IsSorted(store.processing, limit, cap, disableDLQ, clock, {}, back, dead)
    ensures IsRequeued(
              store, limit, cap, disableDLQ, clock,
              Store(store.queued + back, store.processing - Expired(store.processing, limit), store.dlq + dead))
  {
    var returned := Returned(store.processing, limit, cap);
    var spent := Spent(store.processing, limit, cap);
    hide Expired, Returned, Spent;
    assert returned - {} == returned && spent - {} == spent;
    assert AreRetried(store.processing, returned, back);
    assert AreDead(store.processing, if disableDLQ then {} else spent, clock, dead);
  }

  ghost predicate InOrder<B>(ms: seq<Message<B>>, rest: set<JsString>) {
    && (forall i, j :: 0 <= i < j < |ms| ==> Less(ms[i].id, ms[j].id))
    && (forall i, id :: 0 <= i < |ms| && id in rest ==> Less(ms[i].id, id))
  }

  lemma InOrderStep<B>(ms: seq<Message<B>>, rest: set<JsString>, m: Message<B>)
    requires InOrder(ms, rest) && m.id in rest && forall x :: x in rest ==> Leq(m.id, x)
    ensures InOrder(ms + [m], rest - {m.id})
  {
    hide Leq;
  }

  /** Messages seen so far, with the ids still to come all behind them. */
  ghost predicate IsScanned<B>(
    queued: map<Slot, Message<B>>, queue: JsString, ms: seq<Message<B>>, rest: set<JsString>)
  {
    && InOrder(ms, rest)
    && AreQueued(queued, queue, rest)
    && AreStored(queued, queue, ms)
    && (forall s :: s in queued && s.0 == queue ==> s in Slots(queue, ms) || s.1 in rest)
  }

  ghost predicate AreQueued<B>(queued: map<Slot, Message<B>>, queue: JsString, ids: set<JsString>) {
    forall id :: id in ids ==> (queue, id) in queued && queued[(queue, id)].id == id
  }

  lemma ScanStarts<B>(queued: map<Slot, Message<B>>, queue: JsString)
    requires forall s :: s in queued ==> queued[s].id == s.1
    ensures IsScanned(queued, queue, [], set s | s in queued && s.0 == queue :: s.1)
  {
    var rest := set s | s in queued && s.0 == queue :: s.1;
    forall id | id in rest
      ensures (queue, id) in queued && queued[(queue, id)].id == id
    {
      var s :| s in queued && s.0 == queue && s.1 == id;
      assert s == (queue, id);
    }
  }

  lemma ScanIsQueued<B>(
    queued: map<Slot, Message<B>>, queue: JsString, ms: seq<Message<B>>, rest: set<JsString>, id: JsString)
    requires IsScanned(queued, queue, ms, rest) && id in rest
    ensures (queue, id) in queued
  {
    hide Leq;
  }

  lemma {:induction false} ScanStep<B>(
    queued: map<Slot, Message<B>>, queue: JsString, ms: seq<Message<B>>, rest: set<JsString>, id: JsString)
    requires IsScanned(queued, queue, ms, rest)
    requires id in rest && (queue, id) in queued && forall x :: x in rest ==> Leq(id, x)
    ensures IsScanned(queued, queue, ms + [queued[(queue, id)]], rest - {id})
  {
    var m := queued[(queue, id)];
    var after := ms + [m];
    assert after[..|ms|] == ms && after[..|ms| + 1] == after;
    SlotsAdded(queue, after, |ms|);
    assert m.id == id;
    hide Leq, Slots, InOrder, AreStored;
    InOrderStep(ms, rest, m);
    StoredStep(queued, queue, ms, m);
    assert AreQueued(queued, queue, rest - {id});
    hide AreQueued;
  }

  lemma StoredStep<B>(queued: map<Slot, Message<B>>, queue: JsString, ms: seq<Message<B>>, m: Message<B>)
    requires AreStored(queued, queue, ms) && (queue, m.id) in queued && m == queued[(queue, m.id)]
    ensures AreStored(queued, queue, ms + [m])
  {
  }

  lemma ScanEnds<B>(
    queued: map<Slot, Message<B>>, queue: JsString, ms: seq<Message<B>>, rest: set<JsString>, maxItems: int)
    requires IsScanned(queued, queue, ms, rest)
    requires rest == {} || (ms != [] && |ms| >= maxItems)
    requires |ms| <= 1 || |ms| <= maxItems
    ensures IsPolled(queued, queue, maxItems, ms)
  {
    assert ms == [] ==> Slots(queue, ms) == {};
    hide Leq, Slots;
  }

  /** A poll asked for all messages of its queue gets them all. */
  lemma PollOfAll<B>(queued: map<Slot, Message<B>>, queue: JsString) returns (ms: seq<Message<B>>)
    requires forall s :: s in queued ==> queued[s].id == s.1
    ensures IsPolled(queued, queue, |ms|, ms)
    ensures forall s :: s in queued && s.0 == queue ==> s in Slots(queue, ms)
  {
    ms := [];
    var rest := set s | s in queued && s.0 == queue :: s.1;
    ScanStarts(queued, queue);
    hide IsScanned, IsPolled, Slots, Leq;
    while rest != {}
      invariant IsScanned(queued, queue, ms, rest)
      decreases rest
    {
      var id := Least(rest);
      ScanIsQueued(queued, queue, ms, rest, id);
      ScanStep(queued, queue, ms, rest, id);
      ms := ms + [queued[(queue, id)]];
      rest := rest - {id};
    }
    ScanIsWhole(queued, queue, ms);
    ScanEnds(queued, queue, ms, {}, |ms|);
  }

  lemma ScanIsWhole<B>(queued: map<Slot, Message<B>>, queue: JsString, ms: seq<Message<B>>)
    requires IsScanned(queued, queue, ms, {})
    ensures forall s :: s in queued && s.0 == queue ==> s in Slots(queue, ms)
  {
    hide Slots, InOrder, AreQueued, AreStored;
  }
}
