/** The order of delivery: ids in send order make a poll first-in first-out. */
module DeliveryOrder {
  import opened Utf16
  import opened KvKeys
  import opened MessageIds
  import opened MessageQueue
  import opened MessageRuns
  import opened MessageConservation

  ghost predicate IsQueuedAt<B>(s: State<B>, queue: JsString, i: nat) {
    i < |s.sent| && s.sent[i].queue == queue && SlotAt(s.sent, i) in s.store.queued
  }

  predicate SentBefore<B>(sent: seq<Sent<B>>, i: nat, j: nat)
    requires i < |sent| && j < |sent|
  {
    IdBefore(sent[i].ts, i + 1, sent[j].ts, j + 1)
  }

  /** The clock readings and send numbers of the queue's messages agree with the order in which they were sent. */
  ghost predicate InSendOrder<B>(s: State<B>, queue: JsString) {
    forall i: nat, j: nat :: i < j && IsQueuedAt(s, queue, i) && IsQueuedAt(s, queue, j) ==> SentBefore(s.sent, i, j)
  }

  /** Send numbers of what a poll returns: in order, and none overtakes a message still queued. */
  ghost predicate OldestFirst<B>(s: State<B>, queue: JsString, ms: seq<Message<B>>, at: seq<nat>) {
    && |at| == |ms|
    && (forall k :: 0 <= k < |ms| ==> at[k] < |s.sent| && SlotAt(s.sent, at[k]) == (queue, ms[k].id))
    && (forall k, l :: 0 <= k < l < |ms| ==> at[k] < at[l])
    && (forall k, i: nat :: 0 <= k < |ms| && i < at[k] && IsQueuedAt(s, queue, i) ==>
          SlotAt(s.sent, i) in Slots(queue, ms))
  }

  ghost predicate IsFirstInFirstOut<B>(s: State<B>, queue: JsString, ms: seq<Message<B>>) {
    exists at :: OldestFirst(s, queue, ms, at)
  }

  lemma IdsInSendOrder<B>(sent: seq<Sent<B>>, i: nat, j: nat)
    requires i < |sent| && j < |sent|
    ensures Less(SlotAt(sent, i).1, SlotAt(sent, j).1) <==> SentBefore(sent, i, j)
    ensures i != j ==> (SentBefore(sent, j, i) <==> !SentBefore(sent, i, j))
  {
    hide Less, Id, IdBefore;
    IdOrder(sent[i].ts, i + 1, sent[j].ts, j + 1);
    IdOrder(sent[j].ts, j + 1, sent[i].ts, i + 1);
    IdsDiffer(sent[i].ts, i + 1, sent[j].ts, j + 1);
    LessIsTotal(SlotAt(sent, i).1, SlotAt(sent, j).1);
  }

  lemma LessIsTotal(a: JsString, b: JsString)
    ensures a != b ==> (Less(b, a) <==> !Less(a, b))
  {
    hide Leq;
    LeqTotal(a, b);
  }

  // ---------------------------------------------------------------- send numbers

  lemma SendNumber<B>(s: State<B>, slot: Slot) returns (i: nat)
    requires SentOnly(s) && slot in s.store.queued
    ensures i < |s.sent| && SlotAt(s.sent, i) == slot
  {
    hide SlotAt;
    assert Placed(s, slot);
    i :| 0 <= i < |s.sent| && SlotAt(s.sent, i) == slot;
  }

  lemma {:induction false} SendNumbers<B>(s: State<B>, queue: JsString, ms: seq<Message<B>>) returns (at: seq<nat>)
    requires SentOnly(s) && AreStored(s.store.queued, queue, ms)
    ensures |at| == |ms|
    ensures forall k :: 0 <= k < |ms| ==> at[k] < |s.sent| && SlotAt(s.sent, at[k]) == (queue, ms[k].id)
  {
    hide SlotAt, SentOnly;
    at := [];
    if ms != [] {
      var n := |ms| - 1;
      var init := SendNumbers(s, queue, ms[..n]);
      var i := SendNumber(s, (queue, ms[n].id));
      at := init + [i];
      assert forall k :: 0 <= k < n ==> ms[..n][k] == ms[k];
    }
  }

  lemma SlotIsOfQueue<B>(sent: seq<Sent<B>>, i: nat)
    requires i < |sent|
    ensures SlotAt(sent, i).0 == sent[i].queue
  {
  }

  // ---------------------------------------------------------------- first in, first out

  /** While the queue is in send order a poll returns its oldest messages, in send order. */
  lemma PollOfOrderedQueue<B>(s: State<B>, queue: JsString, maxItems: int, ms: seq<Message<B>>)
    requires SentOnly(s) && InSendOrder(s, queue) && IsPolled(s.store.queued, queue, maxItems, ms)
    ensures IsFirstInFirstOut(s, queue, ms)
  {
    hide SentOnly, SlotAt, Slots, Less, SentBefore;
    var at := SendNumbers(s, queue, ms);
    forall k | 0 <= k < |ms|
      ensures IsQueuedAt(s, queue, at[k])
    {
      SlotIsOfQueue(s.sent, at[k]);
    }
    hide AreStored;
    forall k, l | 0 <= k < l < |ms|
      ensures at[k] < at[l]
    {
      IdsInSendOrder(s.sent, at[k], at[l]);
      IdsInSendOrder(s.sent, at[l], at[k]);
      LessIsStrict(ms[k].id);
    }
    forall k, i: nat | 0 <= k < |ms| && i < at[k] && IsQueuedAt(s, queue, i)
      ensures SlotAt(s.sent, i) in Slots(queue, ms)
    {
      IdsInSendOrder(s.sent, at[k], i);
      SlotIsOfQueue(s.sent, i);
    }
    assert OldestFirst(s, queue, ms, at);
  }

  /** A pair out of order is delivered the wrong way round: what returns the earlier message returns the later one
      before it. */
  lemma {:induction false} WrongWayRound<B>(
    s: State<B>, queue: JsString, i: nat, j: nat, maxItems: int, ms: seq<Message<B>>, k: nat)
    requires i < j && IsQueuedAt(s, queue, i) && IsQueuedAt(s, queue, j) && !SentBefore(s.sent, i, j)
    requires IsPolled(s.store.queued, queue, maxItems, ms) && k < |ms| && (queue, ms[k].id) == SlotAt(s.sent, i)
    ensures exists l :: 0 <= l < k && (queue, ms[l].id) == SlotAt(s.sent, j)
    ensures !IsFirstInFirstOut(s, queue, ms)
  {
    hide SlotAt, Less, SentBefore, AreStored;
    SlotIsOfQueue(s.sent, j);
    IdsInSendOrder(s.sent, i, j);
    IdsInSendOrder(s.sent, j, i);
    LessIsTotal(SlotAt(s.sent, i).1, SlotAt(s.sent, j).1);
    SlotsDiffer(s.sent, i, j);
    assert SlotAt(s.sent, j) in Slots(queue, ms);
    var l :| 0 <= l < |ms| && (queue, ms[l].id) == SlotAt(s.sent, j);
    assert l < k;
    forall at
      ensures !OldestFirst(s, queue, ms, at)
    {
      if |at| == |ms| && at[k] < |s.sent| && at[l] < |s.sent| {
        SlotsDiffer(s.sent, at[k], i);
        SlotsDiffer(s.sent, at[l], j);
      }
    }
  }

  lemma OutOfOrderPoll<B>(s: State<B>, queue: JsString) returns (maxItems: int, ms: seq<Message<B>>)
    requires IdsKept(s) && !InSendOrder(s, queue)
    ensures IsPolled(s.store.queued, queue, maxItems, ms) && !IsFirstInFirstOut(s, queue, ms)
  {
    hide SentBefore, SlotAt, IsPolled, IsFirstInFirstOut;
    ms := PollOfAll(s.store.queued, queue);
    maxItems := |ms|;
    var i: nat, j: nat :|
      i < j && IsQueuedAt(s, queue, i) && IsQueuedAt(s, queue, j) && !SentBefore(s.sent, i, j);
    SlotIsOfQueue(s.sent, i);
    assert SlotAt(s.sent, i) in Slots(queue, ms);
    var k :| 0 <= k < |ms| && (queue, ms[k].id) == SlotAt(s.sent, i);
    hide IsQueuedAt, InSendOrder, IdsKept;
    WrongWayRound(s, queue, i, j, maxItems, ms, k);
  }

  /** In every run: the polls of a queue are first-in first-out exactly when the clock readings and send numbers of
      its messages agree with the send order. */
  lemma {:induction false} FirstInFirstOutExactlyWhen<B>(steps: seq<Step<B>>, queue: JsString)
    requires Possible(Empty<B>(), steps)
    ensures var s := Run(Empty<B>(), steps);
            InSendOrder(s, queue) <==>
            forall maxItems, ms :: IsPolled(s.store.queued, queue, maxItems, ms) ==> IsFirstInFirstOut(s, queue, ms)
  {
    hide *;
    BodiesStayIntact(steps);
    RunIdsKept(steps);
    var s := Run(Empty<B>(), steps);
    if InSendOrder(s, queue) {
      forall maxItems, ms | IsPolled(s.store.queued, queue, maxItems, ms)
        ensures IsFirstInFirstOut(s, queue, ms)
      {
        PollOfOrderedQueue(s, queue, maxItems, ms);
      }
    } else {
      var maxItems, ms := OutOfOrderPoll(s, queue);
    }
  }

  // ---------------------------------------------------------------- when the clock is steady

  /** The clock never goes back and keeps its number of digits, and messages with one reading have padded numbers of
      one width. */
  ghost predicate Steady<B>(sent: seq<Sent<B>>) {
    forall i: nat, j: nat :: i < j < |sent| ==>
      && sent[i].ts <= sent[j].ts && |Decimal(sent[i].ts)| == |Decimal(sent[j].ts)|
      && (sent[i].ts == sent[j].ts ==> SerialWidth(i + 1) == SerialWidth(j + 1))
  }

  lemma SteadyIsInSendOrder<B>(s: State<B>, queue: JsString)
    requires Steady(s.sent)
    ensures InSendOrder(s, queue)
  {
    hide Decimal, SerialWidth, IdBefore, SlotAt;
    forall i: nat, j: nat | i < j && IsQueuedAt(s, queue, i) && IsQueuedAt(s, queue, j)
      ensures SentBefore(s.sent, i, j)
    {
      EqualWidthsOrder(s.sent[i].ts, i + 1, s.sent[j].ts, j + 1);
    }
  }

  /** In any run in which the clock is steady, a poll returns the oldest messages of its queue, in send order. */
  lemma {:induction false} PollIsFirstInFirstOut<B>(
    steps: seq<Step<B>>, s: State<B>, queue: JsString, maxItems: int, ms: seq<Message<B>>)
    requires Possible(Empty<B>(), steps) && s == Run(Empty<B>(), steps)
    requires Steady(s.sent) && IsPolled(s.store.queued, queue, maxItems, ms)
    ensures IsFirstInFirstOut(s, queue, ms)
    ensures IsAsMuchAsAsked(s.store.queued, queue, maxItems, ms)
  {
    hide SentOnly, Possible, Run, Less, AreStored;
    assert IsAsMuchAsAsked(s.store.queued, queue, maxItems, ms);
    hide *;
    BodiesStayIntact(steps);
    SteadyIsInSendOrder(s, queue);
    PollOfOrderedQueue(s, queue, maxItems, ms);
  }

  lemma BelowAMillion(i: nat, j: nat)
    requires i < 1_000_000 && j < 1_000_000
    ensures SerialWidth(i) == SerialWidth(j)
  {
    hide Decimal, PadStart;
    PaddedWidth(i);
    PaddedWidth(j);
  }

  /** A clock that never goes back and keeps its number of digits is steady for fewer than a million messages. */
  lemma FewMessagesAreSteady<B>(sent: seq<Sent<B>>)
    requires |sent| < 1_000_000
    requires forall i, j :: 0 <= i < j < |sent| ==>
               sent[i].ts <= sent[j].ts && |Decimal(sent[i].ts)| == |Decimal(sent[j].ts)|
    ensures Steady(sent)
  {
    hide Decimal, SerialWidth;
    forall i: nat, j: nat | i < j < |sent|
      ensures sent[i].ts == sent[j].ts ==> SerialWidth(i + 1) == SerialWidth(j + 1)
    {
      BelowAMillion(i + 1, j + 1);
    }
  }

  lemma SentFirst<B>(queue: JsString, bodies: seq<B>, clock: nat -> nat, i: nat)
    requires i < |bodies|
    ensures var s := Next(Empty<B>(), Send(queue, bodies, clock));
            IsQueuedAt(s, queue, i) && s.sent[i].ts == clock(i)
  {
    var ms := Minted(queue, bodies, clock, 0);
    EnqueueKeys(Empty<B>().store.queued, queue, ms);
    SendSlots(Empty<B>().sent, queue, bodies, clock);
    NothingSent<B>();
    var s := Next(Empty<B>(), Send(queue, bodies, clock));
    assert s.sent == News(queue, bodies, clock);
    hide Enqueue, Minted, Slots, SentSlots, SlotAt;
    InSentSlots(s.sent, i);
  }

  /** A million messages sent at once are not delivered in order. */
  lemma MillionAtOnce<B>(queue: JsString, bodies: seq<B>, ts: nat)
    requires |bodies| >= 1_000_000
    ensures var steps := [Send(queue, bodies, _ => ts)];
            Possible(Empty<B>(), steps) && !InSendOrder(Run(Empty<B>(), steps), queue)
  {
    var clock: nat -> nat := _ => ts;
    var send := Send(queue, bodies, clock);
    assert [send][..0] == [];
    assert Possible(Empty<B>(), [send]) && Run(Empty<B>(), [send]) == Next(Empty<B>(), send);
    var s := Next(Empty<B>(), send);
    assert clock(999_998) == clock(999_999) == ts;
    hide Run, Possible, Enabled, Next, IdBefore, IsQueuedAt;
    SentFirst(queue, bodies, clock, 999_998);
    SentFirst(queue, bodies, clock, 999_999);
    MillionthOvertakes(ts);
    assert IsQueuedAt(s, queue, 999_998) && IsQueuedAt(s, queue, 999_999);
    QueuedIsSent(s, queue, 999_999);
    assert !SentBefore(s.sent, 999_998, 999_999);
  }

  lemma QueuedIsSent<B>(s: State<B>, queue: JsString, i: nat)
    requires IsQueuedAt(s, queue, i)
    ensures i < |s.sent|
  {
  }

  lemma InSentSlots<B>(sent: seq<Sent<B>>, i: nat)
    requires i < |sent|
    ensures SlotAt(sent, i) in SentSlots(sent)
  {
  }

  lemma NothingSent<B>()
    ensures SentSlots<B>([]) == {}
  {
  }

  // ---------------------------------------------------------------- the rows behind a queue

  const MQ: JsString := [109, 113]

  /** The key of a message in a part of the store, `part` being "queued", "processing" or "dlq". */
  function RowKey(part: JsString, slot: Slot): Key {
    [MQ, part, slot.0, slot.1]
  }

  /** A scan of one queue, and one of all queues: which rows are in the range. */
  lemma QueueScanFindsItsRows(part: JsString, other: JsString, queue: JsString, slot: Slot)
    requires Separable(RowKey(other, slot)) && SEP !in part && SEP !in queue
    ensures InRange(Join(RowKey(other, slot)), [MQ, part, queue]) <==>
            other == part && slot.0 == queue && BelowTop(RowKey(other, slot), 3)
    ensures InRange(Join(RowKey(other, slot)), [MQ, part]) <==> other == part && BelowTop(RowKey(other, slot), 2)
  {
    var key := RowKey(other, slot);
    assert SEP !in MQ;
    assert Separable([MQ, part, queue]) && Separable([MQ, part]);
    RangeIsPrefixQuery(key, [MQ, part, queue]);
    RangeIsPrefixQuery(key, [MQ, part]);
    hide Join, InRange, BelowTop, Separable;
    assert key[..3] == [MQ, other, slot.0];
    assert key[..2] == [MQ, other];
    assert [MQ, other, slot.0] == [MQ, part, queue] <==> other == part && slot.0 == queue by {
      assert [MQ, other, slot.0][1] == other && [MQ, other, slot.0][2] == slot.0;
      assert [MQ, part, queue][1] == part && [MQ, part, queue][2] == queue;
    }
    assert [MQ, other] == [MQ, part] <==> other == part by {
      assert [MQ, other][1] == other && [MQ, part][1] == part;
    }
  }

  /** A queue whose messages the count over all queues misses. */
  lemma CountOfAllMisses(part: JsString, id: JsString)
    requires SEP !in part && SEP !in id
    ensures !InRange(Join(RowKey(part, ([TOP, 65], id))), [MQ, part])
  {
    assert SEP !in MQ;
    QueueScanFindsItsRows(part, part, [], ([TOP, 65], id));
    hide Join, InRange;
  }

  /** For generated ids the rows counted for a queue, or for all of them, are those that the test is about. */
  lemma CountFindsItsRows(part: JsString, other: JsString, queue: JsString, name: JsString, ts: nat, serial: nat)
    requires var slot := (name, Id(ts, serial)); Separable(RowKey(other, slot)) && SEP !in part && SEP !in queue
    ensures var slot := (name, Id(ts, serial));
            InRange(Join(RowKey(other, slot)), if queue == [] then [MQ, part] else [MQ, part, queue]) <==>
            other == part && Concerns(queue, slot)
  {
    var slot := (name, Id(ts, serial));
    ReadDecimal(ts);
    assert slot.1[0] == Decimal(ts)[0];
    hide Join, InRange, Separable, Decimal, PadStart, ValueOf;
    QueueScanFindsItsRows(part, other, queue, slot);
  }

  /** And it visits them in the order of their ids. */
  lemma QueueScanIsInIdOrder(part: JsString, queue: JsString, a: JsString, b: JsString)
    ensures Less(Join(RowKey(part, (queue, a))), Join(RowKey(part, (queue, b)))) <==> Less(a, b)
  {
    RowKeyJoined(part, (queue, a));
    RowKeyJoined(part, (queue, b));
    hide Join, RowKey, Leq;
    var p := MQ + [SEP] + part + [SEP] + queue + [SEP];
    LessByParts(p, a, p, b);
    LessIsStrict(p);
  }

  lemma RowKeyJoined(part: JsString, slot: Slot)
    ensures Join(RowKey(part, slot)) == MQ + [SEP] + part + [SEP] + slot.0 + [SEP] + slot.1
  {
    var last: Key := [slot.1];
    assert Join(last) == slot.1;
    assert RowKey(part, slot) == [MQ] + ([part] + ([slot.0] + last));
    hide Join;
    JoinCons(slot.0, last);
    JoinCons(part, [slot.0] + last);
    JoinCons(MQ, [part] + ([slot.0] + last));
  }
}
