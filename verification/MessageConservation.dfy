/** Runs whose operations do not overlap: every message sent is in exactly one place, with the body it was sent with. */
module MessageConservation {
  import opened Utf16
  import opened MessageQueue
  import opened MessageRuns

  /** An operation carried out whole. */
  datatype Op<B> =
    | Poll(queue: JsString, maxItems: int, messages: seq<Message<B>>, now: nat -> int)
    | Other(step: Step<B>)

  ghost predicate CanPerform<B>(s: State<B>, op: Op<B>) {
    match op
    case Poll(queue, maxItems, messages, now) => IsPolled(s.store.queued, queue, maxItems, messages)
    case Other(step) => (step.Send? || step.Ack? || step.Requeue?) && Enabled(s, step)
  }

  ghost function Perform<B>(s: State<B>, op: Op<B>): (t: State<B>)
    requires s.pollers == map[] && CanPerform(s, op)
    ensures t.pollers == map[]
  {
    hide IsPolled, IsRequeued, Enqueue;
    match op
    case Poll(queue, maxItems, messages, now) =>
      if messages == [] then s
      else Next(BetweenWrites(s, queue, maxItems, messages, now), PollDelete(0))
    case Other(step) => Next(s, step)
  }

  /** Where a poll is when its first write is done and its second is not. */
  ghost function BetweenWrites<B>(
    s: State<B>, queue: JsString, maxItems: int, messages: seq<Message<B>>, now: nat -> int): (t: State<B>)
    requires s.pollers == map[] && IsPolled(s.store.queued, queue, maxItems, messages) && messages != []
    ensures t.pollers == map[0 := Writing(queue, messages)]
  {
    hide IsPolled, WriteProcessing;
    Next(Next(s, PollRead(0, queue, maxItems, messages)), PollWrite(0, now))
  }

  ghost predicate Performs<B>(s: State<B>, ops: seq<Op<B>>)
    requires s.pollers == map[]
    decreases |ops|, 0
  {
    ops == [] ||
    (var n := |ops| - 1; Performs(s, ops[..n]) && CanPerform(After(s, ops[..n]), ops[n]))
  }

  ghost function After<B>(s: State<B>, ops: seq<Op<B>>): (t: State<B>)
    requires s.pollers == map[] && Performs(s, ops)
    ensures t.pollers == map[]
    decreases |ops|, 1
  {
    if ops == [] then s
    else var n := |ops| - 1; Perform(After(s, ops[..n]), ops[n])
  }

  function One(b: bool): nat {
    if b then 1 else 0
  }

  /** In how many places a message is. */
  ghost function Places<B>(s: State<B>, slot: Slot): nat {
    One(slot in s.store.queued) + One(slot in s.store.processing) + One(slot in s.store.dlq)
    + One(slot in s.acked) + One(slot in s.dropped)
  }

  ghost predicate Conserved<B>(s: State<B>) {
    && s.pollers == map[]
    && SentOnly(s)
    && (forall slot :: slot in SentSlots(s.sent) ==> Places(s, slot) == 1)
  }

  lemma OtherConserves<B>(s: State<B>, step: Step<B>)
    requires Conserved(s) && (step.Send? || step.Ack? || step.Requeue?) && Enabled(s, step)
    ensures Conserved(Next(s, step))
  {
    NextSentOnly(s, step);
    hide Slots, SentSlots, IsPolled, IsRequeued, Enqueue, Minted, News, WriteProcessing;
    hide Returned, Spent, Expired, IdSlots;
    match step
    case Send(queue, bodies, clock) =>
      SendSlots(s.sent, queue, bodies, clock);
      EnqueueKeys(s.store.queued, queue, Minted(queue, bodies, clock, |s.sent|));
      return;
    case Ack(queue, ids) =>
      return;
    case Requeue(limit, cap, disableDLQ, clock, after) =>
      RequeueKeys(s.store, limit, cap, disableDLQ, clock, after);
      return;
  }

  lemma PollEffect<B>(s: State<B>, queue: JsString, maxItems: int, messages: seq<Message<B>>, now: nat -> int)
    requires s.pollers == map[] && IsPolled(s.store.queued, queue, maxItems, messages) && messages != []
    ensures var mid := BetweenWrites(s, queue, maxItems, messages, now);
            var t := Perform(s, Poll(queue, maxItems, messages, now));
            && mid.store.queued == s.store.queued
            && mid.store.processing == WriteProcessing(s.store.processing, queue, messages, now)
            && mid.store.processing.Keys == s.store.processing.Keys + Slots(queue, messages)
            && mid == s.(store := mid.store, pollers := mid.pollers) && mid.store.dlq == s.store.dlq
            && t.store == mid.store.(queued := s.store.queued - Slots(queue, messages))
            && t.pollers == map[] && t.sent == s.sent && t.acked == s.acked && t.dropped == s.dropped
    ensures Slots(queue, messages) <= s.store.queued.Keys
  {
    PolledAreQueued(s.store.queued, queue, maxItems, messages);
    WriteKeys(s.store.processing, queue, messages, now);
    hide IsPolled, WriteProcessing, Slots;
  }

  lemma PollConserves<B>(s: State<B>, queue: JsString, maxItems: int, messages: seq<Message<B>>, now: nat -> int)
    requires Conserved(s) && IsPolled(s.store.queued, queue, maxItems, messages)
    ensures Conserved(Perform(s, Poll(queue, maxItems, messages, now)))
  {
    if messages != [] {
      PollEffect(s, queue, maxItems, messages, now);
      PollSentOnly(s, queue, maxItems, messages, now);
      hide IsPolled, Slots, SentSlots, SentOnly, Perform, BetweenWrites;
    }
  }

  lemma PollSentOnly<B>(s: State<B>, queue: JsString, maxItems: int, messages: seq<Message<B>>, now: nat -> int)
    requires s.pollers == map[] && SentOnly(s) && IsPolled(s.store.queued, queue, maxItems, messages) && messages != []
    ensures SentOnly(BetweenWrites(s, queue, maxItems, messages, now))
    ensures SentOnly(Perform(s, Poll(queue, maxItems, messages, now)))
  {
    hide IsPolled, SentOnly;
    var a := Next(s, PollRead(0, queue, maxItems, messages));
    NextSentOnly(s, PollRead(0, queue, maxItems, messages));
    NextSentOnly(a, PollWrite(0, now));
    NextSentOnly(BetweenWrites(s, queue, maxItems, messages, now), PollDelete(0));
  }

  lemma PerformConserves<B>(s: State<B>, op: Op<B>)
    requires Conserved(s) && CanPerform(s, op)
    ensures Conserved(Perform(s, op))
  {
    hide Conserved, Next, IsPolled;
    match op
    case Poll(queue, maxItems, messages, now) => PollConserves(s, queue, maxItems, messages, now);
    case Other(step) => OtherConserves(s, step);
  }

  /** In every run of whole operations each message sent is in exactly one place: queued, processing, dead-lettered,
      acknowledged or dropped. */
  lemma {:induction false} EachMessageInOnePlace<B>(ops: seq<Op<B>>)
    requires Performs(Empty<B>(), ops)
    ensures Conserved(After(Empty<B>(), ops))
  {
    if ops == [] {
      assert SentSlots(After(Empty<B>(), ops).sent) == {};
      return;
    }
    var n := |ops| - 1;
    EachMessageInOnePlace(ops[..n]);
    hide Conserved, Perform, CanPerform, Next;
    PerformConserves(After(Empty<B>(), ops[..n]), ops[n]);
  }

  /** Stopped between a poll's two writes, the messages polled are both queued and processing, and every other
      message is still in exactly one place. */
  lemma StoppedPollKeepsMessages<B>(
    ops: seq<Op<B>>, queue: JsString, maxItems: int, messages: seq<Message<B>>, now: nat -> int, slot: Slot)
    requires Performs(Empty<B>(), ops)
    requires IsPolled(After(Empty<B>(), ops).store.queued, queue, maxItems, messages) && messages != []
    requires slot in SentSlots(After(Empty<B>(), ops).sent)
    ensures var t := BetweenWrites(After(Empty<B>(), ops), queue, maxItems, messages, now);
            && (slot in Slots(queue, messages) ==>
                slot in t.store.queued && slot in t.store.processing && Places(t, slot) == 2)
            && (slot !in Slots(queue, messages) ==> Places(t, slot) == 1)
  {
    EachMessageInOnePlace(ops);
    var s := After(Empty<B>(), ops);
    hide After, Performs, IsPolled, SentSlots, Slots, SentOnly, BetweenWrites;
    PollEffect(s, queue, maxItems, messages, now);
  }

  // ---------------------------------------------------------------- bodies

  /** A message is the one sent under its slot. */
  ghost predicate Bears<B>(sent: seq<Sent<B>>, slot: Slot, body: B) {
    forall i :: 0 <= i < |sent| && SlotAt(sent, i) == slot ==> sent[i].body == body
  }

  ghost predicate Intact<B>(s: State<B>) {
    && (forall slot :: slot in s.store.queued ==> Bears(s.sent, slot, s.store.queued[slot].body))
    && (forall slot :: slot in s.store.processing ==> Bears(s.sent, slot, s.store.processing[slot].message.body))
    && (forall slot :: slot in s.store.dlq ==> Bears(s.sent, slot, s.store.dlq[slot].message.body))
    && (forall p :: p in s.pollers ==> AllBear(s.sent, s.pollers[p].queue, s.pollers[p].messages))
  }

  ghost predicate AllBear<B>(sent: seq<Sent<B>>, queue: JsString, messages: seq<Message<B>>) {
    forall i :: 0 <= i < |messages| ==> Bears(sent, (queue, messages[i].id), messages[i].body)
  }

  lemma BearsLonger<B>(sent: seq<Sent<B>>, queue: JsString, bodies: seq<B>, clock: nat -> nat, slot: Slot, body: B)
    requires slot in SentSlots(sent) && Bears(sent, slot, body)
    ensures Bears(sent + News(queue, bodies, clock), slot, body)
  {
    var all := sent + News(queue, bodies, clock);
    var k :| 0 <= k < |sent| && SlotAt(sent, k) == slot;
    assert SlotAt(all, k) == slot;
    hide SlotAt;
    forall i | 0 <= i < |all| && SlotAt(all, i) == slot
      ensures all[i].body == body
    {
      SlotsDiffer(all, i, k);
    }
  }

  lemma NewsBear<B>(sent: seq<Sent<B>>, queue: JsString, bodies: seq<B>, clock: nat -> nat)
    ensures AllBear(sent + News(queue, bodies, clock), queue, Minted(queue, bodies, clock, |sent|))
  {
    var all, ms := sent + News(queue, bodies, clock), Minted(queue, bodies, clock, |sent|);
    SlotsOfNews(sent, queue, bodies, clock);
    assert forall k :: 0 <= k < |ms| ==> ms[k].body == bodies[k] == all[|sent| + k].body;
    hide SlotAt, News, Minted;
    forall k, i | 0 <= k < |ms| && 0 <= i < |all| && SlotAt(all, i) == (queue, ms[k].id)
      ensures all[i].body == ms[k].body
    {
      assert SlotAt(all, |sent| + k) == (queue, ms[k].id);
      SlotsDiffer(all, i, |sent| + k);
    }
  }

  lemma SendIntact<B>(s: State<B>, queue: JsString, bodies: seq<B>, clock: nat -> nat)
    requires SentOnly(s) && Intact(s)
    ensures Intact(Next(s, Send(queue, bodies, clock)))
  {
    var ms := Minted(queue, bodies, clock, |s.sent|);
    var t := Next(s, Send(queue, bodies, clock));
    forall slot, body | slot in SentSlots(s.sent) && Bears(s.sent, slot, body)
      ensures Bears(t.sent, slot, body)
    {
      BearsLonger(s.sent, queue, bodies, clock, slot, body);
    }
    NewsBear(s.sent, queue, bodies, clock);
    hide SentSlots, News, Minted, Enqueue, Bears;
    forall slot | slot in t.store.queued
      ensures Bears(t.sent, slot, t.store.queued[slot].body)
    {
      EnqueueHas(s.store.queued, queue, ms, slot);
    }
    forall p, i | p in s.pollers && 0 <= i < |s.pollers[p].messages|
      ensures Bears(t.sent, (s.pollers[p].queue, s.pollers[p].messages[i].id), s.pollers[p].messages[i].body)
    {
      assert (s.pollers[p].queue, s.pollers[p].messages[i].id) in HeldBy(s.pollers[p]);
    }
  }

  lemma ReadIntact<B>(s: State<B>, p: nat, queue: JsString, maxItems: int, messages: seq<Message<B>>)
    requires Intact(s) && Enabled(s, PollRead(p, queue, maxItems, messages))
    ensures Intact(Next(s, PollRead(p, queue, maxItems, messages)))
  {
    hide Bears;
    assert AllBear(s.sent, queue, messages);
  }

  lemma WriteIntact<B>(s: State<B>, p: nat, now: nat -> int)
    requires Intact(s) && Enabled(s, PollWrite(p, now))
    ensures Intact(Next(s, PollWrite(p, now)))
  {
    hide Bears, WriteProcessing;
    var t, poller := Next(s, PollWrite(p, now)), s.pollers[p];
    forall slot | slot in t.store.processing
      ensures Bears(t.sent, slot, t.store.processing[slot].message.body)
    {
      WriteHas(s.store.processing, poller.queue, poller.messages, now, slot);
    }
  }

  lemma RequeueIntact<B>(
    s: State<B>, limit: int, cap: int, disableDLQ: bool, clock: Slot -> int, after: Store<B>)
    requires Intact(s) && IsRequeued(s.store, limit, cap, disableDLQ, clock, after)
    ensures Intact(Next(s, Requeue(limit, cap, disableDLQ, clock, after)))
  {
    hide Bears, AllBear, Expired;
  }

  lemma NextIntact<B>(s: State<B>, step: Step<B>)
    requires Enabled(s, step) && SentOnly(s) && Intact(s)
    ensures Intact(Next(s, step))
  {
    hide Bears, IsRequeued;
    match step
    case Send(queue, bodies, clock) =>
      SendIntact(s, queue, bodies, clock);
      return;
    case PollRead(p, queue, maxItems, messages) =>
      ReadIntact(s, p, queue, maxItems, messages);
      return;
    case PollWrite(p, now) =>
      WriteIntact(s, p, now);
      return;
    case PollDelete(p) =>
      return;
    case Ack(queue, ids) =>
      return;
    case Requeue(limit, cap, disableDLQ, clock, after) =>
      RequeueIntact(s, limit, cap, disableDLQ, clock, after);
      return;
  }

  /** However steps interleave, whatever is in the store under a slot has the body that was sent under it. */
  lemma {:induction false} BodiesStayIntact<B>(steps: seq<Step<B>>)
    requires Possible(Empty<B>(), steps)
    ensures SentOnly(Run(Empty<B>(), steps)) && Intact(Run(Empty<B>(), steps))
  {
    if steps == [] {
      return;
    }
    var n := |steps| - 1;
    BodiesStayIntact(steps[..n]);
    hide SentOnly, Intact, Enabled, Next;
    NextIntact(Run(Empty<B>(), steps[..n]), steps[n]);
    NextSentOnly(Run(Empty<B>(), steps[..n]), steps[n]);
  }

  // ---------------------------------------------------------------- retries

  /** With one cap for every requeue: what can still be delivered was retried at most that often, and a dead
      letter exactly once more. */
  ghost predicate Capped<B>(s: State<B>, cap: nat) {
    && (forall slot :: slot in s.store.queued ==> s.store.queued[slot].retries <= cap)
    && (forall slot :: slot in s.store.processing ==> s.store.processing[slot].message.retries <= cap)
    && (forall slot :: slot in s.store.dlq ==> s.store.dlq[slot].message.retries == cap + 1)
    && (forall p, i :: p in s.pollers && 0 <= i < |s.pollers[p].messages| ==> s.pollers[p].messages[i].retries <= cap)
  }

  lemma SendCapped<B>(s: State<B>, cap: nat, queue: JsString, bodies: seq<B>, clock: nat -> nat)
    requires Capped(s, cap)
    ensures Capped(Next(s, Send(queue, bodies, clock)), cap)
  {
    var ms := Minted(queue, bodies, clock, |s.sent|);
    assert forall i :: 0 <= i < |ms| ==> ms[i].retries == 0;
    var t := Next(s, Send(queue, bodies, clock));
    hide News, Minted, Enqueue, Slots;
    forall slot | slot in t.store.queued
      ensures t.store.queued[slot].retries <= cap
    {
      EnqueueHas(s.store.queued, queue, ms, slot);
    }
  }

  lemma WriteCapped<B>(s: State<B>, cap: nat, p: nat, now: nat -> int)
    requires Capped(s, cap) && Enabled(s, PollWrite(p, now))
    ensures Capped(Next(s, PollWrite(p, now)), cap)
  {
    var t, poller := Next(s, PollWrite(p, now)), s.pollers[p];
    hide WriteProcessing, Slots;
    forall slot | slot in t.store.processing
      ensures t.store.processing[slot].message.retries <= cap
    {
      WriteHas(s.store.processing, poller.queue, poller.messages, now, slot);
    }
  }

  lemma RequeueCapped<B>(s: State<B>, cap: nat, limit: int, disableDLQ: bool, clock: Slot -> int, after: Store<B>)
    requires Capped(s, cap) && cap > 0 && IsRequeued(s.store, limit, cap, disableDLQ, clock, after)
    ensures Capped(Next(s, Requeue(limit, cap, disableDLQ, clock, after)), cap)
  {
    hide Expired;
  }

  lemma NextCapped<B>(s: State<B>, step: Step<B>, cap: nat)
    requires Enabled(s, step) && Capped(s, cap) && cap > 0 && (step.Requeue? ==> step.cap == cap)
    ensures Capped(Next(s, step), cap)
  {
    hide IsRequeued, Slots;
    match step
    case Send(queue, bodies, clock) =>
      SendCapped(s, cap, queue, bodies, clock);
      return;
    case PollRead(p, queue, maxItems, messages) =>
      return;
    case PollWrite(p, now) =>
      WriteCapped(s, cap, p, now);
      return;
    case PollDelete(p) =>
      return;
    case Ack(queue, ids) =>
      return;
    case Requeue(limit, _, disableDLQ, clock, after) =>
      RequeueCapped(s, cap, limit, disableDLQ, clock, after);
      return;
  }

  lemma {:induction false} RetriesAreCapped<B>(steps: seq<Step<B>>, cap: nat)
    requires Possible(Empty<B>(), steps) && cap > 0
    requires forall i :: 0 <= i < |steps| && steps[i].Requeue? ==> steps[i].cap == cap
    ensures Capped(Run(Empty<B>(), steps), cap)
  {
    if steps == [] {
      return;
    }
    var n := |steps| - 1;
    RetriesAreCapped(steps[..n], cap);
    hide Capped, Enabled, Next;
    NextCapped(Run(Empty<B>(), steps[..n]), steps[n], cap);
  }
}
