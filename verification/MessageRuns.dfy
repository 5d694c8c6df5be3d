/** Runs of one message queue: sends, polls by several pollers, acknowledgements and requeues, step by step. */
module MessageRuns {
  import opened Utf16
  import opened MessageIds
  import opened MessageQueue

  /** What was sent, in order: the n-th message has sequence number n + 1. */
  datatype Sent<B> = Sent(queue: JsString, ts: nat, body: B)

  /** A poll under way: its messages have been read, or also written to processing. */
  datatype Poller<B> =
    | Reading(queue: JsString, messages: seq<Message<B>>)
    | Writing(queue: JsString, messages: seq<Message<B>>)

  /** The store with its pollers; the rest is a record of the run. `delivered` holds what a finished poll
      returned and no requeue has taken back since. */
  datatype State<B> = State(
    store: Store<B>,
    pollers: map<nat, Poller<B>>,
    sent: seq<Sent<B>>,
    acked: set<Slot>,
    dropped: set<Slot>,
    delivered: set<Slot>)

  datatype Step<B> =
    | Send(queue: JsString, bodies: seq<B>, clock: nat -> nat)
    | PollRead(poller: nat, queue: JsString, maxItems: int, messages: seq<Message<B>>)
    | PollWrite(poller: nat, now: nat -> int)
    | PollDelete(poller: nat)
    | Ack(queue: JsString, ids: seq<JsString>)
    | Requeue(limit: int, cap: int, disableDLQ: bool, deadline: Slot -> int, after: Store<B>)

  ghost function Empty<B>(): State<B> {
    State(Store(map[], map[], map[]), map[], [], {}, {}, {})
  }

  // ---------------------------------------------------------------- what was sent

  function SlotAt<B>(sent: seq<Sent<B>>, i: nat): Slot
    requires i < |sent|
  {
    (sent[i].queue, Id(sent[i].ts, i + 1))
  }

  ghost function SentSlots<B>(sent: seq<Sent<B>>): set<Slot> {
    set i | 0 <= i < |sent| :: SlotAt(sent, i)
  }

  function News<B>(queue: JsString, bodies: seq<B>, clock: nat -> nat): (sent: seq<Sent<B>>)
    ensures |sent| == |bodies|
  {
    seq(|bodies|, i requires 0 <= i < |bodies| => Sent(queue, clock(i), bodies[i]))
  }

  lemma SlotsDiffer<B>(sent: seq<Sent<B>>, i: nat, j: nat)
    requires i < |sent| && j < |sent|
    ensures SlotAt(sent, i) == SlotAt(sent, j) <==> i == j
  {
    hide Id;
    IdsDiffer(sent[i].ts, i + 1, sent[j].ts, j + 1);
  }

  lemma SlotsOfNews<B>(sent: seq<Sent<B>>, queue: JsString, bodies: seq<B>, clock: nat -> nat)
    ensures var all, ms := sent + News(queue, bodies, clock), Minted(queue, bodies, clock, |sent|);
            && (forall i :: 0 <= i < |sent| ==> SlotAt(all, i) == SlotAt(sent, i))
            && (forall k :: |sent| <= k < |all| ==> SlotAt(all, k) == (queue, ms[k - |sent|].id))
  {
    hide Id;
  }

  lemma {:induction false} SlotsOfLonger<B>(sent: seq<Sent<B>>, all: seq<Sent<B>>, queue: JsString, ms: seq<Message<B>>)
    requires |all| == |sent| + |ms|
    requires forall i :: 0 <= i < |sent| ==> SlotAt(all, i) == SlotAt(sent, i)
    requires forall k :: |sent| <= k < |all| ==> SlotAt(all, k) == (queue, ms[k - |sent|].id)
    ensures SentSlots(all) == SentSlots(sent) + Slots(queue, ms)
    ensures SentSlots(sent) !! Slots(queue, ms)
  {
    hide SlotAt;
    forall slot
      ensures slot in Slots(queue, ms) <==> exists k :: |sent| <= k < |all| && SlotAt(all, k) == slot
    {
      if slot in Slots(queue, ms) {
        var j :| 0 <= j < |ms| && slot == (queue, ms[j].id);
        assert SlotAt(all, |sent| + j) == slot;
      }
    }
    forall i, k | 0 <= i < |sent| <= k < |all|
      ensures SlotAt(sent, i) != SlotAt(all, k)
    {
      SlotsDiffer(all, i, k);
    }
    hide Slots;
    forall slot
      ensures slot in SentSlots(all) <==> slot in SentSlots(sent) || slot in Slots(queue, ms)
    {
    }
  }

  /** The slots of a batch are new, and they are the ones that sending it adds. */
  lemma SendSlots<B>(sent: seq<Sent<B>>, queue: JsString, bodies: seq<B>, clock: nat -> nat)
    ensures SentSlots(sent + News(queue, bodies, clock)) ==
            SentSlots(sent) + Slots(queue, Minted(queue, bodies, clock, |sent|))
    ensures SentSlots(sent) !! Slots(queue, Minted(queue, bodies, clock, |sent|))
  {
    hide *;
    SlotsOfNews(sent, queue, bodies, clock);
    SlotsOfLonger(sent, sent + News(queue, bodies, clock), queue, Minted(queue, bodies, clock, |sent|));
  }

  // ---------------------------------------------------------------- steps

  ghost function HeldBy<B>(poller: Poller<B>): set<Slot> {
    Slots(poller.queue, poller.messages)
  }

  /** Some poller has written the message to processing and not yet deleted it from its queue. */
  ghost predicate InHand<B>(s: State<B>, slot: Slot) {
    exists p :: p in s.pollers && s.pollers[p].Writing? && slot in HeldBy(s.pollers[p])
  }

  ghost predicate Enabled<B>(s: State<B>, step: Step<B>) {
    match step
    case PollRead(p, queue, maxItems, messages) =>
      p !in s.pollers && IsPolled(s.store.queued, queue, maxItems, messages)
    case PollWrite(p, now) => p in s.pollers && s.pollers[p].Reading?
    case PollDelete(p) => p in s.pollers && s.pollers[p].Writing?
    case Requeue(limit, cap, disableDLQ, clock, after) => IsRequeued(s.store, limit, cap, disableDLQ, clock, after)
    case _ => true
  }

  ghost function Next<B>(s: State<B>, step: Step<B>): State<B>
    requires Enabled(s, step)
  {
    match step
    case Send(queue, bodies, clock) =>
      s.(store := s.store.(queued := Enqueue(s.store.queued, queue, Minted(queue, bodies, clock, |s.sent|))),
         sent := s.sent + News(queue, bodies, clock))
    case PollRead(p, queue, maxItems, messages) =>
      if messages == [] then s else s.(pollers := s.pollers[p := Reading(queue, messages)])
    case PollWrite(p, now) =>
      var poller := s.pollers[p];
      s.(store := s.store.(processing := WriteProcessing(s.store.processing, poller.queue, poller.messages, now)),
         pollers := s.pollers[p := Writing(poller.queue, poller.messages)])
    case PollDelete(p) =>
      s.(store := s.store.(queued := s.store.queued - HeldBy(s.pollers[p])),
         pollers := s.pollers - {p},
         delivered := s.delivered + HeldBy(s.pollers[p]))
    case Ack(queue, ids) =>
      s.(store := s.store.(processing := s.store.processing - IdSlots(queue, ids)),
         acked := s.acked + (IdSlots(queue, ids) * s.store.processing.Keys))
    case Requeue(limit, cap, disableDLQ, clock, after) =>
      s.(store := after,
         dropped := s.dropped + if disableDLQ then Spent(s.store.processing, limit, cap) else {},
         delivered := s.delivered - Expired(s.store.processing, limit))
  }

  ghost predicate Possible<B>(s: State<B>, steps: seq<Step<B>>)
    decreases |steps|, 0
  {
    steps == [] ||
    (var n := |steps| - 1; Possible(s, steps[..n]) && Enabled(Run(s, steps[..n]), steps[n]))
  }

  ghost function Run<B>(s: State<B>, steps: seq<Step<B>>): State<B>
    requires Possible(s, steps)
    decreases |steps|, 1
  {
    if steps == [] then s
    else var n := |steps| - 1; Next(Run(s, steps[..n]), steps[n])
  }

  // ---------------------------------------------------------------- no message is lost

  ghost predicate Placed<B>(s: State<B>, slot: Slot) {
    || slot in s.store.queued
    || Settled(s, slot)
  }

  ghost predicate Settled<B>(s: State<B>, slot: Slot) {
    slot in s.store.processing || slot in s.store.dlq || slot in s.acked || slot in s.dropped
  }

  ghost predicate SentOnly<B>(s: State<B>) {
    && (forall slot :: Placed(s, slot) || slot in s.delivered ==> slot in SentSlots(s.sent))
    && (forall p, slot :: p in s.pollers && slot in HeldBy(s.pollers[p]) ==> slot in SentSlots(s.sent))
  }

  /** Every message sent has a place, and one that a poller is about to delete has another. */
  ghost predicate NoneLost<B>(s: State<B>) {
    && (forall slot :: slot in SentSlots(s.sent) ==> Placed(s, slot))
    && (forall slot :: InHand(s, slot) ==> Settled(s, slot))
  }

  ghost predicate Final<B>(s: State<B>, slot: Slot) {
    slot in s.store.dlq || slot in s.acked || slot in s.dropped
  }

  /** A requeue returns no message that a poller has written and not yet deleted, unless it has a final place. */
  ghost predicate Safe<B>(s: State<B>, step: Step<B>) {
    step.Requeue? ==>
      forall slot :: slot in Returned(s.store.processing, step.limit, step.cap) && InHand(s, slot) ==> Final(s, slot)
  }

  lemma EnqueueKeys<B>(queued: map<Slot, Message<B>>, queue: JsString, ms: seq<Message<B>>)
    ensures Enqueue(queued, queue, ms).Keys == queued.Keys + Slots(queue, ms)
  {
    hide *;
    forall slot
      ensures slot in Enqueue(queued, queue, ms) <==> slot in queued || slot in Slots(queue, ms)
    {
      EnqueueHas(queued, queue, ms, slot);
    }
  }

  lemma WriteKeys<B>(processing: map<Slot, Timed<B>>, queue: JsString, ms: seq<Message<B>>, now: nat -> int)
    ensures WriteProcessing(processing, queue, ms, now).Keys == processing.Keys + Slots(queue, ms)
  {
    hide *;
    forall slot
      ensures slot in WriteProcessing(processing, queue, ms, now) <==> slot in processing || slot in Slots(queue, ms)
    {
      WriteHas(processing, queue, ms, now, slot);
    }
  }

  /** What a requeue takes is returned or spent, and not both. */
  lemma RequeueKeys<B>(
    store: Store<B>, limit: int, cap: int, disableDLQ: bool, clock: Slot -> int, after: Store<B>)
    requires IsRequeued(store, limit, cap, disableDLQ, clock, after)
    ensures var taken, returned := Expired(store.processing, limit), Returned(store.processing, limit, cap);
            var spent := Spent(store.processing, limit, cap);
            && taken == returned + spent && returned !! spent && taken <= store.processing.Keys
            && after.processing.Keys == store.processing.Keys - taken
            && after.queued.Keys == store.queued.Keys + returned
            && after.dlq.Keys == store.dlq.Keys + if disableDLQ then {} else spent
  {
  }

  lemma PolledAreQueued<B>(queued: map<Slot, Message<B>>, queue: JsString, maxItems: int, ms: seq<Message<B>>)
    requires IsPolled(queued, queue, maxItems, ms)
    ensures Slots(queue, ms) <= queued.Keys
  {
  }

  /** Each step's effect on who holds what. */
  lemma NextInHand<B>(s: State<B>, step: Step<B>, slot: Slot)
    requires Enabled(s, step)
    ensures var t := Next(s, step);
            match step
            case PollWrite(p, _) => InHand(t, slot) <==> InHand(s, slot) || slot in HeldBy(s.pollers[p])
            case PollDelete(p) =>
              (InHand(t, slot) ==> InHand(s, slot)) && (slot in HeldBy(s.pollers[p]) ==> InHand(s, slot))
            case _ => InHand(t, slot) <==> InHand(s, slot)
  {
    hide Slots, IsPolled, Enqueue, Minted, News, WriteProcessing, IsRequeued, Spent, Expired;
    var t := Next(s, step);
    if step.PollWrite? && slot in HeldBy(s.pollers[step.poller]) {
      assert t.pollers[step.poller].Writing? && slot in HeldBy(t.pollers[step.poller]);
      assert InHand(t, slot);
    }
    if step.PollDelete? && slot in HeldBy(s.pollers[step.poller]) {
      assert InHand(s, slot);
    }
    if InHand(t, slot) {
      var q :| q in t.pollers && t.pollers[q].Writing? && slot in HeldBy(t.pollers[q]);
      if q in s.pollers && s.pollers[q].Writing? && slot in HeldBy(s.pollers[q]) {
        assert InHand(s, slot);
      }
    }
    if InHand(s, slot) {
      var q :| q in s.pollers && s.pollers[q].Writing? && slot in HeldBy(s.pollers[q]);
      if q in t.pollers && t.pollers[q].Writing? && slot in HeldBy(t.pollers[q]) {
        assert InHand(t, slot);
      }
    }
  }

  lemma NextSentOnly<B>(s: State<B>, step: Step<B>)
    requires Enabled(s, step) && SentOnly(s)
    ensures SentOnly(Next(s, step))
    ensures SentSlots(s.sent) <= SentSlots(Next(s, step).sent)
  {
    hide Slots, SentSlots, IsPolled, IsRequeued, Enqueue, Minted, News, WriteProcessing;
    hide Returned, Spent, Expired, IdSlots;
    match step
    case Send(queue, bodies, clock) =>
      SendSlots(s.sent, queue, bodies, clock);
      EnqueueKeys(s.store.queued, queue, Minted(queue, bodies, clock, |s.sent|));
      return;
    case PollRead(p, queue, maxItems, messages) =>
      PolledAreQueued(s.store.queued, queue, maxItems, messages);
      return;
    case PollWrite(p, now) =>
      WriteKeys(s.store.processing, s.pollers[p].queue, s.pollers[p].messages, now);
      return;
    case PollDelete(p) =>
      return;
    case Ack(queue, ids) =>
      return;
    case Requeue(limit, cap, disableDLQ, clock, after) =>
      RequeueKeys(s.store, limit, cap, disableDLQ, clock, after);
      return;
  }

  lemma NextNoneLost<B>(s: State<B>, step: Step<B>)
    requires Enabled(s, step) && NoneLost(s) && Safe(s, step)
    ensures NoneLost(Next(s, step))
  {
    var t := Next(s, step);
    forall slot
      ensures slot in SentSlots(t.sent) ==> Placed(t, slot)
      ensures InHand(t, slot) ==> Settled(t, slot)
    {
      NextInHand(s, step, slot);
      NextPlaced(s, step, slot);
    }
  }

  lemma NextPlaced<B>(s: State<B>, step: Step<B>, slot: Slot)
    requires Enabled(s, step) && NoneLost(s) && Safe(s, step)
    ensures InHand(s, slot) && Settled(s, slot) ==> Settled(Next(s, step), slot)
    ensures slot in SentSlots(Next(s, step).sent) ==> Placed(Next(s, step), slot)
    ensures step.PollWrite? && slot in HeldBy(s.pollers[step.poller]) ==> Settled(Next(s, step), slot)
  {
    NextInHand(s, step, slot);
    hide Slots, SentSlots, IsPolled, IsRequeued, Enqueue, Minted, News, WriteProcessing;
    hide Returned, Spent, Expired, IdSlots, InHand;
    match step
    case Send(queue, bodies, clock) =>
      SendSlots(s.sent, queue, bodies, clock);
      EnqueueKeys(s.store.queued, queue, Minted(queue, bodies, clock, |s.sent|));
      return;
    case PollRead(p, queue, maxItems, messages) =>
      return;
    case PollWrite(p, now) =>
      WriteKeys(s.store.processing, s.pollers[p].queue, s.pollers[p].messages, now);
      return;
    case PollDelete(p) =>
      return;
    case Ack(queue, ids) =>
      return;
    case Requeue(limit, cap, disableDLQ, clock, after) =>
      RequeueKeys(s.store, limit, cap, disableDLQ, clock, after);
      return;
  }

  ghost predicate AllSafe<B>(s: State<B>, steps: seq<Step<B>>)
    requires Possible(s, steps)
  {
    steps == [] ||
    (var n := |steps| - 1; AllSafe(s, steps[..n]) && Safe(Run(s, steps[..n]), steps[n]))
  }

  /** However pollers, senders, acknowledgements and requeues interleave, no message is lost, as long as no
      requeue returns a message between a poll's two writes that has no final place. */
  lemma {:induction false} NoMessageIsLost<B>(steps: seq<Step<B>>)
    requires Possible(Empty<B>(), steps) && AllSafe(Empty<B>(), steps)
    ensures NoneLost(Run(Empty<B>(), steps))
  {
    if steps == [] {
      return;
    }
    var n := |steps| - 1;
    NoMessageIsLost(steps[..n]);
    hide NoneLost, Safe, Enabled, Next;
    NextNoneLost(Run(Empty<B>(), steps[..n]), steps[n]);
  }

  /** And only then: a requeue that is not safe leaves a message with no place but the queue that a poller is about to
      delete it from. */
  lemma RequeueSafeExactlyWhen<B>(s: State<B>, step: Step<B>)
    requires step.Requeue? && Enabled(s, step) && NoneLost(s)
    ensures NoneLost(Next(s, step)) <==> Safe(s, step)
  {
    if Safe(s, step) {
      hide NoneLost, Safe, Enabled, Next;
      NextNoneLost(s, step);
      return;
    }
    RequeueKeys(s.store, step.limit, step.cap, step.disableDLQ, step.deadline, step.after);
    hide Slots, SentSlots, Returned, Spent, Expired, IsRequeued, InHand, Final;
    var slot :| slot in Returned(s.store.processing, step.limit, step.cap) && InHand(s, slot) && !Final(s, slot);
    NextInHand(s, step, slot);
    RequeueUnsettles(s, step, slot);
  }

  lemma RequeueUnsettles<B>(s: State<B>, step: Step<B>, slot: Slot)
    requires step.Requeue? && Enabled(s, step)
    requires slot in Returned(s.store.processing, step.limit, step.cap) && !Final(s, slot)
    ensures !Settled(Next(s, step), slot)
  {
    RequeueKeys(s.store, step.limit, step.cap, step.disableDLQ, step.deadline, step.after);
    hide Slots, Returned, Spent, Expired, IsRequeued;
  }

  /** When the poll's second write comes next, such a message is nowhere. */
  lemma RequeueInHandLoses<B>(s: State<B>, p: nat, slot: Slot, step: Step<B>)
    requires p in s.pollers && s.pollers[p].Writing? && slot in HeldBy(s.pollers[p])
    requires step.Requeue? && Enabled(s, step)
    requires slot in Returned(s.store.processing, step.limit, step.cap) && !Final(s, slot)
    ensures !Placed(Next(Next(s, step), PollDelete(p)), slot)
  {
    RequeueUnsettles(s, step, slot);
    hide Slots, Returned, Spent, Expired, IsRequeued;
  }

  lemma RunAdds<B>(s: State<B>, steps: seq<Step<B>>, step: Step<B>)
    requires Possible(s, steps) && Enabled(Run(s, steps), step)
    ensures Possible(s, steps + [step]) && Run(s, steps + [step]) == Next(Run(s, steps), step)
  {
    assert (steps + [step])[..|steps|] == steps;
    hide Enabled, Next;
  }

  // ---------------------------------------------------------------- ids

  /** Rows bear the ids of their slots. */
  ghost predicate IdsKept<B>(s: State<B>) {
    && (forall slot :: slot in s.store.queued ==> s.store.queued[slot].id == slot.1)
    && (forall slot :: slot in s.store.processing ==> s.store.processing[slot].message.id == slot.1)
  }

  lemma NextIdsKept<B>(s: State<B>, step: Step<B>)
    requires Enabled(s, step) && IdsKept(s)
    ensures IdsKept(Next(s, step))
  {
    var t := Next(s, step);
    match step
    case Send(queue, bodies, clock) =>
      var ms := Minted(queue, bodies, clock, |s.sent|);
      hide Minted, News, Enqueue, Slots;
      forall slot | slot in t.store.queued
        ensures t.store.queued[slot].id == slot.1
      {
        EnqueueHas(s.store.queued, queue, ms, slot);
      }
      return;
    case PollWrite(p, now) =>
      var poller := s.pollers[p];
      hide WriteProcessing, Slots;
      forall slot | slot in t.store.processing
        ensures t.store.processing[slot].message.id == slot.1
      {
        WriteHas(s.store.processing, poller.queue, poller.messages, now, slot);
      }
      return;
    case _ =>
      return;
  }

  lemma {:induction false} RunIdsKept<B>(steps: seq<Step<B>>)
    requires Possible(Empty<B>(), steps)
    ensures IdsKept(Run(Empty<B>(), steps))
  {
    if steps == [] {
      return;
    }
    var n := |steps| - 1;
    RunIdsKept(steps[..n]);
    hide IdsKept, Enabled, Next;
    NextIdsKept(Run(Empty<B>(), steps[..n]), steps[n]);
  }
}
