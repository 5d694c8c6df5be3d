/** The emptiness test, which reads the queued messages first and the processing ones later. */
module QueueEmptiness {
  import opened Utf16
  import opened MessageQueue
  import opened MessageRuns

  /** A count of zero: no message of the queue in that part of the store. */
  ghost predicate ReadsEmpty<T>(part: map<Slot, T>, queue: JsString) {
    forall slot :: slot in part ==> !Concerns(queue, slot)
  }

  lemma ReadsEmptyIsCountZero<T>(part: map<Slot, T>, queue: JsString)
    ensures ReadsEmpty(part, queue) <==> |Counted(part, queue)| == 0
  {
    assert forall slot :: slot in Counted(part, queue) <==> slot in part && Concerns(queue, slot);
  }

  /** Requeues leave the message alone while a poller holds it, and it is acknowledged only once delivered. */
  ghost predicate CarefulAt<B>(s: State<B>, step: Step<B>, slot: Slot) {
    match step
    case Requeue(limit, _, _, _, _) => slot in Expired(s.store.processing, limit) ==> !InHand(s, slot)
    case Ack(queue, ids) => slot in IdSlots(queue, ids) && slot in s.store.processing ==> slot in s.delivered
    case _ => true
  }

  /** Requeues leave what a poller holds alone, and only delivered messages are acknowledged. */
  ghost predicate Careful<B>(s: State<B>, step: Step<B>) {
    forall slot :: CarefulAt(s, step, slot)
  }

  ghost predicate AllCareful<B>(s: State<B>, steps: seq<Step<B>>)
    requires Possible(s, steps)
  {
    steps == [] ||
    (var n := |steps| - 1; AllCareful(s, steps[..n]) && Careful(Run(s, steps[..n]), steps[n]))
  }

  /** A queued message is not out with a worker, and a poller about to delete it has written it to processing. */
  ghost predicate TidyAt<B>(s: State<B>, slot: Slot) {
    slot in s.store.queued ==> slot !in s.delivered && IsGuarded(s, slot)
  }

  ghost predicate IsGuarded<B>(s: State<B>, slot: Slot) {
    InHand(s, slot) ==> slot in s.store.processing
  }

  lemma HandsOnlySent<B>(s: State<B>, slot: Slot)
    requires SentOnly(s)
    ensures InHand(s, slot) ==> slot in SentSlots(s.sent)
  {
    hide Slots, SentSlots, Placed;
  }

  lemma NextTidy<B>(s: State<B>, step: Step<B>, slot: Slot)
    requires Enabled(s, step) && TidyAt(s, slot) && CarefulAt(s, step, slot)
    requires InHand(s, slot) || slot in s.delivered ==> slot in SentSlots(s.sent)
    ensures TidyAt(Next(s, step), slot)
  {
    NextInHand(s, step, slot);
    hide Slots, SentSlots, IsPolled, IsRequeued, Enqueue, Minted, News, WriteProcessing;
    hide Returned, Spent, Expired, IdSlots, InHand;
    match step
    case Send(queue, bodies, clock) =>
      SendSlots(s.sent, queue, bodies, clock);
      EnqueueKeys(s.store.queued, queue, Minted(queue, bodies, clock, |s.sent|));
      return;
    case PollRead(p, queue, maxItems, messages) =>
      return;
    case PollWrite(p, now) =>
      WriteKeys(s.store.processing, s.pollers[p].queue, s.pollers[p].messages, now);
      return;
    case PollDelete(p) =>
      return;
    case Ack(queue, ids) =>
      return;
    case Requeue(limit, cap, disableDLQ, clock, after) =>
      RequeueKeys(s.store, limit, cap, disableDLQ, clock, after);
      return;
  }

  lemma {:induction false} CarefulRunsAreTidy<B>(steps: seq<Step<B>>, slot: Slot)
    requires Possible(Empty<B>(), steps) && AllCareful(Empty<B>(), steps)
    ensures TidyAt(Run(Empty<B>(), steps), slot) && SentOnly(Run(Empty<B>(), steps))
  {
    if steps == [] {
      return;
    }
    var n := |steps| - 1;
    var s := Run(Empty<B>(), steps[..n]);
    assert Careful(s, steps[n]);
    CarefulRunsAreTidy(steps[..n], slot);
    hide CarefulAt, Enabled, Next, TidyAt, InHand, SentSlots;
    HandsOnlySent(s, slot);
    assert slot in s.delivered ==> slot in SentSlots(s.sent);
    hide SentOnly;
    NextSentOnly(s, steps[n]);
    NextTidy(s, steps[n], slot);
  }

  // ---------------------------------------------------------------- one message

  /** Acknowledged; or queued or processing, and processing when a poller is about to delete it from its queue. */
  ghost predicate Followed<B>(s: State<B>, slot: Slot) {
    && slot in SentSlots(s.sent)
    && (slot in s.acked || ((slot in s.store.queued || slot in s.store.processing) && IsGuarded(s, slot)))
  }

  /** Acknowledged; or processing and no longer queued. */
  ghost predicate HasLeft<B>(s: State<B>, slot: Slot) {
    slot in SentSlots(s.sent) && (slot in s.acked || (slot !in s.store.queued && slot in s.store.processing))
  }

  ghost predicate Expires<B>(s: State<B>, step: Step<B>, slot: Slot) {
    step.Requeue? && slot in Expired(s.store.processing, step.limit) && slot !in s.acked
  }

  /** A requeue that expires the message does not take it from a poller's hand, and does not spend its only place. */
  ghost predicate Spares<B>(s: State<B>, step: Step<B>, slot: Slot) {
    Expires(s, step, slot) ==>
      !InHand(s, slot) && (slot in Spent(s.store.processing, step.limit, step.cap) ==> slot in s.store.queued)
  }

  /** What each step, requeues included, keeps of a message: before it has left its queue, exactly what spares it; and
      after that, exactly what does not expire it. */
  lemma NextFollowed<B>(s: State<B>, step: Step<B>, slot: Slot)
    requires Enabled(s, step) && SentOnly(s)
    ensures Followed(s, slot) ==> (Followed(Next(s, step), slot) <==> Spares(s, step, slot))
    ensures HasLeft(s, slot) ==> (HasLeft(Next(s, step), slot) <==> !Expires(s, step, slot))
  {
    NextInHand(s, step, slot);
    hide Slots, SentSlots, IsPolled, IsRequeued, Enqueue, Minted, News, WriteProcessing;
    hide Returned, Spent, Expired, IdSlots, InHand, SentOnly;
    match step
    case Send(queue, bodies, clock) =>
      SendSlots(s.sent, queue, bodies, clock);
      EnqueueKeys(s.store.queued, queue, Minted(queue, bodies, clock, |s.sent|));
      return;
    case PollRead(p, queue, maxItems, messages) =>
      return;
    case PollWrite(p, now) =>
      WriteKeys(s.store.processing, s.pollers[p].queue, s.pollers[p].messages, now);
      return;
    case PollDelete(p) =>
      return;
    case Ack(queue, ids) =>
      return;
    case Requeue(limit, cap, disableDLQ, clock, after) =>
      RequeueKeys(s.store, limit, cap, disableDLQ, clock, after);
      return;
  }

  ghost predicate AllSpare<B>(s: State<B>, steps: seq<Step<B>>, slot: Slot)
    requires Possible(s, steps)
  {
    steps == [] ||
    (var n := |steps| - 1; AllSpare(s, steps[..n], slot) && Spares(Run(s, steps[..n]), steps[n], slot))
  }

  ghost predicate NoneExpires<B>(s: State<B>, steps: seq<Step<B>>, slot: Slot)
    requires Possible(s, steps)
  {
    steps == [] ||
    (var n := |steps| - 1; NoneExpires(s, steps[..n], slot) && !Expires(Run(s, steps[..n]), steps[n], slot))
  }

  lemma {:induction false} RunSentOnly<B>(s: State<B>, steps: seq<Step<B>>)
    requires Possible(s, steps) && SentOnly(s)
    ensures SentOnly(Run(s, steps))
  {
    if steps != [] {
      var n := |steps| - 1;
      RunSentOnly(s, steps[..n]);
      hide Enabled, Next, SentOnly;
      NextSentOnly(Run(s, steps[..n]), steps[n]);
    }
  }

  lemma {:induction false} RunFollowed<B>(s: State<B>, steps: seq<Step<B>>, slot: Slot)
    requires Possible(s, steps) && SentOnly(s)
    ensures Followed(s, slot) && AllSpare(s, steps, slot) ==> Followed(Run(s, steps), slot)
    ensures HasLeft(s, slot) && NoneExpires(s, steps, slot) ==> HasLeft(Run(s, steps), slot)
  {
    if steps == [] {
      return;
    }
    var n := |steps| - 1;
    RunFollowed(s, steps[..n], slot);
    RunSentOnly(s, steps[..n]);
    hide Followed, HasLeft, Enabled, Next, SentOnly, Spares, Expires;
    NextFollowed(Run(s, steps[..n]), steps[n], slot);
  }

  // ---------------------------------------------------------------- a true answer

  /** The state at the call, with the record of acknowledgements started anew. */
  ghost function AtCall<B>(s: State<B>): State<B> {
    s.(acked := {}, dropped := {})
  }

  /** The test answers yes: it reads no queued message and, after more steps, no processing one. */
  ghost predicate AnswersEmpty<B>(s: State<B>, before: seq<Step<B>>, between: seq<Step<B>>, queue: JsString)
    requires Possible(s, before) && Possible(Run(s, before), between)
  {
    && ReadsEmpty(Run(s, before).store.queued, queue)
    && ReadsEmpty(Run(Run(s, before), between).store.processing, queue)
  }

  /** A message that was queued or processing at the start, whose requeues before the first read spare it and after it
      do not expire it, has been acknowledged when the test answers yes. */
  lemma {:induction false} YesMeansAcknowledged<B>(
    s: State<B>, before: seq<Step<B>>, between: seq<Step<B>>, queue: JsString, slot: Slot)
    requires SentOnly(s) && Followed(s, slot) && Concerns(queue, slot)
    requires Possible(s, before) && AllSpare(s, before, slot)
    requires Possible(Run(s, before), between) && NoneExpires(Run(s, before), between, slot)
    requires AnswersEmpty(s, before, between, queue)
    ensures slot in Run(Run(s, before), between).acked
  {
    hide InHand, SentSlots, Slots, Run, Possible, AllSpare, NoneExpires, SentOnly;
    RunFollowed(s, before, slot);
    var first := Run(s, before);
    assert HasLeft(first, slot);
    RunSentOnly(s, before);
    RunFollowed(first, between, slot);
  }

  lemma FollowedAtCall<B>(s: State<B>, slot: Slot)
    requires SentOnly(s) && (slot in s.store.queued || slot in s.store.processing) && IsGuarded(s, slot)
    ensures SentOnly(AtCall(s)) && Followed(AtCall(s), slot)
  {
    assert Placed(s, slot);
    assert InHand(AtCall(s), slot) <==> InHand(s, slot);
    hide InHand, SentSlots, Slots;
  }

  /** When the test answers yes, such a message has been acknowledged since the call. */
  lemma {:induction false} EmptyMeansAcknowledged<B>(
    s: State<B>, before: seq<Step<B>>, between: seq<Step<B>>, queue: JsString, slot: Slot)
    requires SentOnly(s) && (slot in s.store.queued || slot in s.store.processing) && IsGuarded(s, slot)
    requires Concerns(queue, slot) && Possible(AtCall(s), before) && AllSpare(AtCall(s), before, slot)
    requires Possible(Run(AtCall(s), before), between) && NoneExpires(Run(AtCall(s), before), between, slot)
    requires AnswersEmpty(AtCall(s), before, between, queue)
    ensures slot in Run(Run(AtCall(s), before), between).acked
  {
    hide *;
    FollowedAtCall(s, slot);
    YesMeansAcknowledged(AtCall(s), before, between, queue, slot);
  }

  /** The same over every careful run up to the call, for every message queued or processing then. */
  lemma {:induction false} EmptyTestIsSound<B>(
    past: seq<Step<B>>, s: State<B>, before: seq<Step<B>>, first: State<B>, between: seq<Step<B>>, last: State<B>,
    queue: JsString, slot: Slot)
    requires Possible(Empty<B>(), past) && AllCareful(Empty<B>(), past) && s == Run(Empty<B>(), past)
    requires Possible(AtCall(s), before) && AllSpare(AtCall(s), before, slot) && first == Run(AtCall(s), before)
    requires Possible(first, between) && NoneExpires(first, between, slot) && last == Run(first, between)
    requires ReadsEmpty(first.store.queued, queue) && ReadsEmpty(last.store.processing, queue)
    requires Concerns(queue, slot) && (slot in s.store.queued || slot in s.store.processing)
    ensures slot in last.acked
  {
    assert AnswersEmpty(AtCall(s), before, between, queue);
    hide *;
    CarefulRunsAreTidy(past, slot);
    TidyIsGuarded(s, slot);
    EmptyMeansAcknowledged(s, before, between, queue, slot);
  }

  lemma TidyIsGuarded<B>(s: State<B>, slot: Slot)
    requires TidyAt(s, slot) && (slot in s.store.queued || slot in s.store.processing)
    ensures IsGuarded(s, slot)
  {
    hide InHand;
  }

  // ---------------------------------------------------------------- early acknowledgements

  /** Requeues are careful; acknowledgements may come at any time. */
  ghost predicate CarefulRequeue<B>(s: State<B>, step: Step<B>) {
    step.Requeue? ==> Careful(s, step)
  }

  ghost predicate AllCarefulRequeues<B>(s: State<B>, steps: seq<Step<B>>)
    requires Possible(s, steps)
  {
    steps == [] ||
    (var n := |steps| - 1; AllCarefulRequeues(s, steps[..n]) && CarefulRequeue(Run(s, steps[..n]), steps[n]))
  }

  /** A message that a poller is about to delete is processing, or has been acknowledged already. */
  ghost predicate HandGuarded<B>(s: State<B>, slot: Slot) {
    InHand(s, slot) ==> slot in s.store.processing || slot in s.acked
  }

  lemma NextHandGuarded<B>(s: State<B>, step: Step<B>, slot: Slot)
    requires Enabled(s, step) && HandGuarded(s, slot) && (step.Requeue? ==> CarefulAt(s, step, slot))
    ensures HandGuarded(Next(s, step), slot)
  {
    NextInHand(s, step, slot);
    hide Slots, SentSlots, IsPolled, IsRequeued, Enqueue, Minted, News, WriteProcessing;
    hide Returned, Spent, Expired, IdSlots, InHand;
    match step
    case Send(queue, bodies, clock) =>
      return;
    case PollRead(p, queue, maxItems, messages) =>
      return;
    case PollWrite(p, now) =>
      WriteKeys(s.store.processing, s.pollers[p].queue, s.pollers[p].messages, now);
      return;
    case PollDelete(p) =>
      return;
    case Ack(queue, ids) =>
      return;
    case Requeue(limit, cap, disableDLQ, clock, after) =>
      RequeueKeys(s.store, limit, cap, disableDLQ, clock, after);
      return;
  }

  lemma {:induction false} RunHandGuarded<B>(steps: seq<Step<B>>, slot: Slot)
    requires Possible(Empty<B>(), steps) && AllCarefulRequeues(Empty<B>(), steps)
    ensures HandGuarded(Run(Empty<B>(), steps), slot)
  {
    if steps == [] {
      return;
    }
    var n := |steps| - 1;
    RunHandGuarded(steps[..n], slot);
    assert steps[n].Requeue? ==> CarefulAt(Run(Empty<B>(), steps[..n]), steps[n], slot);
    hide CarefulAt, HandGuarded, Enabled, Next;
    NextHandGuarded(Run(Empty<B>(), steps[..n]), steps[n], slot);
  }

  /** With acknowledgements at any time, what is left of the answer: the message has been acknowledged, before the call
      or since. */
  lemma {:induction false} EmptyMeansAcknowledgedSometime<B>(
    s: State<B>, before: seq<Step<B>>, between: seq<Step<B>>, queue: JsString, slot: Slot)
    requires SentOnly(s) && HandGuarded(s, slot) && (slot in s.store.queued || slot in s.store.processing)
    requires Concerns(queue, slot) && Possible(s, before) && AllSpare(s, before, slot)
    requires Possible(Run(s, before), between) && NoneExpires(Run(s, before), between, slot)
    requires AnswersEmpty(s, before, between, queue)
    ensures slot in Run(Run(s, before), between).acked
  {
    hide *;
    GuardedIsFollowed(s, slot);
    YesMeansAcknowledged(s, before, between, queue, slot);
  }

  lemma GuardedIsFollowed<B>(s: State<B>, slot: Slot)
    requires SentOnly(s) && HandGuarded(s, slot) && (slot in s.store.queued || slot in s.store.processing)
    ensures Followed(s, slot)
  {
    assert Placed(s, slot);
    hide InHand, SentSlots, Slots;
  }

  // ---------------------------------------------------------------- a requeue after the first read

  /** Acknowledging what is processing leaves nothing for the second read, and changes nothing else. */
  lemma {:induction false} AcknowledgeAll<B>(s: State<B>, queue: JsString) returns (acks: seq<Step<B>>)
    ensures Possible(s, acks) && forall i :: 0 <= i < |acks| ==> acks[i].Ack?
    ensures ReadsEmpty(Run(s, acks).store.processing, queue)
    ensures Run(s, acks).store.queued == s.store.queued
    ensures Run(s, acks).acked <= s.acked + s.store.processing.Keys
  {
    acks := [];
    assert Possible(s, acks) && Run(s, acks) == s;
    hide Possible, Run, Concerns;
    while !ReadsEmpty(Run(s, acks).store.processing, queue)
      invariant Possible(s, acks) && forall i :: 0 <= i < |acks| ==> acks[i].Ack?
      invariant Run(s, acks).store.queued == s.store.queued
      invariant Run(s, acks).store.processing.Keys <= s.store.processing.Keys
      invariant Run(s, acks).acked <= s.acked + s.store.processing.Keys
      decreases Run(s, acks).store.processing.Keys
    {
      var t := Run(s, acks);
      var slot :| slot in t.store.processing && Concerns(queue, slot);
      var ack := Ack(slot.0, [slot.1]);
      RunAdds(s, acks, ack);
      OneIdSlot(slot);
      hide IdSlots;
      acks := acks + [ack];
    }
  }

  lemma OneIdSlot(slot: Slot)
    ensures IdSlots(slot.0, [slot.1]) == {slot}
  {
    assert [slot.1][0] == slot.1;
  }

  /** Of a message that has left its queue by the first read and is not acknowledged: a requeue can make the test
      answer yes without an acknowledgement exactly when it expires the message. */
  lemma {:induction false} RequeueAfterReadFoolsExactlyWhen<B>(s: State<B>, step: Step<B>, queue: JsString, slot: Slot)
    requires SentOnly(s) && HasLeft(s, slot) && slot !in s.acked && Concerns(queue, slot)
    requires step.Requeue? && Enabled(s, step)
    ensures Expires(s, step, slot) <==>
            exists acks :: FoolsAfter(Next(s, step), acks, queue, slot)
  {
    NextSentOnly(s, step);
    NextFollowed(s, step, slot);
    var t := Next(s, step);
    assert t.acked == s.acked;
    if Expires(s, step, slot) {
      RequeueTakes(s, step, slot);
      hide Next, Enabled, Expires, HasLeft, SentOnly;
      var acks := AcknowledgeAll(t, queue);
      assert FoolsAfter(t, acks, queue, slot);
    } else {
      hide Next, Enabled, Expires, SentOnly;
      forall acks
        ensures !FoolsAfter(t, acks, queue, slot)
      {
        if FoolsAfter(t, acks, queue, slot) {
          AcksExpireNothing(t, acks, slot);
          RunFollowed(t, acks, slot);
          hide Run, Possible;
        }
      }
    }
  }

  ghost predicate FoolsAfter<B>(s: State<B>, acks: seq<Step<B>>, queue: JsString, slot: Slot) {
    && Possible(s, acks) && (forall i :: 0 <= i < |acks| ==> acks[i].Ack?)
    && ReadsEmpty(Run(s, acks).store.processing, queue)
    && slot !in Run(s, acks).acked
  }

  lemma {:induction false} AcksExpireNothing<B>(s: State<B>, acks: seq<Step<B>>, slot: Slot)
    requires Possible(s, acks) && forall i :: 0 <= i < |acks| ==> acks[i].Ack?
    ensures NoneExpires(s, acks, slot)
  {
    if acks != [] {
      AcksExpireNothing(s, acks[..|acks| - 1], slot);
    }
  }

  lemma RequeueTakes<B>(s: State<B>, step: Step<B>, slot: Slot)
    requires Enabled(s, step) && Expires(s, step, slot)
    ensures slot !in Next(s, step).store.processing
  {
    RequeueKeys(s.store, step.limit, step.cap, step.disableDLQ, step.deadline, step.after);
    hide Returned, Spent, Expired, IsRequeued;
  }

  // ---------------------------------------------------------------- a requeue before the first read

  lemma {:induction false} FreshPoller(used: set<nat>) returns (p: nat)
    ensures forall q :: q in used ==> q < p
    decreases |used|
  {
    p := 0;
    if used != {} {
      var q :| q in used;
      p := FreshPoller(used - {q});
      if p <= q {
        p := q + 1;
      }
      assert forall r :: r in used ==> r == q || r in used - {q};
    }
  }

  /** One more poll, by a fresh poller, takes all messages of a queue. */
  lemma {:induction false} PollWhole<B>(s: State<B>, queue: JsString) returns (steps: seq<Step<B>>, ms: seq<Message<B>>)
    requires IdsKept(s) && exists slot :: slot in s.store.queued && slot.0 == queue
    ensures Possible(s, steps) && IdsKept(Run(s, steps))
    ensures forall i :: 0 <= i < |steps| ==> !steps[i].Requeue?
    ensures var t := Run(s, steps);
            && t.store.queued.Keys == s.store.queued.Keys - Slots(queue, ms)
            && t.store.processing.Keys == s.store.processing.Keys + Slots(queue, ms)
            && t.acked == s.acked
    ensures forall slot :: slot in s.store.queued && slot.0 == queue ==> slot in Slots(queue, ms)
    ensures Slots(queue, ms) <= s.store.queued.Keys
  {
    hide Slots, IsPolled, WriteProcessing, IsAsMuchAsAsked, Enqueue, Minted, News, IsRequeued, Expired, Spent, IdSlots;
    var p := FreshPoller(s.pollers.Keys);
    ms := PollOfAll(s.store.queued, queue);
    hide IdsKept;
    var n := |ms|;
    PolledAreQueued(s.store.queued, queue, n, ms);
    PolledNotEmpty(s.store.queued, queue, n, ms);
    var read, write, delete := PollRead(p, queue, n, ms), PollWrite(p, _ => 0), PollDelete(p);
    steps := [read, write, delete];
    var a := Next(s, read);
    var b := Next(a, write);
    WriteKeys(s.store.processing, queue, ms, _ => 0);
    NextIdsKept(s, read);
    NextIdsKept(a, write);
    NextIdsKept(b, delete);
    RunThree(s, read, write, delete);
  }

  lemma PolledNotEmpty<B>(queued: map<Slot, Message<B>>, queue: JsString, maxItems: int, ms: seq<Message<B>>)
    requires IsPolled(queued, queue, maxItems, ms) && exists slot :: slot in queued && slot.0 == queue
    ensures ms != []
  {
  }

  lemma {:induction false} RunThree<B>(s: State<B>, x: Step<B>, y: Step<B>, z: Step<B>)
    requires Enabled(s, x) && Enabled(Next(s, x), y) && Enabled(Next(Next(s, x), y), z)
    ensures Possible(s, [x, y, z]) && Run(s, [x, y, z]) == Next(Next(Next(s, x), y), z)
  {
    assert Possible(s, []) && Run(s, []) == s;
    assert [] + [x] == [x] && [x] + [y] == [x, y] && [x, y] + [z] == [x, y, z];
    hide *;
    RunAdds(s, [], x);
    RunAdds(s, [x], y);
    RunAdds(s, [x, y], z);
  }

  lemma RunNothing<B>(s: State<B>)
    ensures Possible(s, []) && Run(s, []) == s
  {
  }

  lemma RunLast<B>(s: State<B>, steps: seq<Step<B>>)
    requires Possible(s, steps) && steps != []
    ensures var n := |steps| - 1;
            && Possible(s, steps[..n]) && Enabled(Run(s, steps[..n]), steps[n])
            && Run(s, steps) == Next(Run(s, steps[..n]), steps[n])
  {
    hide Enabled, Next;
  }

  lemma {:induction false} RunConcat<B>(s: State<B>, first: seq<Step<B>>, second: seq<Step<B>>)
    requires Possible(s, first) && Possible(Run(s, first), second)
    ensures Possible(s, first + second) && Run(s, first + second) == Run(Run(s, first), second)
  {
    hide *;
    if second == [] {
      assert first + second == first;
      RunNothing(Run(s, first));
    } else {
      var n := |second| - 1;
      RunLast(Run(s, first), second);
      RunConcat(s, first, second[..n]);
      assert first + second == first + second[..n] + [second[n]];
      RunAdds(s, first + second[..n], second[n]);
    }
  }

  /** Polls leave nothing for the first read, and acknowledge nothing. */
  lemma {:induction false} PollEverything<B>(s: State<B>, queue: JsString) returns (steps: seq<Step<B>>)
    requires IdsKept(s)
    ensures Possible(s, steps) && forall i :: 0 <= i < |steps| ==> !steps[i].Requeue?
    ensures ReadsEmpty(Run(s, steps).store.queued, queue)
    ensures Run(s, steps).acked == s.acked
    ensures Run(s, steps).store.processing.Keys <= s.store.processing.Keys + s.store.queued.Keys
    decreases |s.store.queued.Keys|
  {
    hide *;
    steps := [];
    RunNothing(s);
    if !ReadsEmpty(s.store.queued, queue) {
      var slot := SomethingQueued(s.store.queued, queue);
      var poll, ms := PollWhole(s, slot.0);
      var t := Run(s, poll);
      assert slot in Slots(slot.0, ms);
      assert t.store.queued.Keys < s.store.queued.Keys;
      SmallerSet(t.store.queued.Keys, s.store.queued.Keys);
      var rest := PollEverything(t, queue);
      RunConcat(s, poll, rest);
      steps := poll + rest;
    }
  }

  lemma SomethingQueued<B>(queued: map<Slot, Message<B>>, queue: JsString) returns (slot: Slot)
    requires !ReadsEmpty(queued, queue)
    ensures slot in queued
  {
    slot :| slot in queued && Concerns(queue, slot);
  }

  lemma SmallerSet<T>(a: set<T>, b: set<T>)
    requires a < b
    ensures |a| < |b|
  {
    var rest := b - a;
    assert b == a + rest && a !! rest && rest != {};
  }

  /** From here the test can answer yes without an acknowledgement of the message, and without a requeue. */
  ghost predicate CanFool<B(!new)>(s: State<B>, queue: JsString, slot: Slot) {
    exists before, between :: Fools(s, before, between, queue, slot)
  }

  ghost predicate Fools<B>(
    s: State<B>, before: seq<Step<B>>, between: seq<Step<B>>, queue: JsString, slot: Slot)
  {
    && Possible(s, before) && (forall i :: 0 <= i < |before| ==> !before[i].Requeue?)
    && Possible(Run(s, before), between) && (forall i :: 0 <= i < |between| ==> !between[i].Requeue?)
    && AnswersEmpty(s, before, between, queue)
    && slot !in Run(Run(s, before), between).acked
  }

  lemma NowhereFools<B(!new)>(s: State<B>, queue: JsString, slot: Slot)
    requires IdsKept(s) && slot !in s.store.queued && slot !in s.store.processing && slot !in s.acked
    ensures CanFool(s, queue, slot)
  {
    hide IdsKept, Possible, Run, ReadsEmpty;
    var before := PollEverything(s, queue);
    var between := AcknowledgeAll(Run(s, before), queue);
    assert Fools(s, before, between, queue, slot);
  }

  /** A message in a poller's hand and not processing is nowhere after the poll's second write. */
  lemma HandFools<B(!new)>(s: State<B>, queue: JsString, slot: Slot)
    requires IdsKept(s) && InHand(s, slot) && slot !in s.store.processing && slot !in s.acked
    ensures CanFool(s, queue, slot)
  {
    var p :| p in s.pollers && s.pollers[p].Writing? && slot in HeldBy(s.pollers[p]);
    var delete := PollDelete(p);
    NextIdsKept(s, delete);
    var t := Next(s, delete);
    hide IdsKept, Possible, Run, Slots, Next, CanFool;
    NowhereFools(t, queue, slot);
    FoolsOneLater(s, delete, queue, slot);
  }

  lemma FoolsOneLater<B(!new)>(s: State<B>, step: Step<B>, queue: JsString, slot: Slot)
    requires Enabled(s, step) && !step.Requeue? && CanFool(Next(s, step), queue, slot)
    ensures CanFool(s, queue, slot)
  {
    hide Possible, Run, ReadsEmpty, Next, Enabled;
    RunNothing(s);
    assert [] + [step] == [step];
    RunAdds(s, [], step);
    var before, between :| Fools(Next(s, step), before, between, queue, slot);
    RunConcat(s, [step], before);
    assert Fools(s, [step] + before, between, queue, slot);
  }

  lemma {:induction false} WithoutRequeueNothingExpires<B>(s: State<B>, steps: seq<Step<B>>, slot: Slot)
    requires Possible(s, steps) && forall i :: 0 <= i < |steps| ==> !steps[i].Requeue?
    ensures NoneExpires(s, steps, slot) && AllSpare(s, steps, slot)
  {
    if steps != [] {
      WithoutRequeueNothingExpires(s, steps[..|steps| - 1], slot);
    }
  }

  /** A followed message fools no test without further requeues. */
  lemma FollowedIsSeen<B(!new)>(s: State<B>, queue: JsString, slot: Slot)
    requires SentOnly(s) && Followed(s, slot) && Concerns(queue, slot)
    ensures !CanFool(s, queue, slot)
  {
    hide SentOnly, Followed, Possible, Run;
    forall before, between
      ensures !Fools(s, before, between, queue, slot)
    {
      if Fools(s, before, between, queue, slot) {
        WithoutRequeueNothingExpires(s, before, slot);
        WithoutRequeueNothingExpires(Run(s, before), between, slot);
        YesMeansAcknowledged(s, before, between, queue, slot);
      }
    }
  }

  /** Without requeues since the call: the test can answer yes without an acknowledgement since the call exactly when,
      at the call, a poller was about to delete the message and it was not processing. */
  lemma CallSeesExactlyWhen<B(!new)>(s: State<B>, queue: JsString, slot: Slot)
    requires SentOnly(s) && IdsKept(s) && Concerns(queue, slot)
    requires slot in s.store.queued || slot in s.store.processing
    ensures CanFool(AtCall(s), queue, slot) <==> !IsGuarded(s, slot)
  {
    assert IdsKept(AtCall(s));
    assert InHand(AtCall(s), slot) <==> InHand(s, slot);
    hide IdsKept, InHand, SentOnly, CanFool, Followed;
    if IsGuarded(s, slot) {
      FollowedAtCall(s, slot);
      FollowedIsSeen(AtCall(s), queue, slot);
    } else {
      HandFools(AtCall(s), queue, slot);
    }
  }

  /** Before the first read: a requeue lets the test answer yes without an acknowledgement exactly when it does not
      spare the message. */
  lemma RequeueBeforeReadFoolsExactlyWhen<B(!new)>(s: State<B>, step: Step<B>, queue: JsString, slot: Slot)
    requires SentOnly(s) && IdsKept(s) && Followed(s, slot) && slot !in s.acked && Concerns(queue, slot)
    requires step.Requeue? && Enabled(s, step)
    ensures CanFool(Next(s, step), queue, slot) <==> !Spares(s, step, slot)
  {
    NextSentOnly(s, step);
    NextIdsKept(s, step);
    NextFollowed(s, step, slot);
    if Spares(s, step, slot) {
      hide *;
      FollowedIsSeen(Next(s, step), queue, slot);
    } else {
      UnsparedIsNowhere(s, step, slot);
      hide Next, Enabled, IdsKept, SentOnly, Followed, Spares, InHand;
      if InHand(Next(s, step), slot) {
        HandFools(Next(s, step), queue, slot);
      } else {
        NowhereFools(Next(s, step), queue, slot);
      }
    }
  }

  lemma UnsparedIsNowhere<B>(s: State<B>, step: Step<B>, slot: Slot)
    requires Enabled(s, step) && step.Requeue? && Followed(s, slot) && !Spares(s, step, slot)
    ensures var t := Next(s, step);
            slot !in t.store.processing && slot !in t.acked && (InHand(t, slot) || slot !in t.store.queued)
  {
    NextInHand(s, step, slot);
    RequeueKeys(s.store, step.limit, step.cap, step.disableDLQ, step.deadline, step.after);
    hide Slots, SentSlots, Returned, Spent, Expired, IsRequeued, InHand;
  }

  /** In particular a requeue that expires the whole queue needs no acknowledgement to make the test answer yes, while
      every one of these messages is queued. */
  lemma RequeueFoolsTheTest<B>(
    s: State<B>, queue: JsString, limit: int, disableDLQ: bool, clock: Slot -> int, after: Store<B>)
    requires ReadsEmpty(s.store.queued, queue) && IsRequeued(s.store, limit, 0, disableDLQ, clock, after)
    requires forall slot :: slot in s.store.processing && Concerns(queue, slot) ==> s.store.processing[slot].ts < limit
    ensures var t := Next(s, Requeue(limit, 0, disableDLQ, clock, after));
            && ReadsEmpty(t.store.processing, queue)
            && forall slot :: slot in s.store.processing && Concerns(queue, slot) ==> slot in t.store.queued
  {
  }
}
