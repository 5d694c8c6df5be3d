/** Runs that go wrong: a message lost, and emptiness tests that answer yes too early. */
module MessageRaces {
  import opened Utf16
  import opened MessageIds
  import opened MessageQueue
  import opened MessageRuns
  import opened QueueEmptiness

  function FirstSent<B>(queue: JsString, body: B, ts: nat): Message<B> {
    Message(Id(ts, 1), queue, body, 0)
  }

  /** One message is sent and a poll writes it to processing. */
  function Written<B>(queue: JsString, body: B, ts: nat): (steps: seq<Step<B>>)
    ensures |steps| == 3
  {
    [Send(queue, [body], _ => ts), PollRead(0, queue, 1, [FirstSent(queue, body, ts)]), PollWrite(0, _ => ts)]
  }

  /** Some time later, with the message still queued or not. */
  function TimedOut<B>(queue: JsString, body: B, ts: nat): Step<B> {
    var m := FirstSent(queue, body, ts);
    Requeue(ts + 1, 0, false, _ => ts, Store(map[(queue, m.id) := Retried(m)], map[], map[]))
  }

  lemma TimedOutEnabled<B>(s: State<B>, queue: JsString, body: B, ts: nat)
    requires var m := FirstSent(queue, body, ts);
             && s.store.processing == map[(queue, m.id) := Timed(m, ts)] && s.store.dlq == map[]
             && (s.store.queued == map[(queue, m.id) := m] || s.store.queued == map[])
    ensures Enabled(s, TimedOut(queue, body, ts))
    ensures (queue, Id(ts, 1)) in Returned(s.store.processing, ts + 1, 0)
  {
    var m := FirstSent(queue, body, ts);
    var slot := (queue, m.id);
    assert Expired(s.store.processing, ts + 1) == {slot};
    assert Returned(s.store.processing, ts + 1, 0) == {slot};
    assert Spent(s.store.processing, ts + 1, 0) == {};
    hide Id;
    assert s.store.processing - {slot} == map[];
  }

  lemma AfterSend<B>(queue: JsString, body: B, ts: nat)
    ensures var s, m := Next(Empty<B>(), Send(queue, [body], _ => ts)), FirstSent(queue, body, ts);
            && s.pollers == map[] && s.sent == [Sent(queue, ts, body)] && s.acked == s.dropped == {}
            && s.store == Store(map[(queue, m.id) := m], map[], map[])
            && IsPolled(s.store.queued, queue, 1, [m])
  {
    hide Id;
    var m := FirstSent(queue, body, ts);
    var slot := (queue, m.id);
    var none: map<Slot, Message<B>> := map[];
    assert Minted(queue, [body], _ => ts, 0) == [m];
    assert [m][..0] == [];
    assert Enqueue(none, queue, [m]) == map[slot := m];
    assert [m][0] == m;
    assert slot in Slots(queue, [m]);
  }

  lemma AfterWrite<B>(s: State<B>, m: Message<B>, ts: nat)
    requires s.pollers == map[] && s.store.processing == map[] && IsPolled(s.store.queued, m.queue, 1, [m])
    ensures var read := PollRead(0, m.queue, 1, [m]);
            && Enabled(s, read) && Enabled(Next(s, read), PollWrite(0, _ => ts))
            && var t := Next(Next(s, read), PollWrite(0, _ => ts));
               && t == s.(store := t.store, pollers := map[0 := Writing(m.queue, [m])])
               && t.store == s.store.(processing := map[(m.queue, m.id) := Timed(m, ts)])
    ensures (m.queue, m.id) in Slots(m.queue, [m])
  {
    hide IsPolled;
    var none: map<Slot, Timed<B>> := map[];
    assert [m][..0] == [];
    assert WriteProcessing(none, m.queue, [m], _ => ts) == map[(m.queue, m.id) := Timed(m, ts)];
    assert [m][0] == m;
  }

  lemma RunWritten<B>(queue: JsString, body: B, ts: nat)
    ensures Possible(Empty<B>(), Written(queue, body, ts))
    ensures var s, m := Run(Empty<B>(), Written(queue, body, ts)), FirstSent(queue, body, ts);
            && s.pollers == map[0 := Writing(queue, [m])] && s.acked == s.dropped == {}
            && s.store == Store(map[(queue, m.id) := m], map[(queue, m.id) := Timed(m, ts)], map[])
            && (queue, m.id) in Slots(queue, [m]) && (queue, m.id) in SentSlots(s.sent)
  {
    var m, s0 := FirstSent(queue, body, ts), Empty<B>();
    var send, read, write := Send(queue, [body], _ => ts), PollRead(0, queue, 1, [m]), PollWrite(0, _ => ts);
    AfterSend(queue, body, ts);
    var s := Next(s0, send);
    assert SlotAt([Sent(queue, ts, body)], 0) == (queue, m.id);
    assert Possible(s0, []) && Run(s0, []) == s0;
    assert m.queue == queue;
    hide *;
    AfterWrite(s, m, ts);
    assert Enabled(s0, send) by {
      SendEnabled(s0, queue, body, ts);
    }
    RunAdds(s0, [], send);
    RunAdds(s0, [] + [send], read);
    RunAdds(s0, [] + [send] + [read], write);
    WrittenSteps(queue, body, ts);
    var t := Run(s0, Written(queue, body, ts));
    assert t == Next(Next(s, read), write);
    FirstSlot(t.sent, queue, body, ts);
  }

  lemma SendEnabled<B>(s: State<B>, queue: JsString, body: B, ts: nat)
    ensures Enabled(s, Send(queue, [body], _ => ts))
  {
  }

  lemma WrittenSteps<B>(queue: JsString, body: B, ts: nat)
    ensures Written(queue, body, ts) ==
            [] + [Send(queue, [body], _ => ts)] + [PollRead(0, queue, 1, [FirstSent(queue, body, ts)])]
            + [PollWrite(0, _ => ts)]
  {
  }

  lemma FirstSlot<B>(sent: seq<Sent<B>>, queue: JsString, body: B, ts: nat)
    requires sent == [Sent(queue, ts, body)]
    ensures (queue, FirstSent(queue, body, ts).id) in SentSlots(sent)
  {
    assert SlotAt(sent, 0) == (queue, Id(ts, 1));
  }

  /** A message that times out between a poll's two writes ends up nowhere. */
  lemma MessageLostInRace<B>(queue: JsString, body: B, ts: nat)
    ensures var steps := Written(queue, body, ts) + [TimedOut(queue, body, ts)] + [PollDelete(0)];
            var slot := (queue, Id(ts, 1));
            && Possible(Empty<B>(), steps)
            && slot in SentSlots(Run(Empty<B>(), steps).sent) && !Placed(Run(Empty<B>(), steps), slot)
  {
    var steps := Written(queue, body, ts);
    RunWritten(queue, body, ts);
    var s := Run(Empty<B>(), steps);
    var slot := (queue, Id(ts, 1));
    TimedOutEnabled(s, queue, body, ts);
    hide Run, Possible, Id, SentSlots, Slots, IsRequeued;
    RunAdds(Empty<B>(), steps, TimedOut(queue, body, ts));
    RunAdds(Empty<B>(), steps + [TimedOut(queue, body, ts)], PollDelete(0));
    RequeueInHandLoses(s, 0, slot, TimedOut(queue, body, ts));
  }

  /** A requeue between the test's two reads: both read nothing, while the message is queued. */
  lemma TestFooledByRequeue<B>(queue: JsString, body: B, ts: nat)
    ensures var first := Written(queue, body, ts) + [PollDelete(0)];
            var second := first + [TimedOut(queue, body, ts)];
            && Possible(Empty<B>(), first) && Possible(Empty<B>(), second)
            && ReadsEmpty(Run(Empty<B>(), first).store.queued, queue)
            && ReadsEmpty(Run(Empty<B>(), second).store.processing, queue)
            && (queue, Id(ts, 1)) in Run(Empty<B>(), second).store.queued
  {
    var steps := Written(queue, body, ts);
    RunWritten(queue, body, ts);
    hide Run, Possible, Id, SentSlots, Slots, IsRequeued;
    RunAdds(Empty<B>(), steps, PollDelete(0));
    var s := Run(Empty<B>(), steps + [PollDelete(0)]);
    assert s.store.queued == map[];
    TimedOutEnabled(s, queue, body, ts);
    RunAdds(Empty<B>(), steps + [PollDelete(0)], TimedOut(queue, body, ts));
    RequeueFoolsTheTest(s, queue, ts + 1, false, _ => ts, TimedOut(queue, body, ts).after);
  }

  /** A message acknowledged before its poll is done: queued at the call, unseen by both reads, and not acknowledged
      since the call. */
  lemma TestFooledByEarlyAck<B>(queue: JsString, body: B, ts: nat)
    ensures var past := Written(queue, body, ts) + [Ack(queue, [Id(ts, 1)])];
            var slot := (queue, Id(ts, 1));
            && Possible(Empty<B>(), past) && slot in Run(Empty<B>(), past).store.queued
            && var at := AtCall(Run(Empty<B>(), past));
               && Possible(at, [PollDelete(0)]) && Possible(Run(at, [PollDelete(0)]), [])
               && AnswersEmpty(at, [PollDelete(0)], [], queue)
               && slot !in Run(Run(at, [PollDelete(0)]), []).acked
  {
    var steps := Written(queue, body, ts);
    var ack := Ack(queue, [Id(ts, 1)]);
    RunWritten(queue, body, ts);
    var s := Run(Empty<B>(), steps);
    hide Run, Possible, Id, SentSlots, Slots, IdSlots;
    RunAdds(Empty<B>(), steps, ack);
    OneIdSlot((queue, Id(ts, 1)));
    var at := AtCall(Next(s, ack));
    assert at.store.processing == map[];
    RunNothing(at);
    var delete: Step<B> := PollDelete(0);
    RunAdds(at, [], delete);
    assert [] + [delete] == [delete];
    var t := Run(at, [PollDelete(0)]);
    RunNothing(t);
    assert t.store.queued == map[];
  }

  /** A requeue after the call and before the first read that takes the message from a poller's hand: queued at the
      call, unseen by both reads, and not acknowledged since. */
  lemma TestFooledByRequeueBefore<B>(queue: JsString, body: B, ts: nat)
    ensures var past, before := Written(queue, body, ts), [TimedOut(queue, body, ts), PollDelete(0)];
            var slot := (queue, Id(ts, 1));
            && Possible(Empty<B>(), past) && slot in Run(Empty<B>(), past).store.queued
            && var at := AtCall(Run(Empty<B>(), past));
               && Possible(at, before) && Possible(Run(at, before), [])
               && AnswersEmpty(at, before, [], queue)
               && slot !in Run(Run(at, before), []).acked
  {
    RunWritten(queue, body, ts);
    var at := AtCall(Run(Empty<B>(), Written(queue, body, ts)));
    var requeue := TimedOut(queue, body, ts);
    var delete: Step<B> := PollDelete(0);
    TimedOutEnabled(at, queue, body, ts);
    hide Run, Possible, Id, SentSlots, IsRequeued;
    RunNothing(at);
    RunAdds(at, [], requeue);
    RunAdds(at, [] + [requeue], delete);
    assert [] + [requeue] + [delete] == [requeue, delete];
    var t := Run(at, [requeue, delete]);
    RunNothing(t);
    assert t.store.queued == map[];
  }
}
