/** Runs of the event batching: events, timers and flushes in any order. That there is one timer or one flush at a
    time is not built in: any number of them could be live. */
module RealtimeRuns {
  import opened Options
  import opened RealtimeEvents

  datatype State = State(fields: Batching, timers: set<nat>, flushes: map<nat, Flush>, log: seq<Entry>)

  datatype Step =
    | Arrive(event: Event)
    | Fire(timer: nat)
    | Proceed(flush: nat, active: bool, ok: bool)
    | End(flush: nat)

  const START: State := State(Batching([], None, 0), {}, map[], [])

  predicate Enabled(s: State, step: Step) {
    match step
    case Arrive(_) => true
    case Fire(t) => t in s.timers
    case Proceed(f, _, _) => f in s.flushes && !s.flushes[f].phase.Done?
    case End(f) => f in s.flushes && s.flushes[f].phase.Done?
  }

  function Next(s: State, step: Step): State
    requires Enabled(s, step)
  {
    match step
    case Arrive(ev) =>
      var after := Receive(s.fields, ev);
      s.(fields := after, timers := s.timers + Started(s.fields, after), log := s.log + [Arrived(ev)])
    case Fire(t) =>
      s.(fields := s.fields.(pending := []), timers := s.timers - {t},
         flushes := s.flushes[t := Begin(s.fields.pending)])
    case Proceed(f, active, ok) =>
      var (g, es) := Advance(s.flushes[f], active, ok);
      s.(flushes := s.flushes[f := g], log := s.log + es)
    case End(f) =>
      var after := Release(s.fields);
      s.(fields := after, timers := s.timers + Started(s.fields, after), flushes := s.flushes - {f})
  }

  predicate Possible(steps: seq<Step>)
    decreases |steps|, 0
  {
    steps == [] ||
    (var n := |steps| - 1; Possible(steps[..n]) && Enabled(Run(steps[..n]), steps[n]))
  }

  function Run(steps: seq<Step>): State
    requires Possible(steps)
    decreases |steps|, 1
  {
    if steps == [] then START
    else var n := |steps| - 1; Next(Run(steps[..n]), steps[n])
  }

  // ---------------------------------------------------------------- the timer is a lock

  /** Either nothing is going on, or the field holds the one live timer, or the one flush under way, which that
      timer started. */
  ghost predicate Locked(s: State) {
    match s.fields.flushTimer
    case None => s.timers == {} && s.flushes == map[] && s.fields.pending == []
    case Some(t) =>
      || (s.timers == {t} && s.flushes == map[])
      || (s.timers == {} && s.flushes.Keys == {t})
  }

  ghost predicate UnderWay(s: State) {
    forall f :: f in s.flushes ==> IsUnderWay(s.flushes[f])
  }

  lemma NextLocked(s: State, step: Step)
    requires Enabled(s, step) && Locked(s)
    ensures Locked(Next(s, step))
  {
    hide Put, Begin, Advance;
    var t := Next(s, step);
    match step
    case Arrive(ev) =>
      return;
    case Fire(timer) =>
      assert t.timers == {};
      assert t.flushes.Keys == {timer};
      return;
    case Proceed(f, active, ok) =>
      assert t.flushes.Keys == s.flushes.Keys;
      return;
    case End(f) =>
      assert s.flushes.Keys == {f};
      assert t.flushes == map[];
      return;
  }

  lemma NextUnderWay(s: State, step: Step)
    requires Enabled(s, step) && UnderWay(s)
    ensures UnderWay(Next(s, step))
  {
    hide IsUnderWay, Begin, Advance, Put;
    var t := Next(s, step);
    forall f | f in t.flushes
      ensures IsUnderWay(t.flushes[f])
    {
      match step
      case Arrive(_) =>
      case Fire(_) => BeginOwesEverything(s.fields.pending, Event("", Change, 0), true);
      case Proceed(g, active, ok) => AdvanceServes(s.flushes[g], active, ok, Event("", Change, 0), true);
      case End(_) =>
    }
  }

  lemma {:induction false} RunIsLocked(steps: seq<Step>)
    requires Possible(steps)
    ensures Locked(Run(steps)) && UnderWay(Run(steps))
  {
    if steps == [] {
      return;
    }
    var n := |steps| - 1;
    RunIsLocked(steps[..n]);
    hide Locked, UnderWay, Enabled, Next;
    NextLocked(Run(steps[..n]), steps[n]);
    NextUnderWay(Run(steps[..n]), steps[n]);
  }

  /** At most one timer is live or one flush under way, the field is set exactly then, and pending events imply it. */
  lemma {:induction false} OneFlushAtATime(steps: seq<Step>)
    requires Possible(steps)
    ensures var s := Run(steps);
            && |s.timers| + |s.flushes.Keys| == (if s.fields.flushTimer.Some? then 1 else 0)
            && (s.fields.pending != [] ==> s.fields.flushTimer.Some?)
  {
    RunIsLocked(steps);
    hide Run, Possible;
  }

  /** While the field is set something can go on without a further event, so nothing pending is stranded. */
  lemma NeverStuck(steps: seq<Step>)
    requires Possible(steps) && Run(steps).fields.flushTimer.Some?
    ensures exists step: Step :: !step.Arrive? && Enabled(Run(steps), step)
  {
    RunIsLocked(steps);
    var s := Run(steps);
    hide Run, Possible;
    var t := s.fields.flushTimer.value;
    if t in s.timers {
      assert Enabled(s, Fire(t));
    } else if s.flushes[t].phase.Done? {
      assert Enabled(s, End(t));
    } else {
      assert Enabled(s, Proceed(t, true, true));
    }
  }

  /** How many steps there are at most without a further event. */
  ghost function StepsLeft(s: State): nat {
    if s.fields.flushTimer.None? then 0
    else
      var t := s.fields.flushTimer.value;
      var next := Work(Begin(s.fields.pending).phase) + 2;
      if t in s.flushes then Work(s.flushes[t].phase) + 1 + (if s.fields.pending == [] then 0 else next)
      else next
  }

  lemma StepsRunOut(s: State, step: Step)
    requires Enabled(s, step) && !step.Arrive? && Locked(s)
    ensures StepsLeft(Next(s, step)) < StepsLeft(s)
  {
    if step.Proceed? {
      FlushAdvances(s.flushes[step.flush], step.active, step.ok);
    }
    if step.End? {
      assert s.flushes.Keys == {step.flush};
    }
    hide Begin, Advance, Work;
    assert Work(Done) == 0 by {
      DoneIsNoWork();
    }
  }

  lemma DoneIsNoWork()
    ensures Work(Done) == 0
  {
  }

  lemma RunAdds(steps: seq<Step>, step: Step)
    requires Possible(steps) && Enabled(Run(steps), step)
    ensures Possible(steps + [step]) && Run(steps + [step]) == Next(Run(steps), step)
  {
    assert (steps + [step])[..|steps|] == steps;
    hide Enabled, Next;
  }

  /** Without further events a run is over after that many steps. */
  lemma {:induction false} RunsAreShort(steps: seq<Step>, more: seq<Step>)
    requires Possible(steps + more) && forall i :: 0 <= i < |more| ==> !more[i].Arrive?
    ensures Possible(steps) && StepsLeft(Run(steps + more)) + |more| <= StepsLeft(Run(steps))
  {
    if more == [] {
      assert steps + more == steps;
      return;
    }
    var n := |more| - 1;
    var before := steps + more[..n];
    assert steps + more == before + [more[n]];
    assert (before + [more[n]])[..|before|] == before;
    hide StepsLeft, Next, Enabled;
    RunsAreShort(steps, more[..n]);
    RunIsLocked(before);
    StepsRunOut(Run(before), more[n]);
  }

  /** And it can go on to a state of rest. */
  lemma {:induction false} ComesToRest(steps: seq<Step>) returns (more: seq<Step>)
    requires Possible(steps)
    ensures Possible(steps + more) && forall i :: 0 <= i < |more| ==> !more[i].Arrive?
    ensures Run(steps + more).fields.flushTimer.None?
    decreases StepsLeft(Run(steps))
  {
    hide StepsLeft, Next, Enabled, Run, Possible;
    if Run(steps).fields.flushTimer.None? {
      more := [];
      assert steps + more == steps;
    } else {
      NeverStuck(steps);
      var step: Step :| !step.Arrive? && Enabled(Run(steps), step);
      RunIsLocked(steps);
      StepsRunOut(Run(steps), step);
      RunAdds(steps, step);
      var rest := ComesToRest(steps + [step]);
      more := [step] + rest;
      assert steps + more == steps + [step] + rest;
    }
  }

  // ---------------------------------------------------------------- no event is forgotten

  /** The i-th entry is an event, and no later event has its name. */
  ghost predicate IsLatest(log: seq<Entry>, i: nat) {
    && i < |log| && log[i].Arrived?
    && forall j :: i < j < |log| && log[j].Arrived? ==> log[j].event.name != log[i].event.name
  }

  ghost predicate ServedSince(log: seq<Entry>, i: nat, strict: bool)
    requires i < |log| && log[i].Arrived?
  {
    exists j :: i < j < |log| && Serves(log[j], log[i].event, strict)
  }

  ghost predicate InSomeFlush(s: State, ev: Event, strict: bool) {
    exists f :: f in s.flushes && InRemainder(s.flushes[f], ev, strict)
  }

  /** Pending, still to be served by a running flush, or served since it came in. */
  ghost predicate Kept(s: State, i: nat, strict: bool)
    requires i < |s.log| && s.log[i].Arrived?
  {
    || s.log[i].event in s.fields.pending
    || InSomeFlush(s, s.log[i].event, strict)
    || ServedSince(s.log, i, strict)
  }

  lemma LatestBefore(log: seq<Entry>, more: seq<Entry>, i: nat)
    requires IsLatest(log + more, i) && i < |log|
    ensures IsLatest(log, i) && (log + more)[i] == log[i]
    ensures forall j :: 0 <= j < |more| && more[j].Arrived? ==> more[j].event.name != log[i].event.name
  {
    var all := log + more;
    assert forall j :: 0 <= j < |log| ==> all[j] == log[j];
    assert forall j :: 0 <= j < |more| ==> all[|log| + j] == more[j];
  }

  lemma ServedStays(log: seq<Entry>, more: seq<Entry>, i: nat, strict: bool)
    requires i < |log| && log[i].Arrived?
    ensures ServedSince(log, i, strict) ==> ServedSince(log + more, i, strict)
    ensures (exists j :: 0 <= j < |more| && Serves(more[j], log[i].event, strict)) ==>
            ServedSince(log + more, i, strict)
  {
    hide Serves;
    var all := log + more;
    if ServedSince(log, i, strict) {
      var j :| i < j < |log| && Serves(log[j], log[i].event, strict);
      assert all[j] == log[j];
    }
    if j :| 0 <= j < |more| && Serves(more[j], log[i].event, strict) {
      assert all[|log| + j] == more[j];
    }
  }

  lemma ArriveKeeps(s: State, ev: Event, i: nat, strict: bool)
    requires IsLatest(s.log, i) ==> Kept(s, i, strict)
    requires IsLatest(Next(s, Arrive(ev)).log, i)
    ensures Kept(Next(s, Arrive(ev)), i, strict)
  {
    var t := Next(s, Arrive(ev));
    assert t.log == s.log + [Arrived(ev)];
    PutKeepsOthers(s.fields.pending, ev, t.log[i].event);
    if i < |s.log| {
      LatestBefore(s.log, [Arrived(ev)], i);
      ServedStays(s.log, [Arrived(ev)], i, strict);
      assert [Arrived(ev)][0] == Arrived(ev);
      hide Put, InRemainder, ServedSince, IsLatest;
      assert InSomeFlush(s, s.log[i].event, strict) ==> InSomeFlush(t, s.log[i].event, strict);
    }
  }

  lemma FireKeeps(s: State, timer: nat, i: nat, strict: bool)
    requires Enabled(s, Fire(timer)) && Locked(s) && IsLatest(s.log, i) && Kept(s, i, strict)
    ensures Kept(Next(s, Fire(timer)), i, strict)
  {
    var t, ev := Next(s, Fire(timer)), s.log[i].event;
    BeginOwesEverything(s.fields.pending, ev, strict);
    hide Begin, InRemainder, ServedSince;
    assert s.flushes == map[];
    if ev in s.fields.pending {
      assert InRemainder(t.flushes[timer], ev, strict);
    }
  }

  lemma ProceedKeeps(s: State, f: nat, active: bool, ok: bool, i: nat, strict: bool)
    requires Enabled(s, Proceed(f, active, ok)) && UnderWay(s)
    requires IsLatest(s.log, i) && Kept(s, i, strict)
    ensures i < |Next(s, Proceed(f, active, ok)).log| && Next(s, Proceed(f, active, ok)).log[i] == s.log[i]
    ensures Kept(Next(s, Proceed(f, active, ok)), i, strict)
  {
    var t, ev := Next(s, Proceed(f, active, ok)), s.log[i].event;
    var (g, es) := Advance(s.flushes[f], active, ok);
    AdvanceServes(s.flushes[f], active, ok, ev, strict);
    hide Advance, InRemainder, ServedSince, IsLatest, Serves, IsUnderWay;
    assert t.log[i] == s.log[i];
    ServedStays(s.log, es, i, strict);
    if InSomeFlush(s, ev, strict) {
      var h :| h in s.flushes && InRemainder(s.flushes[h], ev, strict);
      assert h != f ==> InRemainder(t.flushes[h], ev, strict);
      assert t.flushes[f] == g;
    }
  }

  lemma EndKeeps(s: State, f: nat, i: nat, strict: bool)
    requires Enabled(s, End(f)) && IsLatest(s.log, i) && Kept(s, i, strict)
    ensures Kept(Next(s, End(f)), i, strict)
  {
    var t, ev := Next(s, End(f)), s.log[i].event;
    if InSomeFlush(s, ev, strict) {
      var h :| h in s.flushes && InRemainder(s.flushes[h], ev, strict);
      assert h != f;
      assert InRemainder(t.flushes[h], ev, strict);
    }
  }

  /** In every run the latest event of each name is pending, still to be served by a running flush, or served since
      it came in, loosely and strictly. */
  lemma {:induction false} LatestEventIsKept(steps: seq<Step>, i: nat, strict: bool)
    requires Possible(steps) && IsLatest(Run(steps).log, i)
    ensures Kept(Run(steps), i, strict)
  {
    if steps == [] {
      return;
    }
    var n := |steps| - 1;
    var s, step := Run(steps[..n]), steps[n];
    assert Run(steps) == Next(s, step);
    RunIsLocked(steps[..n]);
    if IsLatest(s.log, i) {
      LatestEventIsKept(steps[..n], i, strict);
    }
    hide Possible, Run, Locked, UnderWay, Kept, Advance, Put, Begin;
    match step
    case Arrive(ev) =>
      ArriveKeeps(s, ev, i, strict);
      return;
    case Fire(timer) =>
      FireKeeps(s, timer, i, strict);
      return;
    case Proceed(f, active, ok) =>
      ProceedIsLatest(s, f, active, ok, i);
      ProceedKeeps(s, f, active, ok, i, strict);
      return;
    case End(f) =>
      EndKeeps(s, f, i, strict);
      return;
  }

  lemma ProceedIsLatest(s: State, f: nat, active: bool, ok: bool, i: nat)
    requires Enabled(s, Proceed(f, active, ok)) && IsLatest(Next(s, Proceed(f, active, ok)).log, i)
    ensures IsLatest(s.log, i)
  {
    var es := Advance(s.flushes[f], active, ok).1;
    assert forall j :: 0 <= j < |es| ==> !es[j].Arrived?;
    hide Advance;
    var t := Next(s, Proceed(f, active, ok));
    assert t.log == s.log + es;
    assert forall j :: |s.log| <= j < |t.log| ==> t.log[j] == es[j - |s.log|];
    assert i < |s.log|;
    LatestBefore(s.log, es, i);
  }

  /** With no timer set every event's latest version has been served. */
  lemma AtRestEverythingIsServed(steps: seq<Step>, i: nat, strict: bool)
    requires Possible(steps) && IsLatest(Run(steps).log, i) && Run(steps).fields.flushTimer.None?
    ensures ServedSince(Run(steps).log, i, strict)
  {
    LatestEventIsKept(steps, i, strict);
    RunIsLocked(steps);
    hide Run, Possible, ServedSince, IsLatest;
  }
}
