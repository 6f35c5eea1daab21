/** Whole runs of the scheduler: rounds, vote changes, new witnesses and edits in any order. */
module WitnessRuns {
  import opened Collections
  import opened Words
  import opened VirtualClock
  import opened WitnessSelection
  import opened WitnessSchedule
  import opened WitnessScheduler
  import opened Shuffle

  datatype Step =
    | Hold(t: Trace, seconds: uint32)
    | Vote(id: Id, votes: nat)
    | Join(id: Id, w: Witness)
    | Edit(id: Id, w: Witness)
    | Work(id: Id, number: nat)

  /** A new witness has no votes, waits in no queue and is scheduled at the end of time. */
  ghost predicate IsNewcomer(ws: Witnesses, id: Id, w: Witness)
  {
    && id !in ws && !NamesWitness(ws, w.owner) && w.votes == 0 && w.powWorker == 0
    && w.scheduledTime == 0xFFFF_FFFF_FFFF_FFFF_FFFF_FFFF_FFFF_FFFF
  }

  /** An edit changes the signing key, the version, the votes for a hardfork and the properties, nothing else. */
  ghost predicate IsEdit(w: Witness, w': Witness)
  {
    w' == w.(hasKey := w'.hasKey, runningVersion := w'.runningVersion, vote := w'.vote, props := w'.props)
  }

  ghost predicate Next(cfg: Config, st: State, step: Step, st': State)
  {
    match step
    case Hold(t, seconds) => EnoughKeyed(cfg, st.witnesses) && RoundFrom(cfg, st, st', t, seconds)
    case Vote(id, votes) => id in st.witnesses && st' == Revote(cfg, st, id, votes)
    case Join(id, w) => IsNewcomer(st.witnesses, id, w) && st' == st.(witnesses := st.witnesses[id := w])
    case Edit(id, w) =>
      id in st.witnesses && IsEdit(st.witnesses[id], w) && st' == st.(witnesses := st.witnesses[id := w])
    case Work(id, number) =>
      && number > 0 && id in st.witnesses && st.witnesses[id].powWorker == 0
      && st' == st.(witnesses := st.witnesses[id := st.witnesses[id].(powWorker := number)], numPow := st.numPow + 1)
  }

  lemma NextKeepsValid(cfg: Config, st: State, step: Step, st': State)
    requires ValidState(cfg, st) && Next(cfg, st, step, st')
    ensures ValidState(cfg, st')
  {
    match step
    case Hold(t, seconds) => RoundKeepsValid(cfg, st, st', t, seconds);
    case Vote(id, votes) => RevoteKeepsValid(cfg, st, id, votes);
    case Join(id, w) => JoinKeepsValid(cfg, st, id, w);
    case Edit(id, w) =>
      TimesAfterNow(st.witnesses, st.now, id);
      ReplaceKeepsValid(cfg, st, id, w);
    case Work(id, number) => WorkKeepsValid(cfg, st, id, number);
  }

  lemma JoinKeepsValid(cfg: Config, st: State, id: Id, w: Witness)
    requires ValidState(cfg, st) && IsNewcomer(st.witnesses, id, w)
    ensures ValidState(cfg, st.(witnesses := st.witnesses[id := w]))
  {
    var ws' := st.witnesses[id := w];
    assert Waiting(ws') == Waiting(st.witnesses);
    forall n | n in ws'
      ensures ws'[n].scheduledTime >= st.now
    {
      if n != id { TimesAfterNow(st.witnesses, st.now, n); }
    }
    IndexKeepsValid(cfg, st, ws', st.numPow);
  }

  lemma WorkKeepsValid(cfg: Config, st: State, id: Id, number: nat)
    requires ValidState(cfg, st) && number > 0 && id in st.witnesses && st.witnesses[id].powWorker == 0
    ensures ValidState(cfg, st.(witnesses := st.witnesses[id := st.witnesses[id].(powWorker := number)],
                                numPow := st.numPow + 1))
  {
    var ws' := st.witnesses[id := st.witnesses[id].(powWorker := number)];
    assert Waiting(ws') == Waiting(st.witnesses) + {id};
    forall n | n in ws'
      ensures ws'[n].scheduledTime >= st.now
    {
      TimesAfterNow(st.witnesses, st.now, n);
    }
    IndexKeepsValid(cfg, st, ws', st.numPow + 1);
  }

  // ---------- what one round publishes ----------

  lemma PermutedDistinct(s: seq<Name>, r: seq<Name>)
    requires Distinct(s) && multiset(r) == multiset(s)
    ensures Distinct(r)
  {
    DistinctIsOnce(s);
    DistinctIsOnce(r);
  }

  lemma OwnersDistinct(ws: Witnesses, ids: seq<Id>)
    requires DistinctOwners(ws) && AllIn(ws, ids) && Distinct(ids)
    ensures Distinct(Owners(ws, ids))
  {
  }

  /** The first slots hold a permutation of the names of the active witnesses, no name twice, and the rest are empty;
      there are as many as there are keyed witnesses, up to the size of a round. */
  lemma RoundPublishes(cfg: Config, st: State, st': State, t: Trace, seconds: uint32)
    requires ValidState(cfg, st) && RoundFrom(cfg, st, st', t, seconds)
    ensures var n := st'.numScheduled;
      && n == Min(cfg.size, |KeyedSet(st.witnesses)|) && |st'.shuffled| == cfg.size
      && multiset(st'.shuffled[..n]) == multiset(Owners(st.witnesses, t.s.Active()))
      && Distinct(st'.shuffled[..n])
      && forall i :: n <= i < cfg.size ==> st'.shuffled[i] == 0
  {
    SlotsPublish(st.witnesses, t.s.Active(), seconds, cfg.size);
  }

  lemma SlotsPublish(ws: Witnesses, active: seq<Id>, seconds: uint32, size: nat)
    requires DistinctOwners(ws) && AllIn(ws, active) && Distinct(active) && |active| <= size
    ensures var names := Owners(ws, active); var slots := Slots(names, seconds, size);
      && multiset(slots[..|active|]) == multiset(names) && Distinct(slots[..|active|])
      && forall i :: |active| <= i < size ==> slots[i] == 0
  {
    var names := Owners(ws, active);
    PrefixOfSlots(names, seconds, size);
    OwnersDistinct(ws, active);
    PermutedDistinct(names, Shuffled(names, seconds, 0));
  }

  // ---------- runs, seen on the clock ----------

  ghost predicate IsSchedulerRun(cfg: Config, states: seq<State>, steps: seq<Step>)
  {
    && |states| == |steps| + 1 && ValidState(cfg, states[0])
    && forall i :: 0 <= i < |steps| ==> StepOk(cfg, states, steps, i)
  }

  ghost predicate StepOk(cfg: Config, states: seq<State>, steps: seq<Step>, i: nat)
  {
    i < |steps| && i + 1 < |states| && Next(cfg, states[i], steps[i], states[i + 1])
  }

  ghost function At(st: State): Clock { ClockOf(st.witnesses, st.now) }

  /** The step as the clock sees it; edits and proofs of work leave the clock alone. */
  ghost function EventOf(st: State, step: Step, st': State): Event
  {
    match step
    case Hold(t, _) => Rounded(t.order, |t.s.processed|)
    case Join(id, _) => Joined(id)
    case _ =>
      if step.id in st'.witnesses
      then Voted(step.id, st'.witnesses[step.id].votes, st'.witnesses[step.id].scheduledTime)
      else Joined(step.id)
  }

  lemma NextIsEvent(cfg: Config, st: State, step: Step, st': State)
    requires ValidState(cfg, st) && Next(cfg, st, step, st')
    ensures var e := EventOf(st, step, st'); Legal(At(st), e) && At(st') == Apply(cfg.lap, At(st), e)
  {
    if step.Hold? {
      HoldIsEvent(cfg.lap, At(st), At(st'), step.t.order, step.t.s.processed);
    } else {
      NextKeepsValid(cfg, st, step, st');
      TimesAfterNow(st'.witnesses, st'.now, step.id);
      ReplaceIsEvent(cfg, st, step, st');
    }
  }

  lemma HoldIsEvent(lap: uint128, c: Clock, c': Clock, order: seq<Id>, processed: seq<Id>)
    requires c.votes.Keys == c.time.Keys && IsScheduleOrder(c.time, order) && processed <= order
    requires c' == Round(lap, c, processed)
    ensures var e := Rounded(order, |processed|); Legal(c, e) && c' == Apply(lap, c, e)
  {
    assert order[..|processed|] == processed;
  }

  lemma ReplaceIsEvent(cfg: Config, st: State, step: Step, st': State)
    requires !step.Hold? && Next(cfg, st, step, st') && step.id in st'.witnesses
    requires st'.witnesses[step.id].scheduledTime >= st.now
    ensures var e := EventOf(st, step, st'); Legal(At(st), e) && At(st') == Apply(cfg.lap, At(st), e)
  {
    ReplaceOnClock(st.witnesses, step.id, st'.witnesses[step.id], st.now);
    assert st'.witnesses == st.witnesses[step.id := st'.witnesses[step.id]];
  }

  lemma ReplaceOnClock(ws: Witnesses, id: Id, w: Witness, now: uint128)
    ensures var c, c' := ClockOf(ws, now), ClockOf(ws[id := w], now);
      c'.votes == c.votes[id := w.votes] && c'.time == c.time[id := w.scheduledTime]
  {
  }

  ghost function Clocks(states: seq<State>): seq<Clock> { seq(|states|, i requires 0 <= i < |states| => At(states[i])) }

  ghost function Events(states: seq<State>, steps: seq<Step>): seq<Event>
    requires |states| == |steps| + 1
  {
    seq(|steps|, i requires 0 <= i < |steps| => EventOf(states[i], steps[i], states[i + 1]))
  }

  lemma {:induction false} RunStaysValid(cfg: Config, states: seq<State>, steps: seq<Step>, n: nat)
    requires IsSchedulerRun(cfg, states, steps) && n < |states|
    ensures ValidState(cfg, states[n])
  {
    if n > 0 {
      RunStaysValid(cfg, states, steps, n - 1);
      StepKeepsValid(cfg, states, steps, n - 1);
    }
  }

  lemma StepKeepsValid(cfg: Config, states: seq<State>, steps: seq<Step>, i: nat)
    requires i + 1 < |states|
    ensures StepOk(cfg, states, steps, i) && ValidState(cfg, states[i]) ==> ValidState(cfg, states[i + 1])
  {
    if StepOk(cfg, states, steps, i) && ValidState(cfg, states[i]) {
      NextKeepsValid(cfg, states[i], steps[i], states[i + 1]);
    }
  }

  ghost predicate IsClockStep(lap: uint128, clocks: seq<Clock>, events: seq<Event>, i: nat)
  {
    && i < |events| < |clocks| && clocks[i].votes.Keys == clocks[i].time.Keys && Legal(clocks[i], events[i])
    && clocks[i + 1] == Apply(lap, clocks[i], events[i])
  }

  lemma StepIsClockStep(cfg: Config, states: seq<State>, steps: seq<Step>, i: nat)
    requires IsSchedulerRun(cfg, states, steps) && i < |steps|
    ensures IsClockStep(cfg.lap, Clocks(states), Events(states, steps), i)
  {
    RunStaysValid(cfg, states, steps, i);
    assert StepOk(cfg, states, steps, i);
    NextIsEvent(cfg, states[i], steps[i], states[i + 1]);
    StepAtPlace(cfg.lap, states, steps, i);
  }

  lemma StepAtPlace(lap: uint128, states: seq<State>, steps: seq<Step>, i: nat)
    requires |states| == |steps| + 1 && i < |steps|
    requires var e := EventOf(states[i], steps[i], states[i + 1]);
      Legal(At(states[i]), e) && At(states[i + 1]) == Apply(lap, At(states[i]), e)
    ensures IsClockStep(lap, Clocks(states), Events(states, steps), i)
  {
  }

  /** The clock's view of any run is a run of the clock. */
  lemma RunIsClockRun(cfg: Config, states: seq<State>, steps: seq<Step>)
    requires IsSchedulerRun(cfg, states, steps)
    ensures IsRun(cfg.lap, Clocks(states), Events(states, steps)) && Inv(Clocks(states)[0])
  {
    var clocks, events := Clocks(states), Events(states, steps);
    forall i | 0 <= i < |events|
      ensures IsClockStep(cfg.lap, clocks, events, i)
    {
      StepIsClockStep(cfg, states, steps, i);
    }
    assert clocks[0] == At(states[0]);
    StepsMakeRun(cfg.lap, clocks, events);
  }

  lemma StepsMakeRun(lap: uint128, clocks: seq<Clock>, events: seq<Event>)
    requires |clocks| == |events| + 1 && forall i :: 0 <= i < |events| ==> IsClockStep(lap, clocks, events, i)
    ensures IsRun(lap, clocks, events)
  {
    forall i | 0 <= i < |events|
      ensures clocks[i].votes.Keys == clocks[i].time.Keys && Legal(clocks[i], events[i])
      ensures clocks[i + 1] == Apply(lap, clocks[i], events[i])
    {
      assert IsClockStep(lap, clocks, events, i);
    }
  }

  /** Over any run the virtual time never goes backwards except by a reset. */
  lemma VirtualTimeNeverGoesBack(cfg: Config, states: seq<State>, steps: seq<Step>, i: nat, j: nat)
    requires IsSchedulerRun(cfg, states, steps) && i <= j < |states|
    requires forall n :: i <= n < j ==> !Resets(cfg.lap, At(states[n]), EventOf(states[n], steps[n], states[n + 1]))
    ensures states[i].now <= states[j].now
  {
    RunIsClockRun(cfg, states, steps);
    ClockNeverGoesBack(cfg.lap, Clocks(states), Events(states, steps), i, j);
  }

  /** Votes do not change, and a round leaves a slot to the timeshare witnesses and does not reset the clock. */
  ghost predicate CalmStep(cfg: Config, st: State, step: Step, st': State)
  {
    && !step.Vote?
    && (step.Hold? ==>
          |step.t.s.voted| + |step.t.s.miners| < cfg.size && !Resets(cfg.lap, At(st), EventOf(st, step, st')))
  }

  ghost function Processed(step: Step): seq<Id> { if step.Hold? then step.t.s.processed else [] }

  ghost function RoundsHeld(steps: seq<Step>): nat
  {
    if steps == [] then 0 else (if steps[0].Hold? then 1 else 0) + RoundsHeld(steps[1..])
  }

  /** With a timeshare slot free, a round processes someone. */
  lemma SlotIsUsed(ws: Witnesses, taken: seq<Id>, size: nat, processed: seq<Id>, chosen: seq<Id>, order: seq<Id>)
    requires |ws| > 0 && IsWalk(ws, taken, size, processed, chosen, order) && |taken| < size
    ensures 0 < |processed| <= |order| && order[..|processed|] == processed
  {
  }

  /** The clock sees a calm event, which processes the witnesses the round did. */
  ghost predicate CalmEvent(lap: uint128, c: Clock, e: Event, processed: seq<Id>)
  {
    Calm(lap, c, e) && (e.Rounded? ==> e.processed <= |e.order| && e.order[..e.processed] == processed)
  }

  lemma CalmStepOnClock(cfg: Config, st: State, step: Step, st': State)
    requires ValidState(cfg, st) && Next(cfg, st, step, st') && CalmStep(cfg, st, step, st')
    ensures CalmEvent(cfg.lap, At(st), EventOf(st, step, st'), Processed(step))
    ensures EventOf(st, step, st').Rounded? <==> step.Hold?
  {
    if step.Hold? {
      SomeWitness(cfg, st);
      var t := step.t;
      SlotIsUsed(st.witnesses, t.s.voted + t.s.miners, cfg.size, t.s.processed, t.s.chosen, t.order);
    }
  }

  /** At this place of the run the clock sees a calm event, and a round exactly if there is one. */
  ghost predicate CalmAt(lap: uint128, clocks: seq<Clock>, events: seq<Event>, steps: seq<Step>, i: nat)
  {
    && i < |steps| == |events| < |clocks| && (events[i].Rounded? <==> steps[i].Hold?)
    && CalmEvent(lap, clocks[i], events[i], Processed(steps[i]))
  }

  lemma CalmRunOnClock(cfg: Config, states: seq<State>, steps: seq<Step>, i: nat)
    requires IsSchedulerRun(cfg, states, steps) && i < |steps| && CalmStep(cfg, states[i], steps[i], states[i + 1])
    ensures CalmAt(cfg.lap, Clocks(states), Events(states, steps), steps, i)
  {
    RunStaysValid(cfg, states, steps, i);
    assert StepOk(cfg, states, steps, i);
    CalmStepOnClock(cfg, states[i], steps[i], states[i + 1]);
    CalmAtPlace(cfg.lap, states, steps, i);
  }

  lemma CalmAtPlace(lap: uint128, states: seq<State>, steps: seq<Step>, i: nat)
    requires |states| == |steps| + 1 && i < |steps|
    requires var e := EventOf(states[i], steps[i], states[i + 1]);
      CalmEvent(lap, At(states[i]), e, Processed(steps[i])) && (e.Rounded? <==> steps[i].Hold?)
    ensures CalmAt(lap, Clocks(states), Events(states, steps), steps, i)
  {
  }

  lemma {:induction false} RoundsMatch(events: seq<Event>, steps: seq<Step>)
    requires |events| == |steps| && forall i :: 0 <= i < |steps| ==> (events[i].Rounded? <==> steps[i].Hold?)
    ensures Rounds(events) == RoundsHeld(steps)
  {
    if steps != [] {
      RoundsMatch(events[1..], steps[1..]);
    }
  }

  /** No starvation: while votes do not change and every round leaves a timeshare slot and does not reset the clock, any
      witness is processed within a number of rounds fixed by the scheduled times at the start, whatever signing keys,
      proofs of work and new witnesses come in between. */
  lemma EveryWitnessIsProcessed(cfg: Config, states: seq<State>, steps: seq<Step>, w: Id, others: seq<Id>)
    requires IsSchedulerRun(cfg, states, steps) && w in states[0].witnesses
    requires forall id :: id in others <==> id in states[0].witnesses
    requires forall i :: 0 <= i < |steps| ==> CalmStep(cfg, states[i], steps[i], states[i + 1])
    requires forall id :: id in states[0].witnesses ==> Share(cfg.lap, states[0].witnesses[id].votes) >= 1
    requires RoundsHeld(steps) > TotalLead(Times(states[0].witnesses), others, states[0].witnesses[w].scheduledTime)
    ensures exists i :: 0 <= i < |steps| && w in Processed(steps[i])
  {
    forall i | 0 <= i < |steps|
      ensures CalmAt(cfg.lap, Clocks(states), Events(states, steps), steps, i)
    {
      CalmRunOnClock(cfg, states, steps, i);
    }
    RunIsClockRun(cfg, states, steps);
    StartOnClock(cfg, states[0], w, others);
    ProcessedOnClock(cfg.lap, Clocks(states), Events(states, steps), steps, w, others);
  }

  lemma ProcessedOnClock(lap: uint128, clocks: seq<Clock>, events: seq<Event>, steps: seq<Step>, w: Id, others: seq<Id>)
    requires IsRun(lap, clocks, events) && Inv(clocks[0]) && |steps| == |events|
    requires forall i :: 0 <= i < |steps| ==> CalmAt(lap, clocks, events, steps, i)
    requires SharesPositive(lap, clocks[0]) && Covers(clocks[0], w, others)
    requires RoundsHeld(steps) > TotalLead(clocks[0].time, others, clocks[0].time[w])
    ensures exists i :: 0 <= i < |steps| && w in Processed(steps[i])
  {
    forall i | 0 <= i < |events|
      ensures Calm(lap, clocks[i], events[i]) && (events[i].Rounded? <==> steps[i].Hold?)
    {
      assert CalmAt(lap, clocks, events, steps, i);
    }
    RoundsMatch(events, steps);
    NoStarvation(lap, clocks, events, w, others);
    var i :| 0 <= i < |events| && Processes(events[i], w);
    assert CalmAt(lap, clocks, events, steps, i);
    assert w in Processed(steps[i]);
  }

  lemma StartOnClock(cfg: Config, st: State, w: Id, others: seq<Id>)
    requires w in st.witnesses && forall id :: id in others <==> id in st.witnesses
    requires forall id :: id in st.witnesses ==> Share(cfg.lap, st.witnesses[id].votes) >= 1
    ensures SharesPositive(cfg.lap, At(st)) && Covers(At(st), w, others)
  {
  }
}
