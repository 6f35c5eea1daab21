/** The virtual clock of the witness scheduler, on values: what one round does to the scheduled times, what every
    run keeps, and why no witness waits for ever. */
module VirtualClock {
  import opened Words

  type Id = nat

  datatype Clock = Clock(votes: map<Id, nat>, time: map<Id, uint128>, now: uint128)

  /** Every witness is scheduled at or after the current virtual time. */
  ghost predicate Inv(c: Clock)
  {
    c.votes.Keys == c.time.Keys && forall id :: id in c.time ==> c.time[id] >= c.now
  }

  /** The schedule index orders by scheduled time, then by id. */
  predicate AtOrBefore(time: map<Id, uint128>, a: Id, b: Id)
    requires a in time && b in time
  {
    time[a] < time[b] || (time[a] == time[b] && a <= b)
  }

  ghost predicate IsScheduleOrder(time: map<Id, uint128>, order: seq<Id>)
  {
    && (forall i :: 0 <= i < |order| ==> order[i] in time)
    && (forall id :: id in time ==> id in order)
    && (forall i, j :: 0 <= i < j < |order| ==> order[i] != order[j] && AtOrBefore(time, order[i], order[j]))
  }

  /** The virtual distance a witness covers per lap. */
  function Share(lap: uint128, votes: nat): (s: uint128)
  {
    ShareFits(lap, votes + 1);
    lap / (votes + 1)
  }

  lemma ShareFits(lap: nat, v: int)
    requires v > 0
    ensures 0 <= lap / v <= lap
  {
    MulMonotone(1, v, lap / v);
    assert lap == lap / v * v + lap % v;
  }

  /** Everyone advances to the time of the last witness processed. */
  function NewNow(c: Clock, processed: seq<Id>): uint128
  {
    if processed != [] && processed[|processed| - 1] in c.time then c.time[processed[|processed| - 1]] else c.now
  }

  ghost predicate Overflows(lap: uint128, c: Clock, processed: seq<Id>)
  {
    exists id :: id in processed && id in c.votes
      && NewNow(c, processed) + Share(lap, c.votes[id]) >= 0x1_0000_0000_0000_0000_0000_0000_0000_0000
  }

  /** One round that processed the given witnesses: they are rescheduled one lap share after the new time; if any of
      these times overflows, the whole clock restarts from zero. */
  ghost function Round(lap: uint128, c: Clock, processed: seq<Id>): Clock
    requires c.votes.Keys == c.time.Keys
  {
    if Overflows(lap, c, processed) then
      Clock(c.votes, map id | id in c.time :: Share(lap, c.votes[id]), 0)
    else
      Clock(c.votes,
            map id | id in c.time ::
              if id in processed then NewNow(c, processed) + Share(lap, c.votes[id]) else c.time[id],
            NewNow(c, processed))
  }

  // ---------- what a round is ----------

  /** At the speed of the votes the distance is covered in that many whole units of time, and not in one more. */
  ghost predicate CoveredIn(distance: nat, votes: nat, time: int)
  {
    time * (votes + 1) <= distance < (time + 1) * (votes + 1)
  }

  /** The distance is not covered before the end of time. */
  ghost predicate BeyondEnd(distance: nat, votes: nat, now: uint128)
  {
    distance >= (0x1_0000_0000_0000_0000_0000_0000_0000_0000 - now) * (votes + 1)
  }

  lemma ShareCovers(distance: uint128, votes: nat, now: uint128)
    ensures CoveredIn(distance, votes, Share(distance, votes))
    ensures BeyondEnd(distance, votes, now) <==>
      now + Share(distance, votes) >= 0x1_0000_0000_0000_0000_0000_0000_0000_0000
  {
    var t, v := Share(distance, votes), votes + 1;
    var left := 0x1_0000_0000_0000_0000_0000_0000_0000_0000 - now;
    assert distance == distance / v * v + distance % v;
    MulDistributes(t, 1, v);
    if t < left {
      MulMonotone(t + 1, left, v);
    } else {
      MulMonotone(left, t, v);
    }
  }

  /** The clock goes to the scheduled time of the last witness processed, and each of those processed is scheduled one
      lap later at its speed; if one of them does not finish before the end of time, the clock restarts at zero with a
      lap ahead of everyone. */
  ghost predicate IsRescheduled(lap: uint128, c: Clock, processed: seq<Id>, c': Clock)
    requires c.votes.Keys == c.time.Keys && forall id :: id in processed ==> id in c.time
  {
    var now := if |processed| == 0 then c.now else c.time[processed[|processed| - 1]];
    && c'.votes == c.votes && c'.time.Keys == c.time.Keys
    && if exists id :: id in processed && BeyondEnd(lap, c.votes[id], now) then
         c'.now == 0 && forall id :: id in c.time ==> CoveredIn(lap, c.votes[id], c'.time[id])
       else
         && c'.now == now
         && forall id :: id in c.time ==>
           if id in processed then CoveredIn(lap, c.votes[id], c'.time[id] - now) else c'.time[id] == c.time[id]
  }

  lemma RoundReschedules(lap: uint128, c: Clock, processed: seq<Id>)
    requires c.votes.Keys == c.time.Keys && forall id :: id in processed ==> id in c.time
    ensures IsRescheduled(lap, c, processed, Round(lap, c, processed))
  {
    var now := NewNow(c, processed);
    forall id | id in c.time
      ensures CoveredIn(lap, c.votes[id], Share(lap, c.votes[id]))
      ensures BeyondEnd(lap, c.votes[id], now) <==>
        now + Share(lap, c.votes[id]) >= 0x1_0000_0000_0000_0000_0000_0000_0000_0000
    {
      ShareCovers(lap, c.votes[id], now);
    }
    RoundFromShares(lap, c, processed, now);
  }

  lemma RoundFromShares(lap: uint128, c: Clock, processed: seq<Id>, now: uint128)
    requires c.votes.Keys == c.time.Keys && now == NewNow(c, processed)
    requires forall id :: id in processed ==> id in c.time
    requires forall id :: id in c.time ==> CoveredIn(lap, c.votes[id], Share(lap, c.votes[id]))
    requires forall id :: id in c.time ==>
      (BeyondEnd(lap, c.votes[id], now) <==>
        now + Share(lap, c.votes[id]) >= 0x1_0000_0000_0000_0000_0000_0000_0000_0000)
    ensures IsRescheduled(lap, c, processed, Round(lap, c, processed))
  {
    if processed != [] {
      assert processed[|processed| - 1] in processed;
    }
  }

  /** A round keeps the invariant, also when it overflows midway, and moves the clock forward unless it resets it. */
  lemma RoundKeepsInv(lap: uint128, c: Clock, order: seq<Id>, k: nat)
    requires Inv(c) && IsScheduleOrder(c.time, order) && k <= |order|
    ensures var c' := Round(lap, c, order[..k]);
      Inv(c') && if Overflows(lap, c, order[..k]) then c'.now == 0 else c'.now >= c.now
  {
  }

  // ---------- runs ----------

  /** What happens to the clock: a round over a prefix of the schedule order, a change of one witness's votes with
      the time it is rescheduled to, or a new witness. */
  datatype Event =
    | Rounded(order: seq<Id>, processed: nat)
    | Voted(id: Id, votes: nat, time: uint128)
    | Joined(id: Id)

  ghost predicate Legal(c: Clock, e: Event)
  {
    match e
    case Rounded(order, k) => IsScheduleOrder(c.time, order) && k <= |order|
    case Voted(id, votes, time) => id in c.time && time >= c.now
    case Joined(id) => id !in c.time
  }

  ghost function Apply(lap: uint128, c: Clock, e: Event): Clock
    requires c.votes.Keys == c.time.Keys && Legal(c, e)
  {
    match e
    case Rounded(order, k) => Round(lap, c, order[..k])
    case Voted(id, votes, time) => Clock(c.votes[id := votes], c.time[id := time], c.now)
    case Joined(id) => Clock(c.votes[id := 0], c.time[id := 0xFFFF_FFFF_FFFF_FFFF_FFFF_FFFF_FFFF_FFFF], c.now)
  }

  ghost predicate Resets(lap: uint128, c: Clock, e: Event)
  {
    e.Rounded? && e.processed <= |e.order| && Overflows(lap, c, e.order[..e.processed])
  }

  /** A run: consecutive clocks are related by legal events. */
  ghost predicate IsRun(lap: uint128, clocks: seq<Clock>, events: seq<Event>)
  {
    && |clocks| == |events| + 1
    && forall i :: 0 <= i < |events| ==>
      && clocks[i].votes.Keys == clocks[i].time.Keys
      && Legal(clocks[i], events[i])
      && clocks[i + 1] == Apply(lap, clocks[i], events[i])
  }

  lemma EventKeepsInv(lap: uint128, c: Clock, e: Event)
    requires Inv(c) && Legal(c, e)
    ensures var c' := Apply(lap, c, e);
      Inv(c') && if Resets(lap, c, e) then c'.now == 0 else c'.now >= c.now
  {
    if e.Rounded? {
      RoundKeepsInv(lap, c, e.order, e.processed);
    }
  }

  lemma {:induction false} RunKeepsInv(lap: uint128, clocks: seq<Clock>, events: seq<Event>, n: nat)
    requires IsRun(lap, clocks, events) && Inv(clocks[0]) && n < |clocks|
    ensures Inv(clocks[n])
  {
    if n > 0 {
      RunKeepsInv(lap, clocks, events, n - 1);
      EventKeepsInv(lap, clocks[n - 1], events[n - 1]);
    }
  }

  /** Over any run the clock goes backwards only by a reset: between two points without one it never decreases. */
  lemma {:induction false} ClockNeverGoesBack(lap: uint128, clocks: seq<Clock>, events: seq<Event>, i: nat, j: nat)
    requires IsRun(lap, clocks, events) && Inv(clocks[0]) && i <= j < |clocks|
    requires forall n :: i <= n < j ==> !Resets(lap, clocks[n], events[n])
    ensures clocks[i].now <= clocks[j].now
    decreases j - i
  {
    if i < j {
      ClockNeverGoesBack(lap, clocks, events, i, j - 1);
      RunKeepsInv(lap, clocks, events, j - 1);
      EventKeepsInv(lap, clocks[j - 1], events[j - 1]);
    }
  }

  // ---------- no starvation ----------

  /** How much earlier than just past time t a witness is scheduled. */
  ghost function Lead(time: map<Id, uint128>, id: Id, t: int): nat
  {
    if id in time && time[id] <= t then t + 1 - time[id] else 0
  }

  ghost function TotalLead(time: map<Id, uint128>, ids: seq<Id>, t: int): nat
  {
    if ids == [] then 0 else TotalLead(time, ids[..|ids| - 1], t) + Lead(time, ids[|ids| - 1], t)
  }

  lemma {:induction false} TotalLeadMonotone(time: map<Id, uint128>, time': map<Id, uint128>, ids: seq<Id>, t: int)
    requires forall id :: id in ids ==> Lead(time', id, t) <= Lead(time, id, t)
    ensures TotalLead(time', ids, t) <= TotalLead(time, ids, t)
    ensures (exists id :: id in ids && Lead(time', id, t) < Lead(time, id, t)) ==>
      TotalLead(time', ids, t) < TotalLead(time, ids, t)
  {
    if ids != [] {
      var rest, last := ids[..|ids| - 1], ids[|ids| - 1];
      assert forall id :: id in rest ==> id in ids;
      assert last in ids;
      assert forall id :: id in ids ==> id in rest || id == last;
      TotalLeadMonotone(time, time', rest, t);
    }
  }

  ghost predicate SharesPositive(lap: uint128, c: Clock) { forall id :: id in c.votes ==> Share(lap, c.votes[id]) >= 1 }

  /** Every witness but w is one of the others, or still waits where newcomers start, at the end of time. */
  ghost predicate Covers(c: Clock, w: Id, others: seq<Id>)
  {
    && w in c.time && (forall id :: id in others ==> id in c.time)
    && forall id :: id in c.time && id != w && id !in others ==> c.time[id] == 0xFFFF_FFFF_FFFF_FFFF_FFFF_FFFF_FFFF_FFFF
  }

  /** A witness at the end of time cannot be processed without resetting the clock. */
  lemma NewcomersWait(lap: uint128, c: Clock, order: seq<Id>, k: nat, w: Id, id: Id)
    requires Inv(c) && IsScheduleOrder(c.time, order) && 0 < k <= |order| && w in c.time && w !in order[..k]
    requires !Overflows(lap, c, order[..k]) && SharesPositive(lap, c)
    requires id in c.time && c.time[id] == 0xFFFF_FFFF_FFFF_FFFF_FFFF_FFFF_FFFF_FFFF
    ensures id !in order[..k]
  {
    ProcessedAreEarly(c.time, order, k, w);
  }

  /** A round without reset that processes someone but not w brings w strictly closer: the total lead that others have
      over w's scheduled time decreases, and w keeps its time. */
  lemma RoundReducesLead(lap: uint128, c: Clock, order: seq<Id>, k: nat, w: Id, others: seq<Id>)
    requires Inv(c) && IsScheduleOrder(c.time, order) && 0 < k <= |order|
    requires !Overflows(lap, c, order[..k]) && SharesPositive(lap, c)
    requires Covers(c, w, others) && w !in order[..k]
    ensures var c' := Round(lap, c, order[..k]);
      c'.time[w] == c.time[w] && TotalLead(c'.time, others, c.time[w]) < TotalLead(c.time, others, c.time[w])
  {
    var processed, t := order[..k], c.time[w];
    var c' := Round(lap, c, processed);
    ProcessedAreEarly(c.time, order, k, w);
    LeadsNeverGrow(lap, c, processed, others, t);
    assert order[0] == processed[0];
    FirstIsAnOther(lap, c, order, k, w, others);
    LeadFalls(lap, c, processed, order[0], t);
    TotalLeadMonotone(c.time, c'.time, others, t);
  }

  lemma LeadsNeverGrow(lap: uint128, c: Clock, processed: seq<Id>, others: seq<Id>, t: uint128)
    requires Inv(c) && !Overflows(lap, c, processed)
    requires forall id :: id in processed ==> id in c.time && c.time[id] <= NewNow(c, processed)
    ensures forall id :: id in others ==> Lead(Round(lap, c, processed).time, id, t) <= Lead(c.time, id, t)
  {
  }

  lemma LeadFalls(lap: uint128, c: Clock, processed: seq<Id>, id: Id, t: uint128)
    requires Inv(c) && !Overflows(lap, c, processed) && SharesPositive(lap, c)
    requires id in processed && id in c.time && c.time[id] <= NewNow(c, processed) <= t
    ensures Lead(Round(lap, c, processed).time, id, t) < Lead(c.time, id, t)
  {
  }

  lemma FirstIsAnOther(lap: uint128, c: Clock, order: seq<Id>, k: nat, w: Id, others: seq<Id>)
    requires Inv(c) && IsScheduleOrder(c.time, order) && 0 < k <= |order|
    requires !Overflows(lap, c, order[..k]) && SharesPositive(lap, c)
    requires Covers(c, w, others) && w !in order[..k]
    ensures order[0] in others
  {
    assert order[..k][0] == order[0];
    if order[0] !in others {
      NewcomersWait(lap, c, order, k, w, order[0]);
    }
  }

  /** The processed witnesses are scheduled no later than the last of them, which is no later than w. */
  lemma ProcessedAreEarly(time: map<Id, uint128>, order: seq<Id>, k: nat, w: Id)
    requires IsScheduleOrder(time, order) && 0 < k <= |order| && w in time && w !in order[..k]
    ensures order[k - 1] in time && time[order[k - 1]] <= time[w]
    ensures forall id :: id in order[..k] ==> id in time && time[id] <= time[order[k - 1]]
  {
  }

  /** A round that processes someone and does not reset, a new witness, or an edit that leaves votes and time alone. */
  ghost predicate Calm(lap: uint128, c: Clock, e: Event)
  {
    match e
    case Rounded(order, k) => k > 0 && !Resets(lap, c, e)
    case Joined(_) => true
    case Voted(id, votes, time) => id in c.votes && id in c.time && votes == c.votes[id] && time == c.time[id]
  }

  ghost function Rounds(events: seq<Event>): nat
  {
    if events == [] then 0 else (if events[0].Rounded? then 1 else 0) + Rounds(events[1..])
  }

  ghost predicate Processes(e: Event, w: Id) { e.Rounded? && e.processed <= |e.order| && w in e.order[..e.processed] }

  lemma CalmRound(lap: uint128, c: Clock, e: Event, w: Id, others: seq<Id>)
    requires Inv(c) && Legal(c, e) && Calm(lap, c, e) && e.Rounded? && !Processes(e, w)
    requires SharesPositive(lap, c) && Covers(c, w, others)
    ensures var c' := Apply(lap, c, e);
      && SharesPositive(lap, c') && Covers(c', w, others) && c'.time[w] == c.time[w]
      && TotalLead(c'.time, others, c.time[w]) < TotalLead(c.time, others, c.time[w])
  {
    RoundReducesLead(lap, c, e.order, e.processed, w, others);
    forall id | id in c.time && id != w && id !in others
      ensures id !in e.order[..e.processed]
    {
      NewcomersWait(lap, c, e.order, e.processed, w, id);
    }
  }

  lemma CalmOther(lap: uint128, c: Clock, e: Event, w: Id, others: seq<Id>)
    requires Inv(c) && Legal(c, e) && Calm(lap, c, e) && !e.Rounded?
    requires SharesPositive(lap, c) && Covers(c, w, others)
    ensures var c' := Apply(lap, c, e);
      && SharesPositive(lap, c') && Covers(c', w, others) && c'.time[w] == c.time[w]
      && TotalLead(c'.time, others, c.time[w]) <= TotalLead(c.time, others, c.time[w])
  {
    ShareFits(lap, c.votes[w] + 1);
    ShareFits(lap, 1);
    assert lap / 1 == lap;
    TotalLeadMonotone(c.time, Apply(lap, c, e).time, others, c.time[w]);
  }

  /** No starvation: in any run of rounds without reset, each processing at least one witness, with witnesses joining
      and being edited in between, a witness w is processed before the total lead of the others over it is used up. */
  lemma {:induction false} NoStarvation(lap: uint128, clocks: seq<Clock>, events: seq<Event>, w: Id, others: seq<Id>)
    requires IsRun(lap, clocks, events) && Inv(clocks[0])
    requires forall i :: 0 <= i < |events| ==> Calm(lap, clocks[i], events[i])
    requires SharesPositive(lap, clocks[0]) && Covers(clocks[0], w, others)
    requires Rounds(events) > TotalLead(clocks[0].time, others, clocks[0].time[w])
    ensures exists i :: 0 <= i < |events| && Processes(events[i], w)
    decreases |events|
  {
    var c, e := clocks[0], events[0];
    if Processes(e, w) {
      return;
    }
    if e.Rounded? {
      CalmRound(lap, c, e, w, others);
    } else {
      CalmOther(lap, c, e, w, others);
    }
    EventKeepsInv(lap, c, e);
    var later, rest := clocks[1..], events[1..];
    assert forall i :: 0 <= i < |rest| ==> rest[i] == events[i + 1];
    assert forall i :: 0 <= i < |later| ==> later[i] == clocks[i + 1];
    NoStarvation(lap, later, rest, w, others);
    var i :| 0 <= i < |rest| && Processes(rest[i], w);
    assert events[i + 1] == rest[i];
  }

  /** The lap length of the chain is the largest 128-bit number, so every share of a signed 64-bit vote is positive. */
  lemma FullLapSharesArePositive(votes: nat)
    requires votes < 0x8000_0000_0000_0000
    ensures Share(0xFFFF_FFFF_FFFF_FFFF_FFFF_FFFF_FFFF_FFFF, votes) >= 1
  {
  }
}
