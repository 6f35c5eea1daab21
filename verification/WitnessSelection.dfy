/** The phases of a scheduling round that choose witnesses and move the virtual clock. */
module WitnessSelection {
  import opened Collections
  import opened Words
  import opened Ordering
  import VersionTally
  import opened VirtualClock

  /** Account names, in their order; 0 is the empty name. */
  type Name = nat

  /** How a witness was scheduled the last time it was. */
  datatype Tag = Untagged | Top19 | Miner | Timeshare

  /** The chain properties a witness votes for. */
  datatype Props = Props(creationFee: int, blockSize: int, interestRate: int, subsidyLimit: int)

  datatype Witness = Witness(owner: Name, votes: nat, hasKey: bool, powWorker: nat, schedule: Tag,
                             position: uint128, lastUpdate: uint128, scheduledTime: uint128,
                             runningVersion: nat, vote: VersionTally.Proposal, props: Props)

  type Witnesses = map<Id, Witness>

  function Times(ws: Witnesses): map<Id, uint128> { map id | id in ws :: ws[id].scheduledTime }

  ghost function ClockOf(ws: Witnesses, now: uint128): Clock
  {
    Clock(map id | id in ws :: ws[id].votes, Times(ws), now)
  }

  /** Distinct members of the index that may sign blocks. */
  ghost predicate Eligible(ws: Witnesses, ids: seq<Id>)
  {
    Distinct(ids) && forall id :: id in ids ==> id in ws && ws[id].hasKey
  }

  ghost function WithTag(ws: Witnesses, ids: seq<Id>, tag: Tag): Witnesses
  {
    map id | id in ws :: if id in ids then ws[id].(schedule := tag) else ws[id]
  }

  lemma TagOneMore(ws: Witnesses, ids: seq<Id>, id: Id, tag: Tag)
    requires id in ws
    ensures WithTag(ws, ids, tag)[id := WithTag(ws, ids, tag)[id].(schedule := tag)] == WithTag(ws, ids + [id], tag)
  {
  }

  /** The witnesses among ids that may sign blocks and are not already taken, in the same order. */
  ghost function Keyed(ws: Witnesses, ids: seq<Id>, taken: seq<Id>): seq<Id>
  {
    if ids == [] then [] else
      var rest, id := Keyed(ws, ids[..|ids| - 1], taken), ids[|ids| - 1];
      if id in ws && ws[id].hasKey && id !in taken then rest + [id] else rest
  }

  lemma KeyedStep(ws: Witnesses, ids: seq<Id>, i: nat, taken: seq<Id>)
    requires i < |ids|
    ensures Keyed(ws, ids[..i + 1], taken) ==
      if ids[i] in ws && ws[ids[i]].hasKey && ids[i] !in taken
      then Keyed(ws, ids[..i], taken) + [ids[i]] else Keyed(ws, ids[..i], taken)
  {
    assert ids[..i + 1][..i] == ids[..i];
  }

  lemma {:induction false} KeyedSelects(ws: Witnesses, ids: seq<Id>, taken: seq<Id>)
    requires Distinct(ids)
    ensures Eligible(ws, Keyed(ws, ids, taken))
    ensures forall id :: id in Keyed(ws, ids, taken) <==> id in ids && id in ws && ws[id].hasKey && id !in taken
  {
    if ids != [] {
      var rest, last := ids[..|ids| - 1], ids[|ids| - 1];
      assert ids == rest + [last];
      KeyedSelects(ws, rest, taken);
    }
  }

  // ---------- the voted witnesses ----------

  /** More votes first, then the smaller name. */
  predicate RanksAtOrAbove(ws: Witnesses, a: Id, b: Id)
  {
    a in ws && b in ws && (ws[a].votes > ws[b].votes || (ws[a].votes == ws[b].votes && ws[a].owner <= ws[b].owner))
  }

  function ByRank(ws: Witnesses): (Id, Id) -> bool { (a: Id, b: Id) => RanksAtOrAbove(ws, a, b) }

  /** The group consists of keyed witnesses, and leaves one out only if it is full of witnesses ranking at or above
      it. */
  ghost predicate TopVoted(ws: Witnesses, limit: nat, voted: seq<Id>)
  {
    && Eligible(ws, voted) && |voted| <= limit
    && forall id :: id in ws && ws[id].hasKey && id !in voted ==>
      |voted| == limit && forall v :: v in voted ==> RanksAtOrAbove(ws, v, id)
  }

  /** Takes keyed witnesses from the vote index until the limit is reached. */
  method SelectVoted(ws: Witnesses, limit: nat) returns (ws': Witnesses, voted: seq<Id>)
    ensures TopVoted(ws, limit, voted)
    ensures ws' == WithTag(ws, voted, Top19)
  {
    var order := VoteIndex(ws);
    ghost var i;
    ws', voted, i := TakeVoted(ws, order, limit);
    VotedAreTop(ws, limit, order, i, voted);
  }

  method TakeVoted(ws: Witnesses, order: seq<Id>, limit: nat) returns (ws': Witnesses, voted: seq<Id>, ghost n: nat)
    requires forall i :: 0 <= i < |order| ==> order[i] in ws
    ensures n <= |order| && |voted| <= limit && (n == |order| || |voted| == limit)
    ensures voted == Keyed(ws, order[..n], []) && ws' == WithTag(ws, voted, Top19)
  {
    ws', voted := ws, [];
    var i := 0;
    while i < |order| && |voted| < limit
      invariant i <= |order| && |voted| <= limit
      invariant voted == Keyed(ws, order[..i], [])
      invariant ws' == WithTag(ws, voted, Top19)
    {
      var id := order[i];
      KeyedStep(ws, order, i, []);
      if ws[id].hasKey {
        TagOneMore(ws, voted, id, Top19);
        voted := voted + [id];
        ws' := ws'[id := ws'[id].(schedule := Top19)];
      }
      i := i + 1;
    }
    n := i;
  }

  method VoteIndex(ws: Witnesses) returns (order: seq<Id>)
    ensures Enumerates(order, ws.Keys, ByRank(ws)) && forall i :: 0 <= i < |order| ==> order[i] in ws
  {
    order := InOrder(ws.Keys, ByRank(ws));
  }

  lemma VotedAreTop(ws: Witnesses, limit: nat, order: seq<Id>, i: nat, voted: seq<Id>)
    requires Enumerates(order, ws.Keys, ByRank(ws)) && i <= |order| && voted == Keyed(ws, order[..i], [])
    requires |voted| <= limit && (i == |order| || |voted| == limit)
    ensures TopVoted(ws, limit, voted)
  {
    KeyedSelects(ws, order[..i], []);
    VotedRankHighest(ws, order, i, voted);
    if i == |order| {
      assert order[..i] == order;
    }
  }

  lemma VotedRankHighest(ws: Witnesses, order: seq<Id>, i: nat, voted: seq<Id>)
    requires Enumerates(order, ws.Keys, ByRank(ws)) && i <= |order|
    requires forall id :: id in voted <==> id in order[..i] && id in ws && ws[id].hasKey
    ensures forall id, v :: id in ws && ws[id].hasKey && id !in voted && v in voted ==> RanksAtOrAbove(ws, v, id)
  {
  }

  // ---------- the mining queue ----------

  function Waiting(ws: Witnesses): set<Id> { set id | id in ws && ws[id].powWorker > 0 }

  predicate EarlierWork(ws: Witnesses, a: Id, b: Id)
  {
    a in ws && b in ws && ws[a].powWorker <= ws[b].powWorker
  }

  function ByWork(ws: Witnesses): (Id, Id) -> bool { (a: Id, b: Id) => EarlierWork(ws, a, b) }

  /** The miners are tagged, and the witnesses looked at have left the mining queue. */
  ghost function Mined(ws: Witnesses, miners: seq<Id>, seen: seq<Id>): Witnesses
  {
    map id | id in ws :: ws[id].(schedule := if id in miners then Miner else ws[id].schedule,
                                 powWorker := if id in seen then 0 else ws[id].powWorker)
  }

  lemma MineOneMore(ws: Witnesses, queue: seq<Id>, i: nat, miners: seq<Id>, take: bool)
    requires i < |queue| && queue[i] in ws
    ensures
      var id, m := queue[i], Mined(ws, miners, queue[..i]);
      m[id := if take then m[id].(schedule := Miner, powWorker := 0) else m[id].(powWorker := 0)]
        == Mined(ws, if take then miners + [id] else miners, queue[..i + 1])
  {
  }

  method LeaveQueue(ws: Witnesses, id: Id, take: bool) returns (ws': Witnesses)
    requires id in ws
    ensures ws' == ws[id := if take then ws[id].(schedule := Miner, powWorker := 0) else ws[id].(powWorker := 0)]
  {
    ws' := ws;
    if take {
      ws' := ws'[id := ws'[id].(schedule := Miner)];
    }
    ws' := ws'[id := ws'[id].(powWorker := 0)];
  }

  /** Of the first so many waiting witnesses, oldest proof of work first, the miners are the keyed ones not among the
      voted; the queue was worked through until enough were found. */
  ghost predicate FirstMiners(ws: Witnesses, voted: seq<Id>, limit: nat, miners: seq<Id>, removed: nat, queue: seq<Id>)
  {
    && Enumerates(queue, Waiting(ws), ByWork(ws))
    && removed <= |queue| && (removed == |queue| || |miners| == limit)
    && Eligible(ws, miners) && |miners| <= limit
    && forall id :: id in miners <==> id in queue[..removed] && id in ws && ws[id].hasKey && id !in voted
  }

  /** Works through the mining queue, oldest proof of work first, until enough miners are found; every witness
      looked at leaves the queue. */
  method SelectMiners(ws: Witnesses, voted: seq<Id>, limit: nat)
    returns (ws': Witnesses, miners: seq<Id>, removed: nat, ghost queue: seq<Id>)
    ensures FirstMiners(ws, voted, limit, miners, removed, queue)
    ensures ws' == Mined(ws, miners, queue[..removed])
  {
    var order := MiningQueue(ws);
    queue := order;
    ws', miners, removed := TakeMiners(ws, order, voted, limit);
    KeyedSelects(ws, order[..removed], voted);
  }

  method MiningQueue(ws: Witnesses) returns (order: seq<Id>)
    ensures Enumerates(order, Waiting(ws), ByWork(ws)) && forall i :: 0 <= i < |order| ==> order[i] in ws
  {
    order := InOrder(Waiting(ws), ByWork(ws));
    assert forall i :: 0 <= i < |order| ==> order[i] in Waiting(ws);
  }

  method TakeMiners(ws: Witnesses, order: seq<Id>, voted: seq<Id>, limit: nat)
    returns (ws': Witnesses, miners: seq<Id>, removed: nat)
    requires forall i :: 0 <= i < |order| ==> order[i] in ws
    ensures removed <= |order| && |miners| <= limit && (removed == |order| || |miners| == limit)
    ensures miners == Keyed(ws, order[..removed], voted) && ws' == Mined(ws, miners, order[..removed])
  {
    ws', miners, removed := ws, [], 0;
    while removed < |order| && |miners| < limit
      invariant removed <= |order| && |miners| <= limit
      invariant miners == Keyed(ws, order[..removed], voted)
      invariant ws' == Mined(ws, miners, order[..removed])
    {
      var id := order[removed];
      var take := id !in voted && ws[id].hasKey;
      KeyedStep(ws, order, removed, voted);
      MineOneMore(ws, order, removed, miners, take);
      if take {
        miners := miners + [id];
      }
      ws' := LeaveQueue(ws', id, take);
      removed := removed + 1;
    }
  }

  // ---------- the timeshare witnesses ----------

  /** A prefix of the schedule index is processed, no longer than it takes to fill the round, and the chosen witnesses
      are the keyed ones in it that were not already taken. */
  ghost predicate IsWalk(ws: Witnesses, taken: seq<Id>, size: nat, processed: seq<Id>, chosen: seq<Id>, order: seq<Id>)
  {
    && IsScheduleOrder(Times(ws), order) && processed <= order
    && Eligible(ws, chosen)
    && (forall id :: id in chosen <==> id in processed && id in ws && ws[id].hasKey && id !in taken)
    && (|taken| + |chosen| <= size || chosen == [])
    && (processed == order || |taken| + |chosen| >= size)
    && (processed != [] && processed[|processed| - 1] !in chosen ==> |taken| + |chosen| < size)
    && (|taken| < size && ws != map[] ==> processed != [])
  }

  /** Walks the schedule index until the round is full. Everyone passed is processed; of these, the keyed witnesses
      not already taken fill the remaining slots. */
  method SelectTimeshare(ws: Witnesses, taken: seq<Id>, size: nat)
    returns (ws': Witnesses, processed: seq<Id>, chosen: seq<Id>, ghost order: seq<Id>)
    ensures IsWalk(ws, taken, size, processed, chosen, order)
    ensures ws' == WithTag(ws, chosen, Timeshare)
  {
    var index := ScheduleIndex(ws);
    order := index;
    ws', chosen := ws, [];
    var i, count := 0, |taken|;
    while i < |index| && count < size
      invariant i <= |index| && count == |taken| + |chosen| && (count <= size || chosen == [])
      invariant i == 0 ==> chosen == []
      invariant i > 0 && index[i - 1] !in chosen ==> count < size
      invariant chosen == Keyed(ws, index[..i], taken)
      invariant ws' == WithTag(ws, chosen, Timeshare)
    {
      var id := index[i];
      KeyedStep(ws, index, i, taken);
      i := i + 1;
      if ws[id].hasKey && id !in taken {
        TagOneMore(ws, chosen, id, Timeshare);
        chosen := chosen + [id];
        ws' := ws'[id := ws'[id].(schedule := Timeshare)];
        count := count + 1;
      }
    }
    processed := index[..i];
    WalkEnds(ws, taken, size, index, i, chosen);
  }

  lemma WalkEnds(ws: Witnesses, taken: seq<Id>, size: nat, index: seq<Id>, i: nat, chosen: seq<Id>)
    requires IsScheduleOrder(Times(ws), index) && i <= |index| && (ws != map[] ==> index != [])
    requires chosen == Keyed(ws, index[..i], taken) && (|taken| + |chosen| <= size || chosen == [])
    requires i > 0 && index[i - 1] !in chosen ==> |taken| + |chosen| < size
    requires i == |index| || |taken| + |chosen| >= size
    ensures IsWalk(ws, taken, size, index[..i], chosen, index)
  {
    KeyedSelects(ws, index[..i], taken);
    if i == 0 && |taken| < size {
      assert |index| == 0;
    }
  }

  method ScheduleIndex(ws: Witnesses) returns (index: seq<Id>)
    ensures IsScheduleOrder(Times(ws), index)
    ensures ws != map[] ==> index != []
  {
    var times := Times(ws);
    index := InOrder(ws.Keys, (a, b) => a in times && b in times && AtOrBefore(times, a, b));
    if ws != map[] {
      assert ws.Keys != {};
    }
  }

  // ---------- moving the clock ----------

  /** The witness restarts its lap at the given time. */
  function Rescheduled(w: Witness, at: uint128, time: uint128): Witness
  {
    w.(position := 0, lastUpdate := at, scheduledTime := time)
  }

  ghost function Advanced(lap: uint128, ws: Witnesses, at: uint128, ids: seq<Id>): Witnesses
  {
    map id | id in ws :: if id in ids then Rescheduled(ws[id], at, Wrap128(at + Share(lap, ws[id].votes))) else ws[id]
  }

  /** reset_virtual_schedule_time. */
  method ResetSchedule(lap: uint128, ws: Witnesses) returns (ws': Witnesses)
    ensures ws' == Restarted(lap, ws)
  {
    ws' := map id | id in ws :: Rescheduled(ws[id], 0, Share(lap, ws[id].votes));
  }

  /** Reschedules the processed witnesses after the new time, or restarts the whole schedule at the first overflow. */
  method Advance(lap: uint128, ws: Witnesses, now: uint128, processed: seq<Id>) returns (ws': Witnesses, now': uint128)
    requires forall id :: id in processed ==> id in ws
    ensures ClockOf(ws', now') == Round(lap, ClockOf(ws, now), processed)
    ensures SameStandings(ws, ws') && LapsAfter(lap, ws, now, processed, ws', now')
  {
    now' := if processed == [] then now else ws[processed[|processed| - 1]].scheduledTime;
    assert now' == NewNow(ClockOf(ws, now), processed);
    var reset;
    ws', reset := AdvanceProcessed(lap, ws, now', processed);
    if reset {
      ghost var late :| late in processed && !Fits(now', Share(lap, ws[late].votes));
      RestartedClock(lap, ws, ws', now, processed, late);
      RestartedStandings(lap, ws, ws');
      RestartedLaps(lap, ws, ws', now, processed, late);
      now' := 0;
      ws' := ResetSchedule(lap, ws');
    } else {
      AdvancedClock(lap, ws, now, processed);
      AdvancedLaps(lap, ws, now, processed);
    }
  }

  /** The processed witnesses start a new lap at the new virtual time, and all others are where they were in theirs;
      when the clock is reset, every witness starts a new lap at zero. */
  ghost predicate LapsAfter(lap: uint128, ws: Witnesses, now: uint128, processed: seq<Id>, ws': Witnesses,
                            now': uint128)
  {
    ws'.Keys == ws.Keys && forall id :: id in ws ==>
      if Overflows(lap, ClockOf(ws, now), processed) then
        now' == 0 && ws'[id].position == 0 && ws'[id].lastUpdate == 0
      else if id in processed then ws'[id].position == 0 && ws'[id].lastUpdate == now'
      else
        && ws'[id].position == ws[id].position && ws'[id].lastUpdate == ws[id].lastUpdate
        && ws'[id].scheduledTime == ws[id].scheduledTime
  }

  lemma RestartedLaps(lap: uint128, ws: Witnesses, ws': Witnesses, now: uint128, processed: seq<Id>, late: Id)
    requires SameStandings(ws, ws') && late in processed && late in ws
    requires !Fits(NewNow(ClockOf(ws, now), processed), Share(lap, ws[late].votes))
    ensures LapsAfter(lap, ws, now, processed, Restarted(lap, ws'), 0)
  {
    assert ClockOf(ws, now).votes[late] == ws[late].votes;
    assert Overflows(lap, ClockOf(ws, now), processed);
  }

  lemma AdvancedLaps(lap: uint128, ws: Witnesses, now: uint128, processed: seq<Id>)
    requires forall id :: id in processed ==> id in ws
    requires forall id :: id in processed ==> Fits(NewNow(ClockOf(ws, now), processed), Share(lap, ws[id].votes))
    ensures var at := NewNow(ClockOf(ws, now), processed);
      LapsAfter(lap, ws, now, processed, Advanced(lap, ws, at, processed), at)
  {
    assert !Overflows(lap, ClockOf(ws, now), processed);
  }

  /** The loop over the processed witnesses, which stops at the first overflow. */
  method AdvanceProcessed(lap: uint128, ws: Witnesses, at: uint128, processed: seq<Id>)
    returns (ws': Witnesses, reset: bool)
    requires forall id :: id in processed ==> id in ws
    ensures SameStandings(ws, ws')
    ensures !reset ==> ws' == Advanced(lap, ws, at, processed)
    ensures reset <==> exists id :: id in processed && !Fits(at, Share(lap, ws[id].votes))
  {
    ws', reset := ws, false;
    for i := 0 to |processed|
      invariant ws' == Advanced(lap, ws, at, processed[..i])
      invariant forall id :: id in processed[..i] ==> Fits(at, Share(lap, ws[id].votes))
    {
      var id := processed[i];
      var time := Wrap128(at + Share(lap, ws[id].votes));
      WrapDetectsOverflow(at, Share(lap, ws[id].votes));
      if time < at {
        reset := true;
        return;
      }
      AdvanceOneMore(lap, ws, at, processed, i);
      assert processed[..i + 1] == processed[..i] + [id];
      ws' := ws'[id := Rescheduled(ws'[id], at, time)];
    }
    assert processed[..|processed|] == processed;
  }

  /** The whole schedule restarted from zero. */
  ghost function Restarted(lap: uint128, ws: Witnesses): Witnesses
  {
    map id | id in ws :: Rescheduled(ws[id], 0, Share(lap, ws[id].votes))
  }

  lemma RestartedStandings(lap: uint128, ws: Witnesses, ws': Witnesses)
    requires SameStandings(ws, ws')
    ensures SameStandings(ws, Restarted(lap, ws'))
  {
  }

  lemma RestartedClock(lap: uint128, ws: Witnesses, ws': Witnesses, now: uint128, processed: seq<Id>, late: Id)
    requires SameStandings(ws, ws') && late in processed && late in ws
    requires !Fits(NewNow(ClockOf(ws, now), processed), Share(lap, ws[late].votes))
    ensures ClockOf(Restarted(lap, ws'), 0) == Round(lap, ClockOf(ws, now), processed)
  {
    var c := ClockOf(ws, now);
    assert c.votes[late] == ws[late].votes;
    assert Overflows(lap, c, processed);
    var c' := ClockOf(Restarted(lap, ws'), 0);
    assert c'.votes == c.votes;
    assert c'.time == Round(lap, c, processed).time;
  }

  ghost predicate SameStandings(ws: Witnesses, ws': Witnesses)
  {
    ws'.Keys == ws.Keys && forall id :: id in ws ==> SameStanding(ws[id], ws'[id])
  }

  /** Nothing but the clock fields changes. */
  ghost predicate SameStanding(w: Witness, w': Witness)
  {
    w' == w.(position := w'.position, lastUpdate := w'.lastUpdate, scheduledTime := w'.scheduledTime)
  }

  ghost predicate Fits(a: uint128, b: uint128) { a + b < 0x1_0000_0000_0000_0000_0000_0000_0000_0000 }

  lemma WrapDetectsOverflow(a: uint128, b: uint128)
    ensures Wrap128(a + b) < a <==> !Fits(a, b)
    ensures Fits(a, b) ==> Wrap128(a + b) == a + b
  {
  }

  lemma AdvanceOneMore(lap: uint128, ws: Witnesses, at: uint128, ids: seq<Id>, i: nat)
    requires i < |ids| && ids[i] in ws
    ensures
      var id, a := ids[i], Advanced(lap, ws, at, ids[..i]);
      a[id := Rescheduled(a[id], at, Wrap128(at + Share(lap, ws[id].votes)))] == Advanced(lap, ws, at, ids[..i + 1])
  {
  }

  lemma AdvancedClock(lap: uint128, ws: Witnesses, now: uint128, processed: seq<Id>)
    requires forall id :: id in processed ==> id in ws
    requires forall id :: id in processed ==> Fits(NewNow(ClockOf(ws, now), processed), Share(lap, ws[id].votes))
    ensures var at := NewNow(ClockOf(ws, now), processed);
      ClockOf(Advanced(lap, ws, at, processed), at) == Round(lap, ClockOf(ws, now), processed)
  {
  }
}
