/** One scheduling round: selection, virtual clock, majority version, hardfork vote, shuffle and medians. */
module WitnessSchedule {
  import opened Collections
  import opened Words
  import opened Ordering
  import opened VirtualClock
  import opened WitnessSelection

  /** The limits and weights of the schedule object; the voted and mining limits leave the round size unexceeded. */
  datatype Config = Config(size: nat, maxVoted: nat, maxMiners: nat, top19Weight: nat, minerWeight: nat,
                           timeshareWeight: nat, hardforkRequired: nat, lap: uint128)
  {
    predicate Valid() { 1 <= size <= 255 && maxVoted + maxMiners <= size }

    function Weight(tag: Tag): nat
    {
      match tag case Top19 => top19Weight case Miner => minerWeight case Timeshare => timeshareWeight case Untagged => 0
    }
  }

  function Min(a: nat, b: nat): nat { if a <= b then a else b }

  function KeyedSet(ws: Witnesses): set<Id> { set id | id in ws && ws[id].hasKey }

  /** Nothing but the schedule tag and the place in the mining queue changes. */
  ghost predicate SameButTags(ws: Witnesses, ws': Witnesses)
  {
    ws'.Keys == ws.Keys && forall id :: id in ws ==>
      ws'[id] == ws[id].(schedule := ws'[id].schedule, powWorker := ws'[id].powWorker)
  }

  ghost function Owners(ws: Witnesses, ids: seq<Id>): seq<Name>
    requires forall id :: id in ids ==> id in ws
  {
    seq(|ids|, i requires 0 <= i < |ids| => ws[ids[i]].owner)
  }

  ghost predicate AllTagged(ws: Witnesses, ids: seq<Id>, tag: Tag)
  {
    forall id :: id in ids ==> id in ws && ws[id].schedule == tag
  }

  ghost function SumOfWeights(cfg: Config, ws: Witnesses, ids: seq<Id>): nat
    requires forall id :: id in ids ==> id in ws
  {
    if ids == [] then 0
    else SumOfWeights(cfg, ws, ids[..|ids| - 1]) + cfg.Weight(ws[ids[|ids| - 1]].schedule)
  }

  lemma {:induction false} SumOfWeightsSplits(cfg: Config, ws: Witnesses, a: seq<Id>, b: seq<Id>, tag: Tag)
    requires (forall id :: id in a ==> id in ws) && AllTagged(ws, b, tag)
    requires forall id :: id in a + b ==> id in ws
    ensures SumOfWeights(cfg, ws, a + b) == SumOfWeights(cfg, ws, a) + |b| * cfg.Weight(tag)
    decreases |b|
  {
    if b == [] {
      assert a + b == a;
    } else {
      var rest, last := b[..|b| - 1], b[|b| - 1];
      assert (a + b)[..|a + b| - 1] == a + rest && (a + b)[|a + b| - 1] == last;
      assert forall id :: id in rest ==> id in b;
      assert forall id :: id in a + rest ==> id in a + b;
      SumOfWeightsSplits(cfg, ws, a, rest, tag);
      MulDistributes(|rest|, 1, cfg.Weight(tag));
    }
  }

  /** A selection that is either exhaustive or fills the round has the expected size. */
  lemma ActiveCount(ws: Witnesses, active: seq<Id>, size: nat)
    requires Eligible(ws, active) && |active| <= size
    requires |active| == size || forall id :: id in KeyedSet(ws) ==> id in active
    ensures |active| == Min(size, |KeyedSet(ws)|)
  {
    var s := SetOf(active);
    SetOfSize(active);
    SubsetSize(s, KeyedSet(ws));
    if forall id :: id in KeyedSet(ws) ==> id in active {
      assert s == KeyedSet(ws);
    }
  }

  datatype Selection = Selection(voted: seq<Id>, miners: seq<Id>, chosen: seq<Id>, processed: seq<Id>, removed: nat)
  {
    function Active(): seq<Id> { voted + miners + chosen }
  }

  /** What the three selection phases together guarantee. */
  ghost predicate IsSelection(cfg: Config, ws: Witnesses, ws': Witnesses, s: Selection, order: seq<Id>)
  {
    && SameButTags(ws, ws')
    && Eligible(ws, s.Active()) && |s.Active()| == Min(cfg.size, |KeyedSet(ws)|)
    && AllTagged(ws', s.voted, Top19) && AllTagged(ws', s.miners, Miner) && AllTagged(ws', s.chosen, Timeshare)
    && IsWalk(ws, s.voted + s.miners, cfg.size, s.processed, s.chosen, order)
    && |Waiting(ws')| == |Waiting(ws)| - s.removed
  }

  /** The three phases tag disjoint groups of witnesses and touch nothing else. */
  lemma PhasesTag(ws: Witnesses, voted: seq<Id>, miners: seq<Id>, seen: seq<Id>, chosen: seq<Id>)
    requires Eligible(ws, voted) && Eligible(ws, miners) && Eligible(ws, chosen)
    requires forall id :: id in miners ==> id !in voted
    requires forall id :: id in chosen ==> id !in voted + miners
    ensures var ws' := WithTag(Mined(WithTag(ws, voted, Top19), miners, seen), chosen, Timeshare);
      && SameButTags(ws, ws')
      && AllTagged(ws', voted, Top19) && AllTagged(ws', miners, Miner) && AllTagged(ws', chosen, Timeshare)
  {
  }

  lemma GroupsCombine(ws: Witnesses, voted: seq<Id>, miners: seq<Id>, chosen: seq<Id>)
    requires Eligible(ws, voted) && Eligible(ws, miners) && Eligible(ws, chosen)
    requires forall id :: id in miners ==> id !in voted
    requires forall id :: id in chosen ==> id !in voted + miners
    ensures Eligible(ws, voted + miners + chosen)
  {
    DistinctConcat(voted, miners);
    DistinctConcat(voted + miners, chosen);
  }

  /** If the walk over the schedule index reached its end, every keyed witness was taken. */
  lemma WalkExhausts(ws: Witnesses, order: seq<Id>, taken: seq<Id>, chosen: seq<Id>)
    requires IsScheduleOrder(Times(ws), order)
    requires forall id :: id in chosen <==> id in order && id in ws && ws[id].hasKey && id !in taken
    ensures forall id :: id in KeyedSet(ws) ==> id in taken + chosen
  {
  }

  lemma TagsKeepKeys(ws: Witnesses, voted: seq<Id>, miners: seq<Id>, seen: seq<Id>)
    ensures var ws2 := Mined(WithTag(ws, voted, Top19), miners, seen);
      Times(ws2) == Times(ws) && ws2.Keys == ws.Keys && forall id :: id in ws ==> ws2[id].hasKey == ws[id].hasKey
  {
  }

  /** The queue shrinks by exactly the witnesses looked at. */
  lemma QueueShrinks(ws: Witnesses, ws': Witnesses, queue: seq<Id>, removed: nat)
    requires Enumerates(queue, Waiting(ws), ByWork(ws)) && removed <= |queue|
    requires ws'.Keys == ws.Keys
    requires forall id :: id in ws ==> ws'[id].powWorker == if id in queue[..removed] then 0 else ws[id].powWorker
    ensures |Waiting(ws')| == |Waiting(ws)| - removed
  {
    var seen := queue[..removed];
    SetOfSize(seen);
    var gone := SetOf(seen);
    assert gone <= Waiting(ws);
    assert Waiting(ws') == Waiting(ws) - gone;
  }

  method SelectActive(cfg: Config, ws: Witnesses)
    returns (ws': Witnesses, s: Selection, ghost order: seq<Id>, ghost queue: seq<Id>)
    requires cfg.Valid()
    ensures TopVoted(ws, cfg.maxVoted, s.voted)
    ensures FirstMiners(ws, s.voted, cfg.maxMiners, s.miners, s.removed, queue)
    ensures IsSelection(cfg, ws, ws', s, order) && TagsFollow(ws, ws', s, queue)
  {
    var ws1, ws2, voted, miners, chosen, processed, removed;
    ws1, voted := SelectVoted(ws, cfg.maxVoted);
    ws2, miners, removed, queue := SelectMiners(ws1, voted, cfg.maxMiners);
    ws', processed, chosen, order := SelectTimeshare(ws2, voted + miners, cfg.size);
    s := Selection(voted, miners, chosen, processed, removed);
    SameQueue(ws, voted, cfg.maxMiners, miners, removed, queue);
    FinishSelection(cfg, ws, s, order, queue);
    PhasesFollow(ws, s, queue);
  }

  /** Each group carries its tag, and all others keep theirs; the witnesses looked at have left the mining queue, and
      all others are where they were in it. */
  ghost predicate TagsFollow(ws: Witnesses, ws': Witnesses, s: Selection, queue: seq<Id>)
  {
    && s.removed <= |queue| && ws'.Keys == ws.Keys
    && forall id :: id in ws ==>
      && ws'[id].powWorker == (if id in queue[..s.removed] then 0 else ws[id].powWorker)
      && ws'[id].schedule == if id in s.voted then Top19 else if id in s.miners then Miner
                             else if id in s.chosen then Timeshare else ws[id].schedule
  }

  lemma PhasesFollow(ws: Witnesses, s: Selection, queue: seq<Id>)
    requires s.removed <= |queue| && Distinct(s.Active()) && forall id :: id in s.miners ==> id !in s.voted
    ensures TagsFollow(ws, WithTag(BeforeWalk(ws, s, queue), s.chosen, Timeshare), s, queue)
  {
    assert forall i :: 0 <= i < |s.voted| ==> s.Active()[i] == s.voted[i];
    assert forall i :: 0 <= i < |s.miners| ==> s.Active()[|s.voted| + i] == s.miners[i];
    assert forall i :: 0 <= i < |s.chosen| ==> s.Active()[|s.voted| + |s.miners| + i] == s.chosen[i];
  }

  /** Tagging the voted witnesses does not disturb the mining queue. */
  lemma SameQueue(ws: Witnesses, voted: seq<Id>, limit: nat, miners: seq<Id>, removed: nat, queue: seq<Id>)
    requires FirstMiners(WithTag(ws, voted, Top19), voted, limit, miners, removed, queue)
    ensures FirstMiners(ws, voted, limit, miners, removed, queue)
  {
  }

  /** The witnesses after the voted and mining phases. */
  ghost function BeforeWalk(ws: Witnesses, s: Selection, queue: seq<Id>): Witnesses
    requires s.removed <= |queue|
  {
    Mined(WithTag(ws, s.voted, Top19), s.miners, queue[..s.removed])
  }

  lemma FinishSelection(cfg: Config, ws: Witnesses, s: Selection, order: seq<Id>, queue: seq<Id>)
    requires cfg.Valid() && TopVoted(ws, cfg.maxVoted, s.voted)
    requires FirstMiners(ws, s.voted, cfg.maxMiners, s.miners, s.removed, queue)
    requires IsWalk(BeforeWalk(ws, s, queue), s.voted + s.miners, cfg.size, s.processed, s.chosen, order)
    ensures IsSelection(cfg, ws, WithTag(BeforeWalk(ws, s, queue), s.chosen, Timeshare), s, order)
  {
    var seen, ws2 := queue[..s.removed], BeforeWalk(ws, s, queue);
    TagsKeepKeys(ws, s.voted, s.miners, seen);
    WalkTransfers(ws, ws2, s.voted + s.miners, cfg.size, s.processed, s.chosen, order);
    PhasesTag(ws, s.voted, s.miners, seen, s.chosen);
    GroupsCombine(ws, s.voted, s.miners, s.chosen);
    ActiveFills(ws, order, s.voted + s.miners, s.processed, s.chosen, cfg.size);
    QueueAfterPhases(ws, s, queue);
  }

  lemma WalkTransfers(ws: Witnesses, ws2: Witnesses, taken: seq<Id>, size: nat, processed: seq<Id>, chosen: seq<Id>,
                      order: seq<Id>)
    requires Times(ws2) == Times(ws) && ws2.Keys == ws.Keys && forall id :: id in ws ==> ws2[id].hasKey == ws[id].hasKey
    requires IsWalk(ws2, taken, size, processed, chosen, order)
    ensures IsWalk(ws, taken, size, processed, chosen, order)
  {
  }

  lemma ActiveFills(ws: Witnesses, order: seq<Id>, taken: seq<Id>, processed: seq<Id>, chosen: seq<Id>, size: nat)
    requires IsWalk(ws, taken, size, processed, chosen, order) && Eligible(ws, taken + chosen) && |taken| <= size
    ensures |taken + chosen| == Min(size, |KeyedSet(ws)|)
  {
    if processed == order {
      WalkExhausts(ws, order, taken, chosen);
    }
    ActiveCount(ws, taken + chosen, size);
  }

  lemma QueueAfterPhases(ws: Witnesses, s: Selection, queue: seq<Id>)
    requires s.removed <= |queue| && Enumerates(queue, Waiting(ws), ByWork(ws))
    ensures |Waiting(WithTag(BeforeWalk(ws, s, queue), s.chosen, Timeshare))| == |Waiting(ws)| - s.removed
  {
    QueueShrinks(ws, WithTag(BeforeWalk(ws, s, queue), s.chosen, Timeshare), queue, s.removed);
  }
}
