/** What one scheduling round decides, in terms of the witnesses themselves: who is chosen, what the previously
    scheduled ones run and vote for, and what the new ones are paid and agree on. */
module WitnessRounds {
  import opened Words
  import opened VirtualClock
  import opened VersionTally
  import opened WitnessSelection
  import opened WitnessSchedule
  import opened WitnessScheduler
  import opened Shuffle

  // ---------- who is chosen ----------

  /** The first witness has more votes, or as many and a name that is not greater. */
  ghost predicate Outranks(a: Witness, b: Witness)
  {
    a.votes > b.votes || (a.votes == b.votes && a.owner <= b.owner)
  }

  /** Different witnesses with a signing key. */
  ghost predicate CanSign(ws: Witnesses, ids: seq<Id>)
  {
    && (forall i :: 0 <= i < |ids| ==> ids[i] in ws && ws[ids[i]].hasKey)
    && (forall i, j :: 0 <= i < j < |ids| ==> ids[i] != ids[j])
  }

  /** The group of the most voted: no witness with a key is left out unless the group is full of witnesses that outrank
      it. */
  ghost predicate MostVoted(ws: Witnesses, limit: nat, voted: seq<Id>)
  {
    && CanSign(ws, voted) && |voted| <= limit
    && forall id :: id in ws && ws[id].hasKey && id !in voted ==>
      |voted| == limit && forall v :: v in voted ==> v in ws && Outranks(ws[v], ws[id])
  }

  /** The miners: of the witnesses with a proof of work, oldest first, so many are looked at; those of them with a key
      that are not among the voted are the miners, and looking stops when there are enough. */
  ghost predicate OldestWork(ws: Witnesses, voted: seq<Id>, limit: nat, miners: seq<Id>, queue: seq<Id>, removed: nat)
  {
    && (forall id :: id in queue <==> id in ws && ws[id].powWorker > 0)
    && (forall i, j :: 0 <= i < j < |queue| ==>
          queue[i] != queue[j] && queue[i] in ws && queue[j] in ws && ws[queue[i]].powWorker <= ws[queue[j]].powWorker)
    && CanSign(ws, miners) && |miners| <= limit && removed <= |queue| && (removed < |queue| ==> |miners| == limit)
    && forall id :: id in miners <==> id in queue[..removed] && id in ws && ws[id].hasKey && id !in voted
  }

  /** The timeshare witnesses: the schedule, earliest first, is processed up to some place; those processed with a key
      that are not chosen yet fill the remaining slots. */
  ghost predicate NextInTime(ws: Witnesses, taken: seq<Id>, size: nat, processed: seq<Id>, chosen: seq<Id>,
                             order: seq<Id>)
  {
    && (forall id :: id in order <==> id in ws)
    && (forall i, j :: 0 <= i < j < |order| ==> Precedes(ws, order[i], order[j]))
    && processed <= order && CanSign(ws, chosen)
    && (forall id :: id in chosen <==> id in processed && id in ws && ws[id].hasKey && id !in taken)
    && (|taken| + |chosen| < size ==> processed == order)
  }

  /** Scheduled earlier, or at the same time with a smaller id. */
  ghost predicate Precedes(ws: Witnesses, a: Id, b: Id)
  {
    && a in ws && b in ws && a != b
    && (ws[a].scheduledTime < ws[b].scheduledTime || (ws[a].scheduledTime == ws[b].scheduledTime && a < b))
  }

  lemma TopIsMostVoted(ws: Witnesses, limit: nat, voted: seq<Id>)
    requires TopVoted(ws, limit, voted)
    ensures MostVoted(ws, limit, voted)
  {
    EligibleCanSign(ws, voted);
  }

  lemma EligibleCanSign(ws: Witnesses, ids: seq<Id>)
    requires Eligible(ws, ids)
    ensures CanSign(ws, ids)
  {
    assert forall i :: 0 <= i < |ids| ==> ids[i] in ids;
  }

  lemma FirstHaveOldestWork(ws: Witnesses, voted: seq<Id>, limit: nat, miners: seq<Id>, removed: nat, queue: seq<Id>)
    requires FirstMiners(ws, voted, limit, miners, removed, queue)
    ensures OldestWork(ws, voted, limit, miners, queue, removed)
  {
    EligibleCanSign(ws, miners);
  }

  lemma WalkIsNextInTime(ws: Witnesses, taken: seq<Id>, size: nat, processed: seq<Id>, chosen: seq<Id>, order: seq<Id>)
    requires IsWalk(ws, taken, size, processed, chosen, order)
    ensures NextInTime(ws, taken, size, processed, chosen, order)
  {
    EligibleCanSign(ws, chosen);
    assert forall i :: 0 <= i < |order| ==> order[i] in ws;
  }

  /** A round chooses the most voted, the oldest proofs of work and the next in virtual time, in that order. */
  lemma RoundChooses(cfg: Config, st: State, st': State, t: Trace)
    requires Scheduled(cfg, st, st', t)
    ensures var ws, s := st.witnesses, t.s;
      && MostVoted(ws, cfg.maxVoted, s.voted)
      && OldestWork(ws, s.voted, cfg.maxMiners, s.miners, t.queue, s.removed)
      && NextInTime(ws, s.voted + s.miners, cfg.size, s.processed, s.chosen, t.order)
  {
    var ws, s := st.witnesses, t.s;
    TopIsMostVoted(ws, cfg.maxVoted, s.voted);
    FirstHaveOldestWork(ws, s.voted, cfg.maxMiners, s.miners, s.removed, t.queue);
    WalkIsNextInTime(ws, s.voted + s.miners, cfg.size, s.processed, s.chosen, t.order);
  }

  // ---------- what the previous witnesses run and vote for ----------

  /** The places whose witness runs the version or a newer one. */
  ghost function Running(ws: Witnesses, ids: seq<Id>, v: nat): set<nat>
  {
    set i | 0 <= i < |ids| && ids[i] in ws && ws[ids[i]].runningVersion >= v
  }

  /** The places whose witness votes for the version at that time. */
  ghost function Voting(ws: Witnesses, ids: seq<Id>, version: nat, time: nat): set<nat>
  {
    set i | 0 <= i < |ids| && ids[i] in ws && ws[ids[i]].vote.version == version && ws[ids[i]].vote.time == time
  }

  ghost predicate Present(ws: Witnesses, ids: seq<Id>) { forall i :: 0 <= i < |ids| ==> ids[i] in ws }

  lemma {:induction false} RunningCounts(ws: Witnesses, ids: seq<Id>, v: nat)
    requires Present(ws, ids)
    ensures |Running(ws, ids, v)| == RunningAtLeast(Versions(ws, ids), v)
  {
    if ids == [] {
      assert Running(ws, ids, v) == {};
    } else {
      var n := |ids| - 1;
      RunningCounts(ws, ids[..n], v);
      assert Versions(ws, ids)[..n] == Versions(ws, ids[..n]);
      var more: set<nat> := if ws[ids[n]].runningVersion >= v then {n} else {};
      assert Running(ws, ids, v) == Running(ws, ids[..n], v) + more;
    }
  }

  lemma {:induction false} VotingCounts(ws: Witnesses, ids: seq<Id>, p: Proposal)
    requires Present(ws, ids)
    ensures |Voting(ws, ids, p.version, p.time)| == multiset(Votes(ws, ids))[p]
  {
    if ids == [] {
      assert Voting(ws, ids, p.version, p.time) == {} && Votes(ws, ids) == [];
    } else {
      var n := |ids| - 1;
      VotingCounts(ws, ids[..n], p);
      assert Votes(ws, ids) == Votes(ws, ids[..n]) + [ws[ids[n]].vote];
      var more: set<nat> := if ws[ids[n]].vote == p then {n} else {};
      assert Voting(ws, ids, p.version, p.time) == Voting(ws, ids[..n], p.version, p.time) + more;
    }
  }

  /** The version of a witness that enough of them run or exceed. */
  ghost predicate Backed(ws: Witnesses, ids: seq<Id>, required: nat, i: nat)
  {
    i < |ids| && ids[i] in ws && |Running(ws, ids, ws[ids[i]].runningVersion)| >= required
  }

  /** The newest version that is backed; the current one if there is none. */
  ghost predicate NewestBacked(ws: Witnesses, ids: seq<Id>, required: nat, current: nat, v: nat)
  {
    || (v == current && forall i: nat :: !Backed(ws, ids, required, i))
    || exists i: nat :: Backed(ws, ids, required, i) && IsNewest(ws, ids, required, i, v)
  }

  ghost predicate IsNewest(ws: Witnesses, ids: seq<Id>, required: nat, i: nat, v: nat)
    requires Backed(ws, ids, required, i)
  {
    v == ws[ids[i]].runningVersion && forall j: nat :: Backed(ws, ids, required, j) ==> ws[ids[j]].runningVersion <= v
  }

  lemma BackedIsMajority(ws: Witnesses, ids: seq<Id>, required: nat, i: nat)
    requires Present(ws, ids) && i < |ids|
    ensures Backed(ws, ids, required, i) <==> HasMajority(Versions(ws, ids), required, ws[ids[i]].runningVersion)
  {
    assert Versions(ws, ids)[i] == ws[ids[i]].runningVersion;
    RunningCounts(ws, ids, ws[ids[i]].runningVersion);
  }

  lemma MajorityIsNewestBacked(ws: Witnesses, ids: seq<Id>, required: nat, current: nat, v: nat)
    requires Present(ws, ids) && IsMajorityVersion(Versions(ws, ids), required, current, v)
    ensures NewestBacked(ws, ids, required, current, v)
  {
    var versions := Versions(ws, ids);
    forall i: nat | i < |ids|
      ensures Backed(ws, ids, required, i) <==> HasMajority(versions, required, ws[ids[i]].runningVersion)
    {
      BackedIsMajority(ws, ids, required, i);
    }
    if exists u: nat :: HasMajority(versions, required, u) {
      var i :| 0 <= i < |versions| && versions[i] == v;
      assert IsNewest(ws, ids, required, i, v);
    } else {
      assert forall i: nat :: !Backed(ws, ids, required, i);
    }
  }

  /** The proposal of a witness that enough of them vote for. */
  ghost predicate Supported(ws: Witnesses, ids: seq<Id>, required: nat, i: nat)
  {
    i < |ids| && ids[i] in ws && |Voting(ws, ids, ws[ids[i]].vote.version, ws[ids[i]].vote.time)| >= required
  }

  /** The first of two proposals is for an earlier version, or for the same one at a time that is not later. */
  ghost predicate ComesFirst(p: Proposal, q: Proposal)
  {
    p.version < q.version || (p.version == q.version && p.time <= q.time)
  }

  /** The next hardfork is the first of the supported proposals; with none it is the current version at the old time. */
  ghost predicate FirstSupported(ws: Witnesses, ids: seq<Id>, required: nat, hf: Hardfork, hf': Hardfork)
  {
    && hf'.current == hf.current
    && (|| (hf'.next == hf.current && hf'.nextTime == hf.nextTime && forall i: nat :: !Supported(ws, ids, required, i))
        || exists i: nat ::
             Supported(ws, ids, required, i) && IsFirst(ws, ids, required, i, Proposal(hf'.next, hf'.nextTime)))
  }

  ghost predicate IsFirst(ws: Witnesses, ids: seq<Id>, required: nat, i: nat, p: Proposal)
    requires Supported(ws, ids, required, i)
  {
    && ws[ids[i]].vote.version == p.version && ws[ids[i]].vote.time == p.time
    && forall j: nat :: Supported(ws, ids, required, j) ==> ComesFirst(p, ws[ids[j]].vote)
  }

  lemma SupportedWins(ws: Witnesses, ids: seq<Id>, required: nat, i: nat)
    requires Present(ws, ids) && i < |ids|
    ensures Supported(ws, ids, required, i) <==> Wins(Votes(ws, ids), required, ws[ids[i]].vote)
  {
    assert Votes(ws, ids)[i] == ws[ids[i]].vote;
    VotingCounts(ws, ids, ws[ids[i]].vote);
  }

  lemma DecisionIsFirstSupported(ws: Witnesses, ids: seq<Id>, required: nat, hf: Hardfork, hf': Hardfork)
    requires Present(ws, ids) && HardforkDecided(Votes(ws, ids), required, hf, hf')
    ensures FirstSupported(ws, ids, required, hf, hf')
  {
    var votes := Votes(ws, ids);
    forall i: nat | i < |ids|
      ensures Supported(ws, ids, required, i) <==> Wins(votes, required, ws[ids[i]].vote)
    {
      SupportedWins(ws, ids, required, i);
    }
    if exists p :: Wins(votes, required, p) {
      var i :| 0 <= i < |votes| && votes[i] == Proposal(hf'.next, hf'.nextTime);
      assert IsFirst(ws, ids, required, i, Proposal(hf'.next, hf'.nextTime));
    } else {
      assert forall i: nat :: !Supported(ws, ids, required, i);
    }
  }

  /** The witnesses named in the first slots of the schedule, in order. */
  ghost predicate AreScheduled(st: State, ids: seq<Id>)
  {
    |ids| == st.numScheduled <= |st.shuffled|
    && forall i :: 0 <= i < |ids| ==> ids[i] in st.witnesses && st.witnesses[ids[i]].owner == st.shuffled[i]
  }

  /** The majority version and the next hardfork are decided by the witnesses scheduled before the round. */
  lemma RoundTallies(cfg: Config, st: State, st': State, t: Trace)
    requires Tallied(cfg, st, st', t)
    ensures AreScheduled(st, t.previous)
    ensures NewestBacked(st.witnesses, t.previous, cfg.hardforkRequired, st.majority, st'.majority)
    ensures FirstSupported(st.witnesses, t.previous, cfg.hardforkRequired, st.hardfork, st'.hardfork)
  {
    MajorityIsNewestBacked(st.witnesses, t.previous, cfg.hardforkRequired, st.majority, st'.majority);
    DecisionIsFirstSupported(st.witnesses, t.previous, cfg.hardforkRequired, st.hardfork, st'.hardfork);
  }

  // ---------- what the new witnesses are paid and agree on ----------

  /** The places whose witness asks for less than m, or for at most m. */
  ghost function Asking(ws: Witnesses, ids: seq<Id>, f: Props -> int, m: int, below: bool): set<nat>
  {
    set i | 0 <= i < |ids| && ids[i] in ws && (f(ws[ids[i]].props) < m || (!below && f(ws[ids[i]].props) == m))
  }

  /** Some witness asks for m, at most half of them for less, and more than half for at most m. */
  ghost predicate Agreed(ws: Witnesses, ids: seq<Id>, f: Props -> int, m: int)
  {
    && (exists i :: 0 <= i < |ids| && ids[i] in ws && f(ws[ids[i]].props) == m)
    && |Asking(ws, ids, f, m, true)| <= |ids| / 2 < |Asking(ws, ids, f, m, false)|
  }

  lemma MedianIsAgreed(ws: Witnesses, ids: seq<Id>, f: Props -> int, values: seq<int>, m: int)
    requires Present(ws, ids) && |values| == |ids| && forall i :: 0 <= i < |ids| ==> values[i] == f(ws[ids[i]].props)
    requires IsMedian(values, m)
    ensures Agreed(ws, ids, f, m)
  {
    assert Asking(ws, ids, f, m, true) == Below(values, m);
    assert Asking(ws, ids, f, m, false) == UpTo(values, m);
    var i :| 0 <= i < |values| && values[i] == m;
    assert f(ws[ids[i]].props) == m;
  }

  lemma ScheduledNow(cfg: Config, st: State, st': State, t: Trace, seconds: uint32)
    requires Published(cfg, st, st', t, seconds)
    ensures AreScheduled(st', t.next) && Present(st'.witnesses, t.next)
    ensures AreMedians(PropsOf(st'.witnesses, t.next), st'.medians)
  {
  }

  /** After a round each chain property is the one that the witnesses now scheduled agree on. */
  lemma RoundAgrees(cfg: Config, st: State, st': State, t: Trace, seconds: uint32)
    requires Published(cfg, st, st', t, seconds)
    ensures AreScheduled(st', t.next)
    ensures Agreed(st'.witnesses, t.next, (p: Props) => p.creationFee, st'.medians.creationFee)
    ensures Agreed(st'.witnesses, t.next, (p: Props) => p.blockSize, st'.medians.blockSize)
  {
    ScheduledNow(cfg, st, st', t, seconds);
    var ws, ids, m := st'.witnesses, t.next, st'.medians;
    MedianIsAgreed(ws, ids, (p: Props) => p.creationFee, Fees(PropsOf(ws, ids)), m.creationFee);
    MedianIsAgreed(ws, ids, (p: Props) => p.blockSize, BlockSizes(PropsOf(ws, ids)), m.blockSize);
  }

  lemma RoundAgreesOnRates(cfg: Config, st: State, st': State, t: Trace, seconds: uint32)
    requires Published(cfg, st, st', t, seconds)
    ensures Agreed(st'.witnesses, t.next, (p: Props) => p.interestRate, st'.medians.interestRate)
    ensures Agreed(st'.witnesses, t.next, (p: Props) => p.subsidyLimit, st'.medians.subsidyLimit)
  {
    ScheduledNow(cfg, st, st', t, seconds);
    var ws, ids, m := st'.witnesses, t.next, st'.medians;
    MedianIsAgreed(ws, ids, (p: Props) => p.interestRate, InterestRates(PropsOf(ws, ids)), m.interestRate);
    MedianIsAgreed(ws, ids, (p: Props) => p.subsidyLimit, SubsidyLimits(PropsOf(ws, ids)), m.subsidyLimit);
  }

  /** What is paid per round is the sizes of the three groups, each times its weight. */
  lemma RoundPays(cfg: Config, st: State, st': State, t: Trace, seconds: uint32)
    requires RoundFrom(cfg, st, st', t, seconds)
    ensures st'.factor ==
      cfg.top19Weight * |t.s.voted| + cfg.minerWeight * |t.s.miners| + cfg.timeshareWeight * |t.s.chosen|
  {
    StandingsKeepTags(t.tagged, st'.witnesses, t.s);
    FactorIsSum(cfg, st'.witnesses, t.s);
  }

  lemma StandingsKeepTags(tagged: Witnesses, ws: Witnesses, s: Selection)
    requires SameStandings(tagged, ws)
    requires AllTagged(tagged, s.voted, Top19) && AllTagged(tagged, s.miners, Miner)
    requires AllTagged(tagged, s.chosen, Timeshare)
    ensures AllTagged(ws, s.voted, Top19) && AllTagged(ws, s.miners, Miner) && AllTagged(ws, s.chosen, Timeshare)
  {
  }
}
