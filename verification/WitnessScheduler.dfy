/** The schedule object, one scheduling round on it, and what every run of rounds and vote changes keeps. */
module WitnessScheduler {
  import opened Words
  import opened VirtualClock
  import opened WitnessSelection
  import opened WitnessSchedule
  import opened VersionTally
  import opened Shuffle

  datatype Hardfork = Hardfork(current: nat, next: nat, nextTime: nat)

  /** The schedule object together with the witness index and the hardfork object. */
  datatype State = State(witnesses: Witnesses, now: uint128, shuffled: seq<Name>, numScheduled: nat, factor: nat,
                         majority: nat, hardfork: Hardfork, numPow: int, medians: Props)

  ghost predicate NamesWitness(ws: Witnesses, name: Name) { exists id :: id in ws && ws[id].owner == name }

  ghost predicate DistinctOwners(ws: Witnesses)
  {
    forall a, b :: a in ws && b in ws && ws[a].owner == ws[b].owner ==> a == b
  }

  ghost predicate ValidState(cfg: Config, st: State)
  {
    && cfg.Valid() && |st.shuffled| == cfg.size && 1 <= st.numScheduled <= cfg.size
    && DistinctOwners(st.witnesses)
    && (forall i :: 0 <= i < st.numScheduled ==> NamesWitness(st.witnesses, st.shuffled[i]))
    && Inv(ClockOf(st.witnesses, st.now))
    && st.numPow == |Waiting(st.witnesses)|
  }

  // ---------- the previously scheduled witnesses ----------

  ghost predicate AreNamed(ws: Witnesses, ids: seq<Id>, names: seq<Name>)
  {
    |ids| == |names| && forall i :: 0 <= i < |ids| ==> ids[i] in ws && ws[ids[i]].owner == names[i]
  }

  method Lookup(ws: Witnesses, names: seq<Name>) returns (ids: seq<Id>)
    requires forall i :: 0 <= i < |names| ==> NamesWitness(ws, names[i])
    ensures AreNamed(ws, ids, names)
  {
    ids := [];
    for i := 0 to |names|
      invariant |ids| == i && forall j :: 0 <= j < i ==> ids[j] in ws && ws[ids[j]].owner == names[j]
    {
      assert NamesWitness(ws, names[i]);
      var id :| id in ws && ws[id].owner == names[i];
      ids := ids + [id];
    }
  }

  function Versions(ws: Witnesses, ids: seq<Id>): seq<nat>
    requires forall i :: 0 <= i < |ids| ==> ids[i] in ws
  {
    seq(|ids|, i requires 0 <= i < |ids| => ws[ids[i]].runningVersion)
  }

  function Votes(ws: Witnesses, ids: seq<Id>): seq<Proposal>
    requires forall i :: 0 <= i < |ids| ==> ids[i] in ws
  {
    seq(|ids|, i requires 0 <= i < |ids| => ws[ids[i]].vote)
  }

  function PropsOf(ws: Witnesses, ids: seq<Id>): seq<Props>
    requires forall i :: 0 <= i < |ids| ==> ids[i] in ws
  {
    seq(|ids|, i requires 0 <= i < |ids| => ws[ids[i]].props)
  }

  /** The next hardfork is the least of the winning proposals, or the current version when there is none. */
  ghost predicate HardforkDecided(votes: seq<Proposal>, required: nat, hf: Hardfork, hf': Hardfork)
  {
    hf'.current == hf.current &&
    if exists p :: Wins(votes, required, p) then
      var chosen := Proposal(hf'.next, hf'.nextTime);
      Wins(votes, required, chosen) && forall p :: Wins(votes, required, p) ==> AtMost(chosen, p)
    else hf'.next == hf.current && hf'.nextTime == hf.nextTime
  }

  method DecideHardfork(votes: seq<Proposal>, required: nat, hf: Hardfork) returns (hf': Hardfork)
    ensures HardforkDecided(votes, required, hf, hf')
  {
    var winner := WinningProposal(votes, required);
    hf' := hf;
    match winner {
      case Some(p) =>
        if hf.next != p.version || hf.nextTime != p.time {
          hf' := hf.(next := p.version, nextTime := p.time);
        }
        assert Proposal(hf'.next, hf'.nextTime) == p;
      case None =>
        hf' := hf.(next := hf.current);
    }
  }

  // ---------- medians ----------

  function Fees(ps: seq<Props>): seq<int> { seq(|ps|, i requires 0 <= i < |ps| => ps[i].creationFee) }

  function BlockSizes(ps: seq<Props>): seq<int> { seq(|ps|, i requires 0 <= i < |ps| => ps[i].blockSize) }

  function InterestRates(ps: seq<Props>): seq<int> { seq(|ps|, i requires 0 <= i < |ps| => ps[i].interestRate) }

  function SubsidyLimits(ps: seq<Props>): seq<int> { seq(|ps|, i requires 0 <= i < |ps| => ps[i].subsidyLimit) }

  ghost predicate AreMedians(ps: seq<Props>, m: Props)
  {
    && IsMedian(Fees(ps), m.creationFee) && IsMedian(BlockSizes(ps), m.blockSize)
    && IsMedian(InterestRates(ps), m.interestRate) && IsMedian(SubsidyLimits(ps), m.subsidyLimit)
  }

  method Medians(ps: seq<Props>) returns (m: Props)
    requires ps != []
    ensures AreMedians(ps, m)
  {
    var fee := Median(Fees(ps));
    var size := Median(BlockSizes(ps));
    var rate := Median(InterestRates(ps));
    var subsidy := Median(SubsidyLimits(ps));
    m := Props(fee, size, rate, subsidy);
  }

  // ---------- one round ----------

  /** What a round went through: its selection, the index orders it followed, the witnesses once tagged, and the
      witnesses scheduled before and after it. */
  datatype Trace = Trace(s: Selection, order: seq<Id>, queue: seq<Id>, tagged: Witnesses, previous: seq<Id>,
                         next: seq<Id>)

  /** The selection and the clock. */
  ghost predicate Selected(cfg: Config, ws: Witnesses, now: uint128, ws': Witnesses, now': uint128, t: Trace)
  {
    && TopVoted(ws, cfg.maxVoted, t.s.voted)
    && FirstMiners(ws, t.s.voted, cfg.maxMiners, t.s.miners, t.s.removed, t.queue)
    && IsSelection(cfg, ws, t.tagged, t.s, t.order) && TagsFollow(ws, t.tagged, t.s, t.queue)
    && SameStandings(t.tagged, ws')
    && ClockOf(ws', now') == Round(cfg.lap, ClockOf(ws, now), t.s.processed)
    && LapsAfter(cfg.lap, ws, now, t.s.processed, ws', now')
  }

  ghost predicate Scheduled(cfg: Config, st: State, st': State, t: Trace)
  {
    Selected(cfg, st.witnesses, st.now, st'.witnesses, st'.now, t) && st'.numPow == st.numPow - t.s.removed
  }

  /** The counts over the previously scheduled witnesses. */
  ghost predicate Tallied(cfg: Config, st: State, st': State, t: Trace)
  {
    && st.numScheduled <= |st.shuffled| && AreNamed(st.witnesses, t.previous, st.shuffled[..st.numScheduled])
    && IsMajorityVersion(Versions(st.witnesses, t.previous), cfg.hardforkRequired, st.majority, st'.majority)
    && HardforkDecided(Votes(st.witnesses, t.previous), cfg.hardforkRequired, st.hardfork, st'.hardfork)
  }

  function Blank(n: nat): seq<Name> { seq(n, _ => 0) }

  /** The names shuffled into the first slots, the other slots empty. */
  ghost function Slots(names: seq<Name>, seconds: uint32, size: nat): (slots: seq<Name>)
    requires |names| <= size
    ensures |slots| == size
  {
    Shuffled(names, seconds, 0) + Blank(size - |names|)
  }

  ghost predicate AllIn(ws: Witnesses, ids: seq<Id>) { forall id :: id in ids ==> id in ws }

  /** The new schedule. */
  ghost predicate Published(cfg: Config, st: State, st': State, t: Trace, seconds: uint32)
  {
    var active := t.s.Active();
    && AllIn(st.witnesses, active) && AllIn(st'.witnesses, active)
    && st'.numScheduled == |active| <= cfg.size
    && st'.shuffled == Slots(Owners(st.witnesses, active), seconds, cfg.size)
    && st'.factor == SumOfWeights(cfg, st'.witnesses, active)
    && AreNamed(st'.witnesses, t.next, st'.shuffled[..st'.numScheduled])
    && AreMedians(PropsOf(st'.witnesses, t.next), st'.medians)
  }

  ghost predicate RoundFrom(cfg: Config, st: State, st': State, t: Trace, seconds: uint32)
  {
    Scheduled(cfg, st, st', t) && Tallied(cfg, st, st', t) && Published(cfg, st, st', t, seconds)
  }

  ghost predicate IsRound(cfg: Config, st: State, st': State, seconds: uint32)
  {
    exists t: Trace :: RoundFrom(cfg, st, st', t, seconds) && ValidState(cfg, st')
  }

  /** Enough witnesses hold a signing key to fill the round as far as there are witnesses. */
  ghost predicate EnoughKeyed(cfg: Config, ws: Witnesses) { Min(cfg.size, |KeyedSet(ws)|) == Min(cfg.size, |ws|) }

  lemma SomeWitness(cfg: Config, st: State)
    requires ValidState(cfg, st)
    ensures |st.witnesses| > 0
  {
    assert NamesWitness(st.witnesses, st.shuffled[0]);
    var id :| id in st.witnesses && st.witnesses[id].owner == st.shuffled[0];
  }

  /** The weights counted by group are the weights of the members' tags. */
  lemma FactorIsSum(cfg: Config, ws: Witnesses, s: Selection)
    requires AllTagged(ws, s.voted, Top19) && AllTagged(ws, s.miners, Miner) && AllTagged(ws, s.chosen, Timeshare)
    ensures AllIn(ws, s.Active())
    ensures SumOfWeights(cfg, ws, s.Active()) ==
      |s.voted| * cfg.top19Weight + |s.miners| * cfg.minerWeight + |s.chosen| * cfg.timeshareWeight
  {
    SumOfWeightsSplits(cfg, ws, [], s.voted, Top19);
    assert [] + s.voted == s.voted;
    SumOfWeightsSplits(cfg, ws, s.voted, s.miners, Miner);
    SumOfWeightsSplits(cfg, ws, s.voted + s.miners, s.chosen, Timeshare);
  }

  /** Same index, same owners, votes, keys and ballots. */
  ghost predicate SameRecords(ws: Witnesses, ws': Witnesses)
  {
    ws'.Keys == ws.Keys && forall id :: id in ws ==>
      && ws'[id].owner == ws[id].owner && ws'[id].votes == ws[id].votes && ws'[id].hasKey == ws[id].hasKey
      && ws'[id].runningVersion == ws[id].runningVersion && ws'[id].vote == ws[id].vote
  }

  lemma RoundKeepsRecords(ws: Witnesses, tagged: Witnesses, ws': Witnesses)
    requires SameButTags(ws, tagged) && SameStandings(tagged, ws')
    ensures SameRecords(ws, ws')
  {
  }

  lemma TagsKeepClock(ws: Witnesses, tagged: Witnesses, now: uint128)
    requires SameButTags(ws, tagged)
    ensures ClockOf(tagged, now) == ClockOf(ws, now)
  {
  }

  lemma TagsKeepLaps(lap: uint128, ws: Witnesses, tagged: Witnesses, now: uint128, processed: seq<Id>, ws': Witnesses,
                     now': uint128)
    requires SameButTags(ws, tagged) && LapsAfter(lap, tagged, now, processed, ws', now')
    ensures LapsAfter(lap, ws, now, processed, ws', now')
  {
    TagsKeepClock(ws, tagged, now);
  }

  lemma RecordsAgree(ws: Witnesses, ws': Witnesses, ids: seq<Id>)
    requires SameRecords(ws, ws') && forall i :: 0 <= i < |ids| ==> ids[i] in ws
    ensures Versions(ws', ids) == Versions(ws, ids) && Votes(ws', ids) == Votes(ws, ids)
  {
  }

  lemma NamesAgree(ws: Witnesses, ws': Witnesses, ids: seq<Id>)
    requires SameRecords(ws, ws') && AllIn(ws, ids)
    ensures AllIn(ws', ids) && Owners(ws', ids) == Owners(ws, ids)
  {
  }

  lemma NamedAgree(ws: Witnesses, ws': Witnesses, names: seq<Name>)
    requires SameRecords(ws, ws')
    requires forall i :: 0 <= i < |names| ==> NamesWitness(ws, names[i])
    ensures forall i :: 0 <= i < |names| ==> NamesWitness(ws', names[i])
  {
  }

  /** The shuffled slots name the active witnesses. */
  lemma SlotsNameWitnesses(ws: Witnesses, ids: seq<Id>, slots: seq<Name>)
    requires AllIn(ws, ids) && multiset(slots) == multiset(Owners(ws, ids))
    ensures forall i :: 0 <= i < |slots| ==> NamesWitness(ws, slots[i])
  {
    var owners := Owners(ws, ids);
    forall i | 0 <= i < |slots|
      ensures NamesWitness(ws, slots[i])
    {
      assert slots[i] in multiset(slots);
      var j :| 0 <= j < |owners| && owners[j] == slots[i];
      assert ids[j] in ws && ws[ids[j]].owner == slots[i];
    }
  }

  lemma PrefixOfSlots(names: seq<Name>, seconds: uint32, size: nat)
    requires |names| <= size
    ensures Slots(names, seconds, size)[..|names|] == Shuffled(names, seconds, 0)
    ensures multiset(Shuffled(names, seconds, 0)) == multiset(names)
  {
    ShuffledPermutes(names, seconds, 0);
  }

  /** A round keeps the state valid; in particular every witness stays scheduled at or after the virtual time. */
  lemma RoundKeepsValid(cfg: Config, st: State, st': State, t: Trace, seconds: uint32)
    requires ValidState(cfg, st) && RoundFrom(cfg, st, st', t, seconds)
    requires EnoughKeyed(cfg, st.witnesses)
    ensures ValidState(cfg, st')
  {
    SomeWitness(cfg, st);
    RoundKeepsRecords(st.witnesses, t.tagged, st'.witnesses);
    OwnersStayDistinct(st.witnesses, st'.witnesses);
    ClockStaysValid(cfg.lap, ClockOf(st.witnesses, st.now), ClockOf(st'.witnesses, st'.now), t.order, t.s.processed);
    PublishedNames(cfg, st, st', t, seconds);
    QueueStaysCounted(cfg, st, st', t);
  }

  lemma QueueStaysCounted(cfg: Config, st: State, st': State, t: Trace)
    requires st.numPow == |Waiting(st.witnesses)| && Scheduled(cfg, st, st', t)
    ensures st'.numPow == |Waiting(st'.witnesses)|
  {
    assert Waiting(st'.witnesses) == Waiting(t.tagged);
  }

  lemma OwnersStayDistinct(ws: Witnesses, ws': Witnesses)
    requires DistinctOwners(ws) && SameRecords(ws, ws')
    ensures DistinctOwners(ws')
  {
  }

  lemma PublishedNames(cfg: Config, st: State, st': State, t: Trace, seconds: uint32)
    requires SameRecords(st.witnesses, st'.witnesses) && Published(cfg, st, st', t, seconds)
    ensures |st'.shuffled| == cfg.size
    ensures forall i :: 0 <= i < st'.numScheduled ==> NamesWitness(st'.witnesses, st'.shuffled[i])
  {
    var active := t.s.Active();
    NamesAgree(st.witnesses, st'.witnesses, active);
    PrefixOfSlots(Owners(st.witnesses, active), seconds, cfg.size);
    var slots := st'.shuffled[..|active|];
    SlotsNameWitnesses(st'.witnesses, active, slots);
    assert forall i :: 0 <= i < |active| ==> st'.shuffled[i] == slots[i];
  }

  lemma ClockStaysValid(lap: uint128, c: Clock, c': Clock, order: seq<Id>, processed: seq<Id>)
    requires Inv(c) && IsScheduleOrder(c.time, order) && processed <= order && c' == Round(lap, c, processed)
    ensures Inv(c')
  {
  }

  method NamesOf(ws: Witnesses, ids: seq<Id>) returns (names: seq<Name>)
    requires AllIn(ws, ids)
    ensures names == Owners(ws, ids)
  {
    names := seq(|ids|, i requires 0 <= i < |ids| => ws[ids[i]].owner);
  }

  // ---------- vote changes ----------

  /** The position after the time since the last update at the old speed. */
  function NewPosition(w: Witness, now: uint128): uint128
  {
    Wrap128(w.position + Wrap128(w.votes * Wrap128(now - w.lastUpdate)))
  }

  /** The time at which the rest of the lap is finished; one that wraps into the past is moved to the end of time. */
  function NewTime(lap: uint128, position: uint128, now: uint128, votes: nat): (time: uint128)
    ensures time >= now
  {
    var t := Wrap128(now + Share(Wrap128(lap - position), votes));
    if t < now then 0xFFFF_FFFF_FFFF_FFFF_FFFF_FFFF_FFFF_FFFF else t
  }

  /** Settles the position up to now at the old speed and reschedules at the new speed. */
  function Revoted(lap: uint128, now: uint128, w: Witness, votes: nat): (w': Witness)
    ensures w'.scheduledTime >= now
  {
    w.(position := NewPosition(w, now), lastUpdate := now, votes := votes,
       scheduledTime := NewTime(lap, NewPosition(w, now), now, votes))
  }

  /** Nothing but the votes and the place in the lap differs. */
  ghost predicate SameButVotes(w: Witness, w': Witness)
  {
    && w'.owner == w.owner && w'.hasKey == w.hasKey && w'.powWorker == w.powWorker && w'.schedule == w.schedule
    && w'.runningVersion == w.runningVersion && w'.vote == w.vote && w'.props == w.props
  }

  /** At that time the rest of the lap is covered at the speed of the votes, to within one step; it is the end of time
      if 128 bits do not reach that far. */
  ghost predicate FinishesAt(rest: nat, votes: nat, now: uint128, time: uint128)
  {
    if BeyondEnd(rest, votes, now) then time == 0xFFFF_FFFF_FFFF_FFFF_FFFF_FFFF_FFFF_FFFF
    else CoveredIn(rest, votes, time - now)
  }

  /** A vote change, whatever wraps: the votes are the new ones, the position has advanced by the old votes for the time
      since the last update, modulo 2^128, and the rest of the lap is finished at the new speed. */
  ghost predicate VoteSettled(lap: uint128, now: uint128, w: Witness, votes: nat, w': Witness)
  {
    && SameButVotes(w, w') && w'.votes == votes && w'.lastUpdate == now
    && w'.position == Wrap128(w.position + w.votes * (now - w.lastUpdate))
    && FinishesAt(Wrap128(lap - w'.position), votes, now, w'.scheduledTime)
  }

  lemma RevotedSettles(lap: uint128, now: uint128, w: Witness, votes: nat)
    ensures VoteSettled(lap, now, w, votes, Revoted(lap, now, w, votes))
  {
    PositionSettles(w, now);
    TimeFinishes(lap, NewPosition(w, now), votes, now);
  }

  lemma PositionSettles(w: Witness, now: uint128)
    ensures NewPosition(w, now) == Wrap128(w.position + w.votes * (now - w.lastUpdate))
  {
    PositionWraps(w.position, w.votes, now - w.lastUpdate);
  }

  lemma PositionWraps(position: uint128, votes: int, d: int)
    ensures Wrap128(position + Wrap128(votes * Wrap128(d))) == Wrap128(position + votes * d)
  {
    ProductWraps(votes, d);
    Wrap128Add(votes * Wrap128(d), position);
    Wrap128Add(votes * d, position);
  }

  lemma TimeFinishes(lap: uint128, position: uint128, votes: nat, now: uint128)
    ensures FinishesAt(Wrap128(lap - position), votes, now, NewTime(lap, position, now, votes))
  {
    var rest := Wrap128(lap - position);
    ShareCovers(rest, votes, now);
    WrapDetectsOverflow(now, Share(rest, votes));
  }

  lemma ProductWraps(v: int, d: int)
    ensures Wrap128(v * Wrap128(d)) == Wrap128(v * d)
  {
    Wrap128Mul(d, v);
    assert Wrap128(d) * v == v * Wrap128(d) && d * v == v * d;
  }

  /** Before the end of the lap nothing wraps: the position advances by the old votes for the time passed, and the rest
      of the lap, which is what is left of it, is finished at the new speed. */
  lemma RevotedFinishesLap(lap: uint128, now: uint128, w: Witness, votes: nat)
    requires w.lastUpdate <= now && w.position + w.votes * (now - w.lastUpdate) <= lap
    ensures var w' := Revoted(lap, now, w, votes);
      && w'.position == w.position + w.votes * (now - w.lastUpdate)
      && FinishesAt(lap - w'.position, votes, now, w'.scheduledTime)
  {
    var p := NewPosition(w, now);
    PositionSettles(w, now);
    MulMonotone(0, w.votes, now - w.lastUpdate);
    Wrap128Small(w.position + w.votes * (now - w.lastUpdate));
    Wrap128Small(lap - p);
    TimeFinishes(lap, p, votes, now);
  }

  ghost function Revote(cfg: Config, st: State, id: Id, votes: nat): State
    requires id in st.witnesses
  {
    st.(witnesses := st.witnesses[id := Revoted(cfg.lap, st.now, st.witnesses[id], votes)])
  }

  /** One witness has the new votes, settled in its lap; all others and the rest of the schedule are as before. */
  ghost predicate OneSettled(cfg: Config, st: State, id: Id, votes: nat, st': State)
  {
    && id in st.witnesses && st'.witnesses.Keys == st.witnesses.Keys
    && VoteSettled(cfg.lap, st.now, st.witnesses[id], votes, st'.witnesses[id])
    && (forall x :: x in st.witnesses && x != id ==> st'.witnesses[x] == st.witnesses[x])
    && st' == st.(witnesses := st'.witnesses)
  }

  lemma RevoteSettles(cfg: Config, st: State, id: Id, votes: nat)
    requires id in st.witnesses
    ensures OneSettled(cfg, st, id, votes, Revote(cfg, st, id, votes))
  {
    RevotedSettles(cfg.lap, st.now, st.witnesses[id], votes);
  }

  lemma RevoteKeepsValid(cfg: Config, st: State, id: Id, votes: nat)
    requires ValidState(cfg, st) && id in st.witnesses
    ensures ValidState(cfg, Revote(cfg, st, id, votes))
  {
    ReplaceKeepsValid(cfg, st, id, Revoted(cfg.lap, st.now, st.witnesses[id], votes));
  }

  /** A new witness index keeps the state valid if it keeps the names and respects the clock and the queue count. */
  lemma IndexKeepsValid(cfg: Config, st: State, ws: Witnesses, numPow: int)
    requires ValidState(cfg, st) && DistinctOwners(ws) && numPow == |Waiting(ws)|
    requires forall id :: id in st.witnesses ==> id in ws && ws[id].owner == st.witnesses[id].owner
    requires forall id :: id in ws ==> ws[id].scheduledTime >= st.now
    ensures ValidState(cfg, st.(witnesses := ws, numPow := numPow))
  {
  }

  lemma TimesAfterNow(ws: Witnesses, now: uint128, id: Id)
    requires Inv(ClockOf(ws, now)) && id in ws
    ensures ws[id].scheduledTime >= now
  {
    assert ClockOf(ws, now).time[id] == ws[id].scheduledTime;
  }

  /** Replacing a witness's record keeps the state valid as long as the name, the place in the mining queue and the
      clock's lower bound are respected. */
  lemma ReplaceKeepsValid(cfg: Config, st: State, id: Id, w: Witness)
    requires ValidState(cfg, st) && id in st.witnesses && w.scheduledTime >= st.now
    requires w.owner == st.witnesses[id].owner && w.powWorker == st.witnesses[id].powWorker
    ensures ValidState(cfg, st.(witnesses := st.witnesses[id := w]))
  {
    var ws' := st.witnesses[id := w];
    assert Waiting(ws') == Waiting(st.witnesses);
    forall n | n in ws'
      ensures ws'[n].scheduledTime >= st.now
    {
      if n != id { TimesAfterNow(st.witnesses, st.now, n); }
    }
    IndexKeepsValid(cfg, st, ws', st.numPow);
  }

  /** The schedule object; the array holds the names of the scheduled witnesses. */
  class Scheduler {
    const cfg: Config
    const shuffled: array<Name>
    var witnesses: Witnesses
    var now: uint128
    var numScheduled: nat
    var factor: nat
    var majority: nat
    var hardfork: Hardfork
    var numPow: int
    var medians: Props

    ghost function Snapshot(): State
      reads this, shuffled
    {
      State(witnesses, now, shuffled[..], numScheduled, factor, majority, hardfork, numPow, medians)
    }

    ghost predicate Valid()
      reads this, shuffled
    {
      ValidState(cfg, Snapshot())
    }

    constructor (cfg: Config, ws: Witnesses, first: Id, currentVersion: nat)
      requires cfg.Valid() && DistinctOwners(ws) && Waiting(ws) == {} && first in ws
      ensures Valid() && this.cfg == cfg && witnesses == ws && fresh(shuffled)
    {
      this.cfg := cfg;
      witnesses, now, numScheduled, factor, majority := ws, 0, 1, 25, 0;
      hardfork, numPow := Hardfork(currentVersion, currentVersion, 0), 0;
      medians := ws[first].props;
      shuffled := new Name[cfg.size](i => if i == 0 then ws[first].owner else 0);
      new;
      assert NamesWitness(ws, shuffled[0]);
    }

    /** Writes the names of the active witnesses into the first slots, clears the rest and shuffles. */
    method Publish(names: seq<Name>, seconds: uint32) returns (slots: seq<Name>)
      requires |names| <= shuffled.Length
      modifies shuffled
      ensures shuffled[..] == slots == Slots(names, seconds, shuffled.Length)
    {
      var n := |names|;
      FillSlots(shuffled, names);
      ShuffleInPlace(shuffled, n, seconds);
      slots := shuffled[..];
      assert slots == shuffled[..n] + shuffled[n..];
    }

    method Store(mid: State, ghost slots: seq<Name>, m: Props)
      requires shuffled[..] == slots
      modifies this
      ensures Snapshot() == mid.(shuffled := slots, medians := m)
    {
      witnesses, now, numScheduled, factor := mid.witnesses, mid.now, mid.numScheduled, mid.factor;
      majority, hardfork, numPow, medians := mid.majority, mid.hardfork, mid.numPow, m;
    }

    /** One round. A round that does not find the expected number of active witnesses fails and leaves no trace. */
    method Round(seconds: uint32) returns (ok: bool)
      requires Valid()
      modifies this, shuffled
      ensures Valid()
      ensures ok <==> old(EnoughKeyed(cfg, witnesses))
      ensures !ok ==> Snapshot() == old(Snapshot())
      ensures ok ==> IsRound(cfg, old(Snapshot()), Snapshot(), seconds)
    {
      var st := State(witnesses, now, shuffled[..], numScheduled, factor, majority, hardfork, numPow, medians);
      var mid, names;
      ghost var t;
      ok, mid, names, t := PlanRound(cfg, st);
      if ok {
        Complete(st, mid, names, t, seconds);
      }
    }

    /** A change of one witness's votes, which moves its place in the lap; it fails if the votes would exceed the
        total vesting shares. */
    method AdjustVote(id: Id, delta: int, vesting: nat) returns (ok: bool)
      requires Valid() && id in witnesses && witnesses[id].votes + delta >= 0
      modifies this
      ensures Valid()
      ensures ok <==> old(witnesses[id].votes) + delta <= vesting
      ensures Snapshot() ==
        if ok then old(Revote(cfg, Snapshot(), id, witnesses[id].votes + delta)) else old(Snapshot())
      ensures ok ==> witnesses[id].votes == old(witnesses[id].votes) + delta
    {
      ok := witnesses[id].votes + delta <= vesting;
      if ok {
        SetVotes(id, witnesses[id].votes + delta);
      }
    }

    method SetVotes(id: Id, votes: nat)
      requires Valid() && id in witnesses
      modifies this
      ensures Valid() && Snapshot() == old(Revote(cfg, Snapshot(), id, votes)) && witnesses[id].votes == votes
    {
      RevoteKeepsValid(cfg, Snapshot(), id, votes);
      witnesses := witnesses[id := Revoted(cfg.lap, now, witnesses[id], votes)];
    }

    /** Writes a planned round into the schedule object. */
    method Complete(ghost st: State, mid: State, names: seq<Name>, ghost t: Trace, seconds: uint32)
      requires |names| <= cfg.size == shuffled.Length && Planned(cfg, st, mid, names, t)
      modifies this, shuffled
      ensures IsRound(cfg, st, Snapshot(), seconds)
    {
      var slots := Publish(names, seconds);
      var m := PublishedMedians(cfg, st, mid, names, t, slots, seconds);
      Store(mid, slots, m);
    }
  }

  /** Everything a round decides before the names are written out and shuffled. */
  ghost predicate Planned(cfg: Config, st: State, mid: State, names: seq<Name>, t: Trace)
  {
    && ValidState(cfg, st) && EnoughKeyed(cfg, st.witnesses)
    && Scheduled(cfg, st, mid, t) && Tallied(cfg, st, mid, t)
    && HasNames(cfg, st, mid, names, t.s.Active())
  }

  method PlanRound(cfg: Config, st: State) returns (ok: bool, mid: State, names: seq<Name>, ghost t: Trace)
    requires ValidState(cfg, st)
    ensures ok <==> EnoughKeyed(cfg, st.witnesses)
    ensures ok ==> |names| <= cfg.size && Planned(cfg, st, mid, names, t)
  {
    var ws', now', s;
    ws', now', s, t := Plan(cfg, st.witnesses, st.now);
    mid, names := st, [];
    ok := |s.Active()| == Min(cfg.size, |st.witnesses|);
    if ok {
      ghost var previous;
      mid, names, previous := FinishPlan(cfg, st, ws', now', s, t);
      SelectionStays(cfg, st, mid, t, previous);
      t := t.(previous := previous);
    }
  }

  /** What the previous witnesses decide, the names and the factor complete the plan. */
  method FinishPlan(cfg: Config, st: State, ws': Witnesses, now': uint128, s: Selection, ghost t: Trace)
    returns (mid: State, names: seq<Name>, ghost previous: seq<Id>)
    requires st.numScheduled <= |st.shuffled| && SameRecords(st.witnesses, ws') && SameStandings(t.tagged, ws')
    requires forall i :: 0 <= i < st.numScheduled ==> NamesWitness(st.witnesses, st.shuffled[i])
    requires AllIn(st.witnesses, s.Active()) && |s.Active()| <= cfg.size
    requires AllTagged(t.tagged, s.voted, Top19) && AllTagged(t.tagged, s.miners, Miner)
    requires AllTagged(t.tagged, s.chosen, Timeshare)
    ensures mid.witnesses == ws' && mid.now == now' && mid.numPow == st.numPow - s.removed
    ensures Tallied(cfg, st, mid, t.(previous := previous)) && HasNames(cfg, st, mid, names, s.Active())
  {
    var majority', hardfork';
    majority', hardfork', previous :=
      Tally(cfg, st.witnesses, ws', st.shuffled[..st.numScheduled], st.majority, st.hardfork);
    var factor;
    names, factor := NamesAndFactor(cfg, st.witnesses, ws', s, t.tagged);
    mid := State(ws', now', st.shuffled, |names|, factor, majority', hardfork', st.numPow - s.removed, st.medians);
  }

  method NamesAndFactor(cfg: Config, ghost ws: Witnesses, ws': Witnesses, s: Selection, ghost tagged: Witnesses)
    returns (names: seq<Name>, factor: nat)
    requires SameRecords(ws, ws') && AllIn(ws, s.Active()) && SameStandings(tagged, ws')
    requires AllTagged(tagged, s.voted, Top19) && AllTagged(tagged, s.miners, Miner)
    requires AllTagged(tagged, s.chosen, Timeshare)
    ensures AllIn(ws', s.Active()) && names == Owners(ws, s.Active()) && factor == SumOfWeights(cfg, ws', s.Active())
  {
    NamesAgree(ws, ws', s.Active());
    names := NamesOf(ws', s.Active());
    factor := Factor(cfg, ws', s);
  }

  ghost predicate HasNames(cfg: Config, st: State, mid: State, names: seq<Name>, active: seq<Id>)
  {
    && AllIn(st.witnesses, active) && AllIn(mid.witnesses, active)
    && mid.factor == SumOfWeights(cfg, mid.witnesses, active)
    && names == Owners(st.witnesses, active) && mid.numScheduled == |names| <= cfg.size
  }

  lemma SelectionStays(cfg: Config, st: State, mid: State, t: Trace, previous: seq<Id>)
    ensures Scheduled(cfg, st, mid, t) ==> Scheduled(cfg, st, mid, t.(previous := previous))
  {
  }

  /** The medians over the published schedule complete the round. */
  method PublishedMedians(cfg: Config, ghost st: State, mid: State, ghost names: seq<Name>, ghost t: Trace,
                          slots: seq<Name>, ghost seconds: uint32) returns (m: Props)
    requires |names| <= cfg.size && Planned(cfg, st, mid, names, t)
    requires slots == Slots(names, seconds, cfg.size)
    ensures IsRound(cfg, st, mid.(shuffled := slots, medians := m), seconds)
  {
    SomeWitness(cfg, st);
    RoundKeepsRecords(st.witnesses, t.tagged, mid.witnesses);
    SlotsNamed(cfg, st, mid, names, t, slots, seconds);
    ghost var next;
    m, next := MedianProps(mid.witnesses, slots[..mid.numScheduled]);
    PlanCompletes(cfg, st, mid, names, t, slots, seconds, m, next);
  }

  lemma PlanCompletes(cfg: Config, st: State, mid: State, names: seq<Name>, t: Trace, slots: seq<Name>, seconds: uint32,
                      m: Props, next: seq<Id>)
    requires Planned(cfg, st, mid, names, t)
    requires slots == Slots(names, seconds, cfg.size)
    requires AreNamed(mid.witnesses, next, slots[..mid.numScheduled]) && AreMedians(PropsOf(mid.witnesses, next), m)
    ensures IsRound(cfg, st, mid.(shuffled := slots, medians := m), seconds)
  {
    var st', t' := mid.(shuffled := slots, medians := m), t.(next := next);
    assert RoundFrom(cfg, st, st', t', seconds);
    RoundKeepsValid(cfg, st, st', t', seconds);
  }

  lemma SlotsNamed(cfg: Config, st: State, mid: State, names: seq<Name>, t: Trace, slots: seq<Name>, seconds: uint32)
    requires Planned(cfg, st, mid, names, t) && SameRecords(st.witnesses, mid.witnesses)
    requires slots == Slots(names, seconds, cfg.size)
    ensures |slots| == cfg.size
    ensures forall i :: 0 <= i < |slots[..|names|]| ==> NamesWitness(mid.witnesses, slots[..|names|][i])
  {
    NamesAgree(st.witnesses, mid.witnesses, t.s.Active());
    PrefixOfSlots(names, seconds, cfg.size);
    SlotsNameWitnesses(mid.witnesses, t.s.Active(), slots[..|names|]);
  }

  /** The phases that select witnesses and move the clock. */
  method Plan(cfg: Config, ws: Witnesses, now: uint128)
    returns (ws': Witnesses, now': uint128, s: Selection, ghost t: Trace)
    requires cfg.Valid()
    ensures Selected(cfg, ws, now, ws', now', t) && SameRecords(ws, ws') && t.s == s
  {
    var selected;
    ghost var order, queue;
    selected, s, order, queue := SelectActive(cfg, ws);
    t := Trace(s, order, queue, selected, [], []);
    TagsKeepClock(ws, selected, now);
    assert forall i :: 0 <= i < |s.processed| ==> s.processed[i] == order[i];
    ws', now' := Advance(cfg.lap, selected, now, s.processed);
    TagsKeepLaps(cfg.lap, ws, selected, now, s.processed, ws', now');
    RoundKeepsRecords(ws, selected, ws');
  }

  method Tally(cfg: Config, ghost ws: Witnesses, ws': Witnesses, names: seq<Name>, majority: nat, hf: Hardfork)
    returns (majority': nat, hf': Hardfork, ghost previous: seq<Id>)
    requires SameRecords(ws, ws') && forall i :: 0 <= i < |names| ==> NamesWitness(ws, names[i])
    ensures AreNamed(ws, previous, names)
    ensures IsMajorityVersion(Versions(ws, previous), cfg.hardforkRequired, majority, majority')
    ensures HardforkDecided(Votes(ws, previous), cfg.hardforkRequired, hf, hf')
  {
    NamedAgree(ws, ws', names);
    var ids := Lookup(ws', names);
    RecordsAgree(ws, ws', ids);
    majority' := MajorityVersion(Versions(ws', ids), cfg.hardforkRequired, majority);
    hf' := DecideHardfork(Votes(ws', ids), cfg.hardforkRequired, hf);
    previous := ids;
  }

  method Factor(cfg: Config, ws: Witnesses, s: Selection) returns (factor: nat)
    requires AllTagged(ws, s.voted, Top19) && AllTagged(ws, s.miners, Miner) && AllTagged(ws, s.chosen, Timeshare)
    ensures AllIn(ws, s.Active()) && factor == SumOfWeights(cfg, ws, s.Active())
  {
    FactorIsSum(cfg, ws, s);
    factor := |s.voted| * cfg.top19Weight + |s.miners| * cfg.minerWeight + |s.chosen| * cfg.timeshareWeight;
  }

  method MedianProps(ws: Witnesses, names: seq<Name>) returns (m: Props, ghost next: seq<Id>)
    requires names != [] && forall i :: 0 <= i < |names| ==> NamesWitness(ws, names[i])
    ensures AreNamed(ws, next, names) && AreMedians(PropsOf(ws, next), m)
  {
    var ids := Lookup(ws, names);
    m := Medians(PropsOf(ws, ids));
    next := ids;
  }

  method FillSlots(a: array<Name>, names: seq<Name>)
    requires |names| <= a.Length
    modifies a
    ensures a[..|names|] == names && a[|names|..] == Blank(a.Length - |names|)
  {
    for i := 0 to |names|
      invariant a[..i] == names[..i]
    {
      a[i] := names[i];
      assert a[..i + 1] == a[..i] + [a[i]];
    }
    for i := |names| to a.Length
      invariant a[..|names|] == names && forall j :: |names| <= j < i ==> a[j] == 0
    {
      a[i] := 0;
    }
  }
}
