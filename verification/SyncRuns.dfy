/** What every run of the sync protocol keeps. */
module SyncRuns {
  import opened Collections
  import opened Words
  import opened BlockIds
  import opened SyncState

  // ---------- fetching ----------

  lemma FetchedPeerInv(num: Hash -> uint32, limit: nat, st: State, plan: Plan, p: PeerId)
    requires Inv(num, limit, st) && IsPlan(limit, st, plan) && p in st.peers
    ensures PeerInv(num, limit, Requested(st, plan), Requested(st, plan).peers[p])
  {
    assert PeerInv(num, limit, st, st.peers[p]);
    if p in plan {
      assert PeerPlan(limit, st, p, plan[p]);
      SetOfSize(plan[p]);
      assert Requested(st, plan).peers[p].requested == SetOf(plan[p]);
    }
  }

  /** New requests meet neither each other nor the old ones. */
  lemma FetchedDisjoint(num: Hash -> uint32, limit: nat, st: State, plan: Plan)
    requires Inv(num, limit, st) && IsPlan(limit, st, plan)
    ensures RequestsDisjoint(Requested(st, plan).peers)
  {
  }

  lemma FetchKeepsInv(num: Hash -> uint32, limit: nat, st: State, plan: Plan)
    requires Inv(num, limit, st) && IsPlan(limit, st, plan)
    ensures Inv(num, limit, Requested(st, plan))
  {
    var st' := Requested(st, plan);
    forall p | p in st'.peers
      ensures PeerInv(num, limit, st', st'.peers[p])
    {
      FetchedPeerInv(num, limit, st, plan, p);
    }
    FetchedDisjoint(num, limit, st, plan);
    assert st'.peers.Keys == st.peers.Keys;
  }

  // ---------- the backlog ----------

  lemma {:induction false} ReverseKeeps(s: seq<Hash>)
    ensures multiset(Reverse(s)) == multiset(s) && |Reverse(s)| == |s|
  {
    if s != [] {
      ReverseKeeps(s[1..]);
      assert s == [s[0]] + s[1..];
    }
  }

  lemma GatherKeeps(st: State)
    ensures multiset(Gathered(st).received) == multiset(st.arrived + st.received)
    ensures Distinct(st.arrived + st.received) ==> Distinct(Gathered(st).received)
    ensures forall h :: h in Gathered(st).received <==> st.HasReceived(h)
  {
    ReverseKeeps(st.arrived);
    var a, b := st.arrived + st.received, Gathered(st).received;
    DistinctIsOnce(a);
    DistinctIsOnce(b);
    assert forall h :: h in b <==> h in multiset(b);
    assert forall h :: h in a <==> h in multiset(a);
  }

  ghost predicate PeerConsumes(peer: Peer, peer': Peer)
  {
    peer'.requested == peer.requested && (peer'.ids == peer.ids || (peer.ids != [] && peer'.ids == peer.ids[1..]))
  }

  /** Peers may lose the front of their lists; received blocks may only go. */
  ghost predicate Consumes(st: State, st': State)
  {
    && st'.peers.Keys == st.peers.Keys && st'.requests == st.requests
    && (st'.active, st'.handshaking, st'.closing, st'.terminating)
      == (st.active, st.handshaking, st.closing, st.terminating)
    && (forall p :: p in st.peers ==> PeerConsumes(st.peers[p], st'.peers[p]))
    && (forall h :: st'.HasReceived(h) ==> st.HasReceived(h))
  }

  lemma ConsumeKeepsInv(num: Hash -> uint32, limit: nat, st: State, st': State)
    requires Inv(num, limit, st) && Consumes(st, st') && Distinct(st'.arrived + st'.received)
    ensures Inv(num, limit, st')
  {
  }

  lemma RemoveKeepsDistinct(s: seq<Hash>, i: nat)
    requires Distinct(s) && i < |s|
    ensures Distinct(s[..i] + s[i + 1..])
    ensures s[i] !in s[..i] + s[i + 1..]
    ensures multiset(s[..i] + s[i + 1..]) == multiset(s) - multiset{s[i]}
  {
    assert s == s[..i] + [s[i]] + s[i + 1..];
  }

  lemma TakeUpConsumes(st: State, i: nat, accepted: set<Hash>)
    requires i < |st.received| && st.arrived == [] && Distinct(st.received)
    ensures var st' := TakenUp(st, i, accepted).0; Consumes(st, st') && st'.arrived == [] && Distinct(st'.received)
  {
  }

  lemma BacklogConsumes(st: State, accepted: set<Hash>)
    requires Distinct(st.arrived + st.received)
    ensures var st' := Advanced(st, accepted).0; Consumes(st, st') && st'.arrived == [] && Distinct(st'.received)
  {
    var g := Gathered(st);
    GatherKeeps(st);
    NextPlaceInRange(g, 0);
    if NextPlace(g, 0) < |g.received| {
      TakeUpConsumes(g, NextPlace(g, 0), accepted);
    }
  }

  ghost function AsMultiset(handed: Option<Hash>): multiset<Hash>
  {
    match handed case Some(h) => multiset{h} case None => multiset{}
  }

  lemma TakeUpConserves(st: State, i: nat, accepted: set<Hash>)
    requires i < |st.received| && st.arrived == [] && Distinct(st.received)
    ensures var (st', handed) := TakenUp(st, i, accepted);
      && multiset(st.received) == multiset(st'.received) + AsMultiset(handed)
      && (handed.Some? ==>
            handed.value == st.received[i] && handed.value !in accepted && !st'.HasReceived(handed.value))
  {
    RemoveKeepsDistinct(st.received, i);
    assert st.received[i] in multiset(st.received);
  }

  /** Nothing is lost or made up: what was received is what is still here plus what was handed to the delegate, and a
      block handed over is the next one for some active peer. */
  lemma BacklogConserves(st: State, accepted: set<Hash>)
    requires Distinct(st.arrived + st.received)
    ensures var (st', handed) := Advanced(st, accepted);
      && multiset(st.arrived + st.received) == multiset(st'.received) + AsMultiset(handed)
      && (handed.Some? ==> IsNext(st, handed.value) && handed.value !in accepted && !st'.HasReceived(handed.value))
  {
    var g := Gathered(st);
    GatherKeeps(st);
    NextPlaceInRange(g, 0);
    if NextPlace(g, 0) < |g.received| {
      TakeUpConserves(g, NextPlace(g, 0), accepted);
      SameNext(st, g.received[NextPlace(g, 0)]);
    }
  }

  lemma SameNext(st: State, h: Hash)
    ensures IsNext(Gathered(st), h) <==> IsNext(st, h)
  {
  }

  // ---------- rounds of the backlog ----------

  ghost function AsSeq(handed: Option<Hash>): (s: seq<Hash>)
    ensures multiset(s) == AsMultiset(handed)
  {
    match handed case Some(h) => [h] case None => []
  }

  /** The node after some rounds of the backlog loop, and the blocks handed to the delegate in them, in order. */
  datatype Progress = Progress(st: State, handed: seq<Hash>)

  ghost predicate RoundOk(accepted: set<Hash>, rounds: seq<Progress>, i: nat)
  {
    && i + 1 < |rounds| && rounds[i + 1].st == Advanced(rounds[i].st, accepted).0
    && rounds[i + 1].handed == rounds[i].handed + AsSeq(Advanced(rounds[i].st, accepted).1)
  }

  /** Rounds of the backlog loop, given what the delegate recently accepted. */
  ghost predicate AreRounds(accepted: set<Hash>, rounds: seq<Progress>)
  {
    rounds != [] && rounds[0].handed == [] && forall i :: 0 <= i < |rounds| - 1 ==> RoundOk(accepted, rounds, i)
  }

  ghost function Held(st: State): seq<Hash> { st.arrived + st.received }

  /** What is held and what was handed over. */
  ghost function Together(here: seq<Hash>, gone: seq<Hash>): multiset<Hash> { multiset(here) + multiset(gone) }

  lemma RoundConserves(accepted: set<Hash>, rounds: seq<Progress>, i: nat)
    requires RoundOk(accepted, rounds, i) && Distinct(Held(rounds[i].st))
    ensures Together(Held(rounds[i + 1].st), rounds[i + 1].handed) == Together(Held(rounds[i].st), rounds[i].handed)
  {
    var st, handed := rounds[i].st, Advanced(rounds[i].st, accepted).1;
    OneRoundConserves(st, accepted);
    AddUp(Held(st), rounds[i].handed, Held(rounds[i + 1].st), AsSeq(handed));
  }

  lemma AddUp(mid: seq<Hash>, gone: seq<Hash>, here: seq<Hash>, last: seq<Hash>)
    requires multiset(mid) == multiset(here) + multiset(last)
    ensures Together(here, gone + last) == Together(mid, gone)
  {
  }

  lemma OneRoundConserves(st: State, accepted: set<Hash>)
    requires Distinct(Held(st))
    ensures multiset(Held(st)) == multiset(Held(Advanced(st, accepted).0)) + multiset(AsSeq(Advanced(st, accepted).1))
  {
    BacklogConserves(st, accepted);
    BacklogConsumes(st, accepted);
    var st' := Advanced(st, accepted).0;
    assert Held(st') == st'.received;
  }

  lemma {:induction false} RoundsConserve(accepted: set<Hash>, rounds: seq<Progress>, n: nat)
    requires AreRounds(accepted, rounds) && Distinct(Held(rounds[0].st)) && n < |rounds|
    ensures Together(Held(rounds[n].st), rounds[n].handed) == multiset(Held(rounds[0].st))
  {
    if n > 0 {
      RoundsConserve(accepted, rounds, n - 1);
      SplitOnce(Held(rounds[0].st), rounds[n - 1].handed, Held(rounds[n - 1].st));
      assert RoundOk(accepted, rounds, n - 1);
      RoundConserves(accepted, rounds, n - 1);
    }
  }

  /** However many rounds run, no block is lost or made up, and the blocks handed over are distinct and no longer
      here. */
  lemma DrainConserves(accepted: set<Hash>, rounds: seq<Progress>, n: nat)
    requires AreRounds(accepted, rounds) && Distinct(Held(rounds[0].st)) && n < |rounds|
    ensures multiset(Held(rounds[0].st)) == multiset(Held(rounds[n].st)) + multiset(rounds[n].handed)
    ensures Distinct(rounds[n].handed) && forall h :: h in rounds[n].handed ==> !rounds[n].st.HasReceived(h)
  {
    RoundsConserve(accepted, rounds, n);
    SplitOnce(Held(rounds[0].st), Held(rounds[n].st), rounds[n].handed);
    assert forall h :: rounds[n].st.HasReceived(h) ==> h in Held(rounds[n].st);
  }

  lemma SplitOnce(all: seq<Hash>, here: seq<Hash>, gone: seq<Hash>)
    requires Distinct(all) && multiset(all) == multiset(here) + multiset(gone)
    ensures Distinct(gone) && forall h :: h in gone ==> h !in here
  {
    DistinctIsOnce(all);
    DistinctIsOnce(gone);
    assert forall h :: multiset(gone)[h] <= multiset(all)[h];
    forall h | h in gone
      ensures h !in here
    {
      assert multiset(all)[h] <= 1 && h in multiset(gone);
    }
  }

  // ---------- inventories ----------

  lemma InventoryKeepsInv(num: Hash -> uint32, limit: nat, st: State, p: PeerId, hashes: seq<Hash>, remaining: nat,
                          known: set<Hash>, plausible: bool, ask: Ask)
    requires Inv(num, limit, st) && p in st.peers
    ensures Inv(num, limit, InventoryArrived(num, st, p, hashes, remaining, known, plausible, ask))
  {
    var peer := st.peers[p];
    assert PeerInv(num, limit, st, peer);
    if peer.asked.Some? && !ValidResponse(num, peer.asked.value, hashes) {
      MoveKeepsInv(num, limit, st, p, Closing);
    } else if peer.asked.Some? {
      var keepAll := hashes != [] && IsFirstForOther(st, p, hashes[0]);
      MergeKeepsInv(num, limit, st, p, hashes, remaining, known, keepAll);
      ReplaceKeepsInv(num, limit, st, p, peer.(asked := None, weNeedSync := false));
      AfterMergeKeepsInv(num, limit, WithPeer(st, p, MergedPeer(peer, hashes, remaining, known, keepAll)), p, remaining,
                         plausible, ask);
    }
  }

  lemma AfterMergeKeepsInv(num: Hash -> uint32, limit: nat, st: State, p: PeerId, remaining: nat, plausible: bool,
                           ask: Ask)
    requires Inv(num, limit, st) && p in st.peers
    ensures Inv(num, limit, AfterMerge(st, p, remaining, plausible, ask))
  {
    MoveKeepsInv(num, limit, st, p, Closing);
    AskKeepsInv(num, limit, st, p, ask);
  }

  lemma MergeKeepsInv(num: Hash -> uint32, limit: nat, st: State, p: PeerId, hashes: seq<Hash>, remaining: nat,
                      known: set<Hash>, keepAll: bool)
    requires Inv(num, limit, st) && p in st.peers && Consecutive(num, hashes)
    ensures Inv(num, limit, WithPeer(st, p, MergedPeer(st.peers[p], hashes, remaining, known, keepAll)))
  {
    assert PeerInv(num, limit, st, st.peers[p]);
    MergedIsConsecutive(num, st.peers[p].ids, hashes, known, keepAll);
    ReplaceKeepsInv(num, limit, st, p, MergedPeer(st.peers[p], hashes, remaining, known, keepAll));
  }

  // ---------- runs ----------

  lemma NextKeepsInv(num: Hash -> uint32, limit: nat, st: State, step: Step, st': State)
    requires Inv(num, limit, st) && Next(num, limit, st, step, st')
    ensures Inv(num, limit, st')
  {
    match step
    case Connect(p) => ConnectKeepsInv(num, limit, st, p);
    case Move(p, to) => MoveKeepsInv(num, limit, st, p, to);
    case Close(p) => CloseKeepsInv(num, limit, st, p);
    case Drop(p) => DropKeepsInv(num, limit, st, p);
    case Restart(p, ask) =>
      ReplaceKeepsInv(num, limit, st, p, Restarted(st.peers[p]));
      AskKeepsInv(num, limit, WithPeer(st, p, Restarted(st.peers[p])), p, ask);
    case Touch(p, peer) =>
      assert PeerInv(num, limit, st, st.peers[p]);
      ReplaceKeepsInv(num, limit, st, p, peer);
    case Block(p, message, h, ask) => BlockKeepsInv(num, limit, st, p, message, h, ask);
    case Missing(p, h) => MissingKeepsInv(num, limit, st, p, h);
    case Fetch(plan) => FetchKeepsInv(num, limit, st, plan);
    case Backlog(accepted) =>
      BacklogConsumes(st, accepted);
      assert st'.arrived + st'.received == st'.received;
      ConsumeKeepsInv(num, limit, st, st');
    case Inventory(p, hashes, remaining, known, plausible, ask) =>
      InventoryKeepsInv(num, limit, st, p, hashes, remaining, known, plausible, ask);
  }

  ghost predicate IsRun(num: Hash -> uint32, limit: nat, states: seq<State>, steps: seq<Step>)
  {
    && |states| == |steps| + 1
    && forall i :: 0 <= i < |steps| ==> Next(num, limit, states[i], steps[i], states[i + 1])
  }

  /** Every state reachable from the start satisfies the invariant. */
  lemma {:induction false} ReachableInv(num: Hash -> uint32, limit: nat, states: seq<State>, steps: seq<Step>, n: nat)
    requires IsRun(num, limit, states, steps) && states[0] == Initial && n < |states|
    ensures Inv(num, limit, states[n])
  {
    if n > 0 {
      ReachableInv(num, limit, states, steps, n - 1);
      NextKeepsInv(num, limit, states[n - 1], steps[n - 1], states[n]);
    }
  }

  // ---------- requests nobody will answer ----------

  ghost predicate HeldBySomeone(st: State, h: Hash) { exists p :: p in st.peers && h in st.peers[p].requested }

  /** On its way, according to the node, but requested from nobody. */
  ghost predicate Orphaned(st: State, h: Hash) { h in st.requests && !HeldBySomeone(st, h) }

  /** A peer answers that it lacks the requested block, or is deleted from the terminating list with the block
      requested. */
  ghost predicate Abandons(st: State, step: Step, h: Hash)
  {
    match step
    case Missing(p, x) => p in st.peers && x == h && h in st.peers[p].requested && h !in st.peers[p].items
    case Drop(p) => p in st.peers && h in st.peers[p].requested
    case _ => false
  }

  /** Then the request stays on record with nobody to answer it. */
  lemma AbandonOrphans(num: Hash -> uint32, limit: nat, st: State, step: Step, st': State, h: Hash)
    requires Inv(num, limit, st) && Next(num, limit, st, step, st') && Abandons(st, step, h)
    ensures Orphaned(st', h)
  {
    assert PeerInv(num, limit, st, st.peers[step.p]);
  }

  /** No request is made, answered or given back. */
  ghost predicate SameRequests(st: State, st': State)
  {
    && st'.requests == st.requests && st'.peers.Keys == st.peers.Keys
    && forall p :: p in st.peers ==> st'.peers[p].requested == st.peers[p].requested
  }

  predicate IsQuiet(step: Step) { step.Move? || step.Restart? || step.Touch? || step.Backlog? || step.Inventory? }

  lemma QuietKeepsRequests(num: Hash -> uint32, limit: nat, st: State, step: Step, st': State)
    requires Next(num, limit, st, step, st') && IsQuiet(step)
    ensures SameRequests(st, st')
  {
    match step
    case Restart(p, ask) => RestartKeepsRequests(st, p, ask);
    case Backlog(accepted) => BacklogKeepsRequests(st, accepted);
    case Inventory(p, hashes, remaining, known, plausible, ask) =>
      InventoryKeepsRequests(num, st, p, hashes, remaining, known, plausible, ask);
    case _ =>
  }

  lemma RestartKeepsRequests(st: State, p: PeerId, ask: Ask)
    requires p in st.peers
    ensures SameRequests(st, AskedFor(WithPeer(st, p, Restarted(st.peers[p])), p, ask))
  {
    AskKeepsRequests(WithPeer(st, p, Restarted(st.peers[p])), p, ask);
  }

  lemma AskKeepsRequests(st: State, p: PeerId, ask: Ask)
    requires p in st.peers
    ensures SameRequests(st, AskedFor(st, p, ask)) && SameRequests(st, AskedAfterBlock(st, p, ask))
  {
  }

  lemma BacklogKeepsRequests(st: State, accepted: set<Hash>)
    ensures SameRequests(st, Advanced(st, accepted).0)
  {
    NextPlaceInRange(Gathered(st), 0);
  }

  lemma InventoryKeepsRequests(num: Hash -> uint32, st: State, p: PeerId, hashes: seq<Hash>, remaining: nat,
                               known: set<Hash>, plausible: bool, ask: Ask)
    requires p in st.peers
    ensures SameRequests(st, InventoryArrived(num, st, p, hashes, remaining, known, plausible, ask))
  {
    var peer := st.peers[p];
    if peer.asked.Some? && ValidResponse(num, peer.asked.value, hashes) && !UpToDate(peer, hashes, remaining, known) {
      var keepAll := hashes != [] && IsFirstForOther(st, p, hashes[0]);
      MergedKeepsRequests(st, p, MergedPeer(peer, hashes, remaining, known, keepAll), remaining, plausible, ask);
    }
  }

  lemma MergedKeepsRequests(st: State, p: PeerId, peer: Peer, remaining: nat, plausible: bool, ask: Ask)
    requires p in st.peers && peer.requested == st.peers[p].requested
    ensures SameRequests(st, AfterMerge(WithPeer(st, p, peer), p, remaining, plausible, ask))
  {
    AfterMergeKeepsRequests(WithPeer(st, p, peer), p, remaining, plausible, ask);
  }

  lemma AfterMergeKeepsRequests(st: State, p: PeerId, remaining: nat, plausible: bool, ask: Ask)
    requires p in st.peers
    ensures SameRequests(st, AfterMerge(st, p, remaining, plausible, ask))
  {
    AskKeepsRequests(st, p, ask);
  }

  lemma OrphanedStays(num: Hash -> uint32, limit: nat, st: State, step: Step, st': State, h: Hash)
    requires Orphaned(st, h) && Next(num, limit, st, step, st')
    ensures Orphaned(st', h)
  {
    if IsQuiet(step) {
      QuietKeepsRequests(num, limit, st, step, st');
    } else if step.Fetch? {
      assert forall p :: p in step.plan ==> PeerPlan(limit, st, p, step.plan[p]);
    } else if step.Block? {
      BlockAnswers(st, step.p, step.message, step.h, step.ask);
    }
  }

  /** Only the request for the block is answered. */
  ghost predicate Answers(st: State, p: PeerId, h: Hash, st': State)
  {
    && st'.requests == st.requests - {h} && st'.peers.Keys == st.peers.Keys
    && forall q :: q in st.peers ==>
      st'.peers[q].requested == if q == p then st.peers[q].requested - {h} else st.peers[q].requested
  }

  /** A block message answers a request of its sender or changes no request. */
  lemma BlockAnswers(st: State, p: PeerId, message: Hash, h: Hash, ask: Ask)
    requires p in st.peers
    ensures var st' := BlockArrived(st, p, message, h, ask);
      if message !in st.peers[p].items && h in st.peers[p].requested then Answers(st, p, h, st')
      else SameRequests(st, st')
  {
    var st' := Received(st, p, h);
    assert Answers(st, p, h, st');
    AskKeepsRequests(st', p, ask);
  }

  /** No other step parts a request from the peer it was sent to, except by receiving the block or giving the request
      back. */
  lemma OthersStayHeld(num: Hash -> uint32, limit: nat, st: State, step: Step, st': State, h: Hash)
    requires Inv(num, limit, st) && Next(num, limit, st, step, st') && !Abandons(st, step, h)
    requires h in st.requests ==> HeldBySomeone(st, h)
    requires h in st'.requests
    ensures HeldBySomeone(st', h)
  {
    if h !in st.requests {
      NewRequestIsHeld(num, limit, st, step, st', h);
    } else {
      var q :| q in st.peers && h in st.peers[q].requested;
      HolderKeeps(num, limit, st, step, st', h, q);
    }
  }

  /** A peer keeps a request for as long as it is on record, unless it is abandoned. */
  lemma HolderKeeps(num: Hash -> uint32, limit: nat, st: State, step: Step, st': State, h: Hash, q: PeerId)
    requires Next(num, limit, st, step, st') && !Abandons(st, step, h)
    requires q in st.peers && h in st.peers[q].requested && h in st'.requests
    requires forall p :: p in st.peers && h in st.peers[p].requested ==> p == q
    ensures q in st'.peers && h in st'.peers[q].requested
  {
    if IsQuiet(step) {
      QuietKeepsRequests(num, limit, st, step, st');
    } else if step.Block? {
      BlockAnswers(st, step.p, step.message, step.h, step.ask);
    }
  }

  lemma NewRequestIsHeld(num: Hash -> uint32, limit: nat, st: State, step: Step, st': State, h: Hash)
    requires Next(num, limit, st, step, st') && h !in st.requests && h in st'.requests
    ensures HeldBySomeone(st', h)
  {
    if IsQuiet(step) {
      QuietKeepsRequests(num, limit, st, step, st');
    } else if step.Block? {
      BlockAnswers(st, step.p, step.message, step.h, step.ask);
    }
    assert step.Fetch?;
    var p :| p in step.plan && h in step.plan[p];
    assert PeerPlan(limit, st, p, step.plan[p]);
    assert p in st'.peers && h in st'.peers[p].requested;
  }

  ghost predicate WasAbandoned(states: seq<State>, steps: seq<Step>, h: Hash, n: nat)
    requires n <= |steps| < |states|
  {
    exists i :: 0 <= i < n && Abandons(states[i], steps[i], h)
  }

  /** In every run from the start, a request is orphaned if and only if some peer it was sent to answered that it lacks
      the block, or was deleted from the terminating list. */
  lemma {:induction false} OrphanedIfAbandoned(num: Hash -> uint32, limit: nat, states: seq<State>, steps: seq<Step>,
                                               h: Hash, n: nat)
    requires IsRun(num, limit, states, steps) && states[0] == Initial && n < |states|
    ensures Orphaned(states[n], h) <==> WasAbandoned(states, steps, h, n)
  {
    if n > 0 {
      OrphanedIfAbandoned(num, limit, states, steps, h, n - 1);
      ReachableInv(num, limit, states, steps, n - 1);
      var st, step, st' := states[n - 1], steps[n - 1], states[n];
      if Orphaned(st, h) {
        OrphanedStays(num, limit, st, step, st', h);
      } else if Abandons(st, step, h) {
        AbandonOrphans(num, limit, st, step, st', h);
      } else if h in st'.requests {
        OthersStayHeld(num, limit, st, step, st', h);
      }
    }
  }

  /** From then on no iteration of the fetch loop ever requests the block again, from any peer. */
  lemma {:induction false} NeverFetchedAgain(num: Hash -> uint32, limit: nat, states: seq<State>, steps: seq<Step>,
                                             h: Hash, n: nat)
    requires IsRun(num, limit, states, steps) && Orphaned(states[0], h) && n < |states|
    ensures Orphaned(states[n], h)
    ensures forall i :: 0 <= i < n && steps[i].Fetch? ==> !InPlan(steps[i].plan, h)
  {
    if n > 0 {
      NeverFetchedAgain(num, limit, states, steps, h, n - 1);
      OrphanedStays(num, limit, states[n - 1], steps[n - 1], states[n], h);
      var step := steps[n - 1];
      if step.Fetch? {
        assert forall p :: p in step.plan ==> PeerPlan(limit, states[n - 1], p, step.plan[p]);
      }
    }
  }
}
