/** The node's sync handlers, working on its fields in place. Each is one step of the transition system. */
module SyncNode {
  import opened Collections
  import opened Words
  import opened BlockIds
  import opened SyncState
  import opened SyncRuns

  // ---------- planning the requests ----------

  /** Goes through a peer's list and picks blocks that are neither here, nor on their way, nor already planned. */
  method Pick(limit: nat, st: State, ids: seq<Hash>, taken: set<Hash>) returns (items: seq<Hash>)
    ensures Distinct(items) && |items| <= Max1(limit)
    ensures forall h :: h in items ==> h in ids && st.Fetchable(h) && h !in taken
    ensures |items| == Max1(limit) || forall h :: h in ids && st.Fetchable(h) ==> h in items || h in taken
  {
    items := [];
    for i := 0 to |ids|
      invariant Distinct(items) && |items| < Max1(limit)
      invariant forall h :: h in items ==> h in ids && st.Fetchable(h) && h !in taken
      invariant forall j :: 0 <= j < i && st.Fetchable(ids[j]) ==> ids[j] in items || ids[j] in taken
    {
      var h := ids[i];
      if st.Fetchable(h) && h !in taken && h !in items {
        items := items + [h];
        if |items| >= limit {
          return;
        }
      }
    }
  }

  /** The plan so far, for the peers looked at. */
  ghost predicate PartialPlan(limit: nat, st: State, plan: Plan, done: set<PeerId>, taken: set<Hash>)
  {
    && (forall p :: p in plan ==> p in done && PeerPlan(limit, st, p, plan[p]))
    && PlanDisjoint(plan)
    && (forall h :: h in taken <==> InPlan(plan, h))
    && forall p, h ::
      p in done && p in st.peers && st.peers[p].CanFetch() && h in st.peers[p].ids && st.Fetchable(h) ==>
      h in taken || (p in plan && |plan[p]| == Max1(limit))
  }

  lemma PlanGrows(limit: nat, st: State, plan: Plan, done: set<PeerId>, taken: set<Hash>, p: PeerId, items: seq<Hash>)
    requires PartialPlan(limit, st, plan, done, taken) && p !in done && PeerPlan(limit, st, p, items)
    requires forall h :: h in items ==> h !in taken
    requires |items| == Max1(limit) || forall h :: h in st.peers[p].ids && st.Fetchable(h) ==> h in items || h in taken
    ensures PartialPlan(limit, st, plan[p := items], done + {p}, taken + SetOf(items))
  {
  }

  lemma PlanSkips(limit: nat, st: State, plan: Plan, done: set<PeerId>, taken: set<Hash>, p: PeerId)
    requires PartialPlan(limit, st, plan, done, taken) && p !in done
    requires p in st.peers && st.peers[p].CanFetch() ==>
      forall h :: h in st.peers[p].ids && st.Fetchable(h) ==> h in taken
    ensures PartialPlan(limit, st, plan, done + {p}, taken)
  {
  }

  /** One iteration of the fetch loop decides what to request from each willing active peer. */
  method PlanRequests(limit: nat, st: State) returns (plan: Plan)
    requires ListsInv(st)
    ensures IsPlan(limit, st, plan)
  {
    plan := map[];
    var todo, taken: set<Hash> := st.active, {};
    ghost var done: set<PeerId> := {};
    while todo != {}
      invariant todo <= st.active && done == st.active - todo
      invariant PartialPlan(limit, st, plan, done, taken)
      decreases todo
    {
      var p :| p in todo;
      var items := [];
      if st.peers[p].CanFetch() {
        items := Pick(limit, st, st.peers[p].ids, taken);
      }
      if items != [] {
        PlanGrows(limit, st, plan, done, taken, p, items);
        plan, taken := plan[p := items], taken + SetOf(items);
      } else {
        PlanSkips(limit, st, plan, done, taken, p);
      }
      todo := todo - {p};
      done := done + {p};
      assert done == st.active - todo;
    }
  }

  lemma PlanItemsGrow(sent: Plan, p: PeerId, items: seq<Hash>)
    requires p !in sent
    ensures PlanItems(sent[p := items]) == PlanItems(sent) + SetOf(items)
  {
    var sent' := sent[p := items];
    forall h | h in PlanItems(sent) + SetOf(items)
      ensures h in PlanItems(sent')
    {
      if h in items {
        assert p in sent' && h in sent'[p];
      } else {
        var q :| q in sent && h in sent[q];
        assert q in sent' && h in sent'[q];
      }
    }
  }

  lemma SendOneMore(st: State, sent: Plan, p: PeerId, items: seq<Hash>)
    requires p in st.peers && p !in sent
    ensures var s := Requested(st, sent);
      && p in s.peers
      && Requested(st, sent[p := items]) ==
        WithPeer(s, p, s.peers[p].(requested := s.peers[p].requested + SetOf(items))).(
          requests := s.requests + SetOf(items))
  {
    var s, s' := Requested(st, sent), Requested(st, sent[p := items]);
    PlanItemsGrow(sent, p, items);
    assert s'.peers == s.peers[p := s.peers[p].(requested := s.peers[p].requested + SetOf(items))];
  }

  lemma AdvanceShrinks(st: State, accepted: set<Hash>)
    requires Distinct(st.arrived + st.received)
    ensures var (st', handed) := Advanced(st, accepted);
      handed.Some? ==> |st'.arrived| + |st'.received| < |st.arrived| + |st.received|
  {
    var (st', handed) := Advanced(st, accepted);
    BacklogConserves(st, accepted);
    BacklogConsumes(st, accepted);
    assert |multiset(st.arrived + st.received)| == |st.arrived| + |st.received|;
    assert |multiset(st'.received) + AsMultiset(handed)| == |st'.received| + |AsMultiset(handed)|;
  }

  lemma OneMoreRound(accepted: set<Hash>, rounds: seq<Progress>, rounds': seq<Progress>)
    requires AreRounds(accepted, rounds) && |rounds'| == |rounds| + 1 && rounds <= rounds'
    requires RoundOk(accepted, rounds', |rounds| - 1)
    ensures AreRounds(accepted, rounds')
  {
    forall i | 0 <= i < |rounds|
      ensures RoundOk(accepted, rounds', i)
    {
      if i < |rounds| - 1 {
        SameRound(accepted, rounds, rounds', i);
      }
    }
  }

  lemma SameRound(accepted: set<Hash>, rounds: seq<Progress>, rounds': seq<Progress>, i: nat)
    requires i + 1 < |rounds| <= |rounds'| && rounds[i] == rounds'[i] && rounds[i + 1] == rounds'[i + 1]
    ensures RoundOk(accepted, rounds, i) ==> RoundOk(accepted, rounds', i)
  {
  }

  /** The loop ended because the last of its rounds handed nothing over, or because there is no more room. */
  ghost predicate StopsAfter(handed: nat, rounds: nat, room: nat)
  {
    rounds > 0 && handed <= room && (handed == rounds - 1 || (handed == rounds && handed == room))
  }

  // ---------- the node ----------

  class Node {
    const num: Hash -> uint32
    const limit: nat
    var peers: map<PeerId, Peer>
    var active: set<PeerId>
    var handshaking: set<PeerId>
    var closing: set<PeerId>
    var terminating: set<PeerId>
    var requests: set<Hash>
    var arrived: seq<Hash>
    var received: seq<Hash>
    var suspended: bool

    ghost function Snapshot(): State
      reads this
    {
      State(peers, active, handshaking, closing, terminating, requests, arrived, received)
    }

    ghost predicate Valid()
      reads this
    {
      Inv(num, limit, Snapshot())
    }

    constructor (num: Hash -> uint32, limit: nat)
      ensures Valid() && Snapshot() == Initial && this.num == num && this.limit == limit && !suspended
    {
      this.num, this.limit := num, limit;
      peers, active, handshaking, closing, terminating := map[], {}, {}, {}, {};
      requests, arrived, received, suspended := {}, [], [], false;
    }

    method MoveTo(p: PeerId, to: Place)
      requires Valid() && p in peers
      modifies this
      ensures Valid() && Snapshot() == Moved(old(Snapshot()), p, to) && suspended == old(suspended)
    {
      MoveKeepsInv(num, limit, Snapshot(), p, to);
      active, handshaking, closing, terminating := active - {p}, handshaking - {p}, closing - {p}, terminating - {p};
      match to {
        case Active => active := active + {p};
        case Closing => closing := closing + {p};
        case Terminating => terminating := terminating + {p};
        case Nowhere =>
      }
      assert Snapshot() == Moved(old(Snapshot()), p, to);
    }

    /** on_connection_closed: what was requested from the peer can be requested from others. */
    method OnConnectionClosed(p: PeerId)
      requires Valid() && p in peers
      modifies this
      ensures Valid() && Snapshot() == Closed(old(Snapshot()), p) && suspended == old(suspended)
    {
      CloseKeepsInv(num, limit, Snapshot(), p);
      active, handshaking, closing, terminating := active - {p}, handshaking - {p}, closing - {p}, terminating - {p};
      var todo := peers[p].requested;
      while todo != {}
        invariant peers == old(peers) && todo <= peers[p].requested
        invariant requests == old(requests) - (peers[p].requested - todo)
        invariant Snapshot() == Moved(old(Snapshot()), p, Nowhere).(requests := requests) && suspended == old(suspended)
        decreases todo
      {
        var h :| h in todo;
        requests := requests - {h};
        todo := todo - {h};
      }
      peers := peers - {p};
      assert Snapshot() == Closed(old(Snapshot()), p);
    }

    /** start_synchronizing_with_peer. */
    method StartSynchronizing(p: PeerId, ask: Ask)
      requires Valid() && p in peers
      modifies this
      ensures Valid() && suspended == old(suspended)
      ensures Snapshot() == AskedFor(WithPeer(old(Snapshot()), p, Restarted(old(peers[p]))), p, ask)
    {
      SetPeer(p, peers[p].(ids := [], unfetched := 0, weNeedSync := true, inhibit := false));
      AskForIds(p, ask);
    }

    /** Updates of one connection's sync data that drop requests and keep its list consecutive. */
    method SetPeer(p: PeerId, peer: Peer)
      requires Valid() && p in peers && Consecutive(num, peer.ids) && peer.requested <= peers[p].requested
      modifies this
      ensures Valid() && Snapshot() == WithPeer(old(Snapshot()), p, peer) && suspended == old(suspended)
    {
      ReplaceKeepsInv(num, limit, Snapshot(), p, peer);
      peers := peers[p := peer];
    }

    /** process_block_message: message is the hash of the message, h the id of the block it carries, and ask what
        becomes of a request for more ids. */
    method OnBlock(p: PeerId, message: Hash, h: Hash, ask: Ask)
      requires Valid() && p in peers
      modifies this
      ensures Valid() && Snapshot() == BlockArrived(old(Snapshot()), p, message, h, ask) && suspended == old(suspended)
    {
      var peer := peers[p];
      assert PeerInv(num, limit, Snapshot(), peer);
      if message in peer.items {
        SetPeer(p, peer.(items := peer.items - {message}));
      } else if h in peer.requested {
        Receive(p, h);
        if peers[p].Idle() && peer.unfetched > 0 && |peer.ids| < MinIds() {
          AskForIds(p, ask);
          if ask.AssertionFailed? {
            MoveTo(p, Closing);
          }
        }
      } else {
        MoveTo(p, Closing);
      }
    }

    method Receive(p: PeerId, h: Hash)
      requires Valid() && p in peers && h in peers[p].requested
      modifies this
      ensures Valid() && Snapshot() == Received(old(Snapshot()), p, h) && suspended == old(suspended)
    {
      ReceiveKeepsInv(num, limit, Snapshot(), p, h);
      peers := peers[p := peers[p].(requested := peers[p].requested - {h})];
      requests := requests - {h};
      arrived := [h] + arrived;
    }

    method AskForIds(p: PeerId, ask: Ask)
      requires Valid() && p in peers
      modifies this
      ensures Valid() && Snapshot() == AskedFor(old(Snapshot()), p, ask) && suspended == old(suspended)
    {
      if ask.Sent? {
        assert PeerInv(num, limit, Snapshot(), peers[p]);
        SetPeer(p, peers[p].(asked := Some(ask.synopsis)));
      } else if ask.TooOld? {
        MoveTo(p, Closing);
      }
    }

    /** on_item_not_available_message. */
    method OnItemNotAvailable(p: PeerId, h: Hash)
      requires Valid() && p in peers
      modifies this
      ensures Valid() && Snapshot() == NotAvailable(old(Snapshot()), p, h) && suspended == old(suspended)
    {
      var peer := peers[p];
      assert PeerInv(num, limit, Snapshot(), peer);
      if h in peer.items {
        SetPeer(p, peer.(items := peer.items - {h}));
      } else if h in peer.requested {
        peer := peer.(requested := peer.requested - {h});
        if peer.peerNeedsSync {
          SetPeer(p, peer.(inhibit := true));
        } else {
          SetPeer(p, peer);
          MoveTo(p, Closing);
        }
      }
    }

    /** The connection loop deletes a connection stuck in the terminating list. */
    method OnTerminated(p: PeerId)
      requires Valid() && p in peers && p in terminating
      modifies this
      ensures Valid() && Snapshot() == Dropped(old(Snapshot()), p) && suspended == old(suspended)
    {
      DropKeepsInv(num, limit, Snapshot(), p);
      terminating := terminating - {p};
      peers := peers - {p};
      assert Snapshot() == Dropped(old(Snapshot()), p);
    }

    method OnConnect(p: PeerId)
      requires Valid() && p !in peers
      modifies this
      ensures Valid() && Snapshot() == Connected(old(Snapshot()), p) && suspended == old(suspended)
    {
      ConnectKeepsInv(num, limit, Snapshot(), p);
      peers := peers[p := Peer([], {}, {}, {}, None, 0, false, false, false)];
      handshaking := handshaking + {p};
    }

    /** on_blockchain_item_ids_inventory_message; known is what the delegate has, plausible the check of the offered
        number of blocks against the clock, ask what becomes of a request for more ids. */
    method OnInventory(p: PeerId, hashes: seq<Hash>, remaining: nat, known: set<Hash>, plausible: bool,
                       ask: Ask)
      requires Valid() && p in peers
      modifies this
      ensures Valid() && suspended == old(suspended)
      ensures Snapshot() == InventoryArrived(num, old(Snapshot()), p, hashes, remaining, known, plausible, ask)
    {
      var peer := peers[p];
      if peer.asked.None? {
        return;
      }
      var valid := CheckResponse(peer.asked.value, hashes);
      if !valid {
        MoveTo(p, Closing);
      } else if UpToDate(peer, hashes, remaining, known) {
        assert PeerInv(num, limit, Snapshot(), peer);
        SetPeer(p, peer.(asked := None, weNeedSync := false));
      } else {
        MergeInventory(p, hashes, remaining, known);
        FinishInventory(p, remaining, plausible, ask);
      }
    }

    method FinishInventory(p: PeerId, remaining: nat, plausible: bool, ask: Ask)
      requires Valid() && p in peers
      modifies this
      ensures Valid() && suspended == old(suspended)
      ensures Snapshot() == AfterMerge(old(Snapshot()), p, remaining, plausible, ask)
    {
      if !plausible {
        MoveTo(p, Closing);
      } else if WantsMore(peers[p].ids, remaining) {
        AskForIds(p, ask);
      }
    }

    method CheckResponse(synopsis: seq<Hash>, hashes: seq<Hash>) returns (ok: bool)
      ensures ok <==> ValidResponse(num, synopsis, hashes)
    {
      if hashes == [] {
        return true;
      }
      ok := IsSequential(num, hashes);
      if ok {
        ok := if synopsis == [] then num(hashes[0]) == 1 else hashes[0] in synopsis;
      }
    }

    method MergeInventory(p: PeerId, hashes: seq<Hash>, remaining: nat, known: set<Hash>)
      requires Valid() && p in peers && Consecutive(num, hashes)
      modifies this
      ensures Valid() && suspended == old(suspended)
      ensures var keepAll := hashes != [] && IsFirstForOther(old(Snapshot()), p, hashes[0]);
        Snapshot() == WithPeer(old(Snapshot()), p, MergedPeer(old(peers[p]), hashes, remaining, known, keepAll))
    {
      var peer := peers[p];
      assert PeerInv(num, limit, Snapshot(), peer);
      var ids := peer.ids;
      ghost var keepAll := hashes != [] && IsFirstForOther(Snapshot(), p, hashes[0]);
      if hashes != [] && peer.ids == [] {
        if exists q :: q in active && q in peers && q != p && peers[q].ids != [] && peers[q].ids[0] == hashes[0] {
          ids := hashes;
        } else {
          ids := FlushKnown(hashes, known);
        }
      } else if hashes != [] {
        var kept, rest := MergeIntoList(num, peer.ids, hashes, known, keepAll);
        ids := kept + rest;
      }
      MergedIsConsecutive(num, peer.ids, hashes, known, keepAll);
      SetPeer(p, peer.(asked := None, unfetched := remaining, ids := ids));
    }

    /** One iteration of fetch_sync_items_loop. */
    method FetchSyncItems() returns (plan: Plan)
      requires Valid()
      modifies this
      ensures Valid() && suspended == old(suspended)
      ensures suspended ==> plan == map[] && Snapshot() == old(Snapshot())
      ensures !suspended ==> IsPlan(limit, old(Snapshot()), plan) && Snapshot() == Requested(old(Snapshot()), plan)
    {
      plan := map[];
      if !suspended {
        ghost var before := Snapshot();
        var st := State(peers, active, handshaking, closing, terminating, requests, arrived, received);
        plan := PlanRequests(limit, st);
        FetchKeepsInv(num, limit, before, plan);
        Send(plan);
      }
    }

    method Send(plan: Plan)
      requires plan.Keys <= peers.Keys
      modifies this
      ensures Snapshot() == Requested(old(Snapshot()), plan) && suspended == old(suspended)
    {
      ghost var before := Snapshot();
      var todo := plan.Keys;
      ghost var sent: Plan := map[];
      assert Requested(before, sent) == before;
      while todo != {}
        invariant todo <= plan.Keys && sent.Keys == plan.Keys - todo && forall p :: p in sent ==> sent[p] == plan[p]
        invariant Snapshot() == Requested(before, sent) && suspended == old(suspended)
        decreases todo
      {
        var p :| p in todo;
        SendOneMore(before, sent, p, plan[p]);
        SendTo(p, plan[p]);
        todo := todo - {p};
        sent := sent[p := plan[p]];
      }
      assert sent == plan;
    }

    /** request_sync_items_from_peer. */
    method SendTo(p: PeerId, items: seq<Hash>)
      requires p in peers
      modifies this
      ensures suspended == old(suspended)
      ensures var peer := old(peers[p]);
        Snapshot() == WithPeer(old(Snapshot()), p, peer.(requested := peer.requested + SetOf(items))).(
          requests := old(requests) + SetOf(items))
    {
      requests := requests + SetOf(items);
      peers := peers[p := peers[p].(requested := peers[p].requested + SetOf(items))];
    }

    /** The search for the first received block that is next for a peer. */
    method FindNext() returns (i: nat)
      requires arrived == []
      ensures i <= |received| && i == NextPlace(Snapshot(), 0)
    {
      i := 0;
      while i < |received| &&
            !(exists p :: p in active && p in peers && peers[p].ids != [] && peers[p].ids[0] == received[i])
        invariant i <= |received| && NextPlace(Snapshot(), 0) == NextPlace(Snapshot(), i)
      {
        assert !IsNext(Snapshot(), received[i]);
        i := i + 1;
      }
      assert i < |received| ==> IsNext(Snapshot(), received[i]);
    }

    /** One round of process_backlog_of_sync_blocks. */
    method AdvanceBacklog(accepted: set<Hash>) returns (handed: Option<Hash>)
      requires Valid()
      modifies this
      ensures Valid() && (Snapshot(), handed) == Advanced(old(Snapshot()), accepted) && suspended == old(suspended)
    {
      ghost var before := Snapshot();
      BacklogConsumes(before, accepted);
      ConsumeKeepsInv(num, limit, before, Advanced(before, accepted).0);
      Gather();
      var i := FindNext();
      handed := None;
      if i < |received| {
        handed := TakeUp(i, accepted);
      }
    }

    /** process_backlog_of_sync_blocks: rounds until one hands nothing over or enough blocks are being handled. */
    method ProcessBacklog(inProgress: nat, maxHandled: nat, maxPrefetch: nat, accepted: set<Hash>)
      returns (handed: seq<Hash>, ghost rounds: seq<Progress>)
      requires Valid()
      modifies this
      ensures Valid() && AreRounds(accepted, rounds) && rounds[0].st == old(Snapshot())
      ensures rounds[|rounds| - 1] == Progress(Snapshot(), handed)
      ensures inProgress >= maxHandled ==> |rounds| == 1 && suspended == old(suspended)
      ensures inProgress < maxHandled ==> StopsAfter(|handed|, |rounds| - 1, maxHandled - inProgress)
      ensures inProgress < maxHandled ==>
        suspended == (inProgress + |handed| == maxHandled && |received| >= maxPrefetch)
    {
      handed, rounds := [], [Progress(Snapshot(), [])];
      if inProgress >= maxHandled {
        return;
      }
      suspended := false;
      handed, rounds := Drain(maxHandled - inProgress, accepted);
      if inProgress + |handed| >= maxHandled {
        suspended := |received| >= maxPrefetch;
      }
    }

    method Drain(room: nat, accepted: set<Hash>) returns (handed: seq<Hash>, ghost rounds: seq<Progress>)
      requires Valid() && room > 0
      modifies this
      ensures Valid() && suspended == old(suspended) && AreRounds(accepted, rounds) && rounds[0].st == old(Snapshot())
      ensures StopsAfter(|handed|, |rounds| - 1, room)
      ensures rounds[|rounds| - 1] == Progress(Snapshot(), handed)
    {
      handed, rounds := [], [Progress(Snapshot(), [])];
      while true
        invariant Valid() && suspended == old(suspended) && |handed| == |rounds| - 1 < room
        invariant AreRounds(accepted, rounds) && rounds[0].st == old(Snapshot())
        invariant rounds[|rounds| - 1] == Progress(Snapshot(), handed)
        decreases |arrived| + |received|
      {
        var h;
        h, rounds := NextRound(rounds, handed, accepted);
        if h.None? {
          return;
        }
        handed := handed + [h.value];
        if |handed| >= room {
          return;
        }
      }
    }

    method NextRound(ghost rounds: seq<Progress>, ghost handed: seq<Hash>, accepted: set<Hash>)
      returns (h: Option<Hash>, ghost rounds': seq<Progress>)
      requires Valid() && AreRounds(accepted, rounds) && rounds[|rounds| - 1] == Progress(Snapshot(), handed)
      modifies this
      ensures Valid() && suspended == old(suspended) && AreRounds(accepted, rounds')
      ensures rounds' == rounds + [Progress(Snapshot(), handed + AsSeq(h))]
      ensures h.Some? ==> |arrived| + |received| < old(|arrived| + |received|)
    {
      ghost var before := Snapshot();
      AdvanceShrinks(before, accepted);
      h := AdvanceBacklog(accepted);
      rounds' := rounds + [Progress(Snapshot(), handed + AsSeq(h))];
      OneMoreRound(accepted, rounds, rounds');
    }

    method Gather()
      modifies this
      ensures Snapshot() == Gathered(old(Snapshot())) && suspended == old(suspended)
    {
      var all := arrived;
      while arrived != []
        invariant Reverse(arrived) + received == Reverse(all) + old(received)
        invariant Snapshot() == old(Snapshot()).(arrived := arrived, received := received)
        invariant suspended == old(suspended)
        decreases |arrived|
      {
        assert Reverse(arrived) + received == Reverse(arrived[1..]) + ([arrived[0]] + received);
        received := [arrived[0]] + received;
        arrived := arrived[1..];
      }
    }

    method TakeUp(i: nat, accepted: set<Hash>) returns (handed: Option<Hash>)
      requires i < |received|
      modifies this
      ensures (Snapshot(), handed) == TakenUp(old(Snapshot()), i, accepted) && suspended == old(suspended)
    {
      var h := received[i];
      peers := map p | p in peers ::
        if p in active && peers[p].ids != [] && peers[p].ids[0] == h
        then peers[p].(ids := peers[p].ids[1..], processing := peers[p].processing + {h})
        else peers[p];
      if h in accepted {
        peers := map p | p in peers ::
          if p in active then peers[p].(processing := peers[p].processing - {h}) else peers[p];
        handed := None;
      } else {
        received := received[..i] + received[i + 1..];
        handed := Some(h);
      }
    }
  }
}
