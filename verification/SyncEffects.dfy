/** What each step of the sync protocol does to the peers, their lists and the blocks on hand, field by field. */
module SyncEffects {
  import opened Collections
  import opened Words
  import opened BlockIds
  import opened SyncState
  import opened SyncRuns

  /** Where the peers are, who they are and what is requested. */
  ghost predicate SameLists(st: State, st': State)
  {
    && st'.active == st.active && st'.handshaking == st.handshaking && st'.closing == st.closing
    && st'.terminating == st.terminating
  }

  ghost predicate SameBlocks(st: State, st': State)
  {
    st'.requests == st.requests && st'.arrived == st.arrived && st'.received == st.received
  }

  ghost predicate OthersSame(st: State, p: PeerId, st': State)
  {
    forall q :: q != p ==> (q in st'.peers <==> q in st.peers) && (q in st.peers ==> st'.peers[q] == st.peers[q])
  }

  /** If the connection ends the peer is in the closing list and in no other; all other peers stay where they were. */
  ghost predicate EndsIf(st: State, p: PeerId, ends: bool, st': State)
  {
    if ends then
      && st'.closing == st.closing + {p} && st'.active == st.active - {p}
      && st'.handshaking == st.handshaking - {p} && st'.terminating == st.terminating - {p}
    else SameLists(st, st')
  }

  // ---------- connections ----------

  /** The peer is in the list it was moved to and in no other; nothing else changes. */
  lemma MoveMeans(st: State, p: PeerId, to: Place)
    ensures var st' := Moved(st, p, to);
      && (p in st'.active <==> to == Active) && (p in st'.closing <==> to == Closing)
      && (p in st'.terminating <==> to == Terminating) && p !in st'.handshaking
      && (forall q :: q != p ==>
            && (q in st'.active <==> q in st.active) && (q in st'.closing <==> q in st.closing)
            && (q in st'.terminating <==> q in st.terminating) && (q in st'.handshaking <==> q in st.handshaking))
      && st'.peers == st.peers && SameBlocks(st, st')
  {
  }

  /** A new connection is handshaking, with no ids, nothing requested and nothing asked. */
  lemma ConnectMeans(st: State, p: PeerId)
    requires p !in st.peers
    ensures var st' := Connected(st, p);
      && p in st'.peers && st'.peers[p].Idle() && st'.peers[p].ids == [] && st'.peers[p].processing == {}
      && st'.peers[p].unfetched == 0 && !st'.peers[p].weNeedSync && !st'.peers[p].peerNeedsSync && !st'.peers[p].inhibit
      && OthersSame(st, p, st') && SameBlocks(st, st') && st'.active == st.active && st'.closing == st.closing
      && st'.terminating == st.terminating && st'.handshaking == st.handshaking + {p}
  {
  }

  /** A connection that goes is in no list; its requests are given back if it was closed, and stay if it was dropped. */
  lemma GoneMeans(st: State, p: PeerId)
    requires p in st.peers
    ensures forall st' :: st' == Closed(st, p) || st' == Dropped(st, p) ==>
      && p !in st'.peers && OthersSame(st, p, st') && st'.arrived == st.arrived && st'.received == st.received
      && st'.active == st.active - {p} && st'.closing == st.closing - {p}
      && st'.handshaking == st.handshaking - {p} && st'.terminating == st.terminating - {p}
    ensures forall h :: h in Closed(st, p).requests <==> h in st.requests && h !in st.peers[p].requested
    ensures Dropped(st, p).requests == st.requests
  {
  }

  /** Starting over with a peer clears what it told us and asks for its ids. */
  lemma RestartMeans(st: State, p: PeerId, ask: Ask)
    requires p in st.peers
    ensures var st' := AskedFor(WithPeer(st, p, Restarted(st.peers[p])), p, ask);
      && p in st'.peers && OthersSame(st, p, st') && SameBlocks(st, st') && EndsIf(st, p, ask.TooOld?, st')
      && var peer, peer' := st.peers[p], st'.peers[p];
        && peer'.ids == [] && peer'.unfetched == 0 && peer'.weNeedSync && !peer'.inhibit
        && peer'.processing == peer.processing && peer'.requested == peer.requested && peer'.items == peer.items
        && peer'.peerNeedsSync == peer.peerNeedsSync
        && peer'.asked == if ask.Sent? then Some(ask.synopsis) else peer.asked
  {
  }

  // ---------- blocks ----------

  /** The last block requested has come, and the peer has more ids than we know of. */
  ghost predicate AsksNext(peer: Peer, h: Hash)
  {
    && peer.requested == {h} && peer.items == {} && peer.asked.None? && peer.unfetched > 0 && |peer.ids| < 10000
  }

  ghost predicate SameIds(peer: Peer, peer': Peer)
  {
    && peer'.ids == peer.ids && peer'.processing == peer.processing && peer'.unfetched == peer.unfetched
    && peer'.weNeedSync == peer.weNeedSync && peer'.peerNeedsSync == peer.peerNeedsSync
  }

  /** A regular item is ticked off. */
  ghost predicate TicksOff(st: State, p: PeerId, message: Hash, st': State)
    requires p in st.peers && p in st'.peers
  {
    var peer, peer' := st.peers[p], st'.peers[p];
    && SameBlocks(st, st') && SameLists(st, st') && peer'.requested == peer.requested && peer'.asked == peer.asked
    && forall x :: x in peer'.items <==> x in peer.items && x != message
  }

  /** A requested block is the latest to have arrived; if it was the last one requested and the peer has more, more ids
      are asked for, or the connection ends. */
  ghost predicate Arrives(st: State, p: PeerId, h: Hash, ask: Ask, st': State)
    requires p in st.peers && p in st'.peers
  {
    var peer, peer' := st.peers[p], st'.peers[p];
    && st'.requests == st.requests - {h} && st'.arrived == [h] + st.arrived
    && peer'.items == peer.items && peer'.requested == peer.requested - {h}
    && peer'.asked == (if AsksNext(peer, h) && ask.Sent? then Some(ask.synopsis) else peer.asked)
    && EndsIf(st, p, AsksNext(peer, h) && !ask.Sent?, st')
  }

  /** A block message: a regular item is ticked off, a requested block arrives, and a block not asked for ends the
      connection. */
  lemma BlockMeans(st: State, p: PeerId, message: Hash, h: Hash, ask: Ask)
    requires p in st.peers
    ensures var peer, st' := st.peers[p], BlockArrived(st, p, message, h, ask);
      && p in st'.peers && OthersSame(st, p, st') && st'.received == st.received
      && SameIds(peer, st'.peers[p]) && st'.peers[p].inhibit == peer.inhibit
      && if message in peer.items then TicksOff(st, p, message, st')
         else if h in peer.requested then Arrives(st, p, h, ask, st')
         else SameBlocks(st, st') && st'.peers == st.peers && EndsIf(st, p, true, st')
  {
    if message !in st.peers[p].items && h in st.peers[p].requested {
      LastBlock(st.peers[p], h);
      ArrivalMeans(st, p, h, ask);
    }
  }

  lemma LastBlock(peer: Peer, h: Hash)
    requires h in peer.requested
    ensures peer.requested - {h} == {} <==> peer.requested == {h}
  {
  }

  lemma ArrivalMeans(st: State, p: PeerId, h: Hash, ask: Ask)
    requires p in st.peers && h in st.peers[p].requested
    ensures var r := Received(st, p, h);
      var st' := if AsksNext(st.peers[p], h) then AskedAfterBlock(r, p, ask) else r;
      && p in st'.peers && OthersSame(st, p, st') && st'.received == st.received && Arrives(st, p, h, ask, st')
      && SameIds(st.peers[p], st'.peers[p]) && st'.peers[p].inhibit == st.peers[p].inhibit
  {
  }

  /** A peer that lacks an item: a regular one is ticked off; a block requested from it is not requested from it any
      longer, although it stays on record, and the peer is not asked for blocks again, or is disconnected. */
  lemma MissingMeans(st: State, p: PeerId, h: Hash)
    requires p in st.peers
    ensures var peer, st' := st.peers[p], NotAvailable(st, p, h);
      && p in st'.peers && OthersSame(st, p, st') && SameBlocks(st, st')
      && var peer' := st'.peers[p];
        && SameIds(peer, peer') && peer'.asked == peer.asked
        && if h in peer.items then
             && SameLists(st, st') && peer'.requested == peer.requested && peer'.inhibit == peer.inhibit
             && forall x :: x in peer'.items <==> x in peer.items && x != h
           else
             && peer'.items == peer.items && (forall x :: x in peer'.requested <==> x in peer.requested && x != h)
             && EndsIf(st, p, h in peer.requested && !peer.peerNeedsSync, st')
             && (peer'.inhibit <==> peer.inhibit || (h in peer.requested && peer.peerNeedsSync))
  {
  }

  /** A peer that blocks are fetched from: active, with blocks we need, nothing outstanding, and not ruled out. */
  ghost predicate Willing(st: State, p: PeerId)
  {
    && p in st.active && p in st.peers && st.peers[p].weNeedSync && !st.peers[p].inhibit && st.peers[p].asked == None
    && (forall h :: h !in st.peers[p].items) && (forall h :: h !in st.peers[p].requested)
  }

  /** A block that is neither here nor on its way. */
  ghost predicate Wanted(st: State, h: Hash) { h !in st.arrived && h !in st.received && h !in st.requests }

  /** A plan asks willing peers for different wanted blocks of their lists, at most the limit each, at least one in all
      cases; and it leaves a wanted block of a willing peer out only if that peer's share is full. */
  lemma PlanMeans(limit: nat, st: State, plan: Plan)
    requires IsPlan(limit, st, plan)
    ensures var share := if limit == 0 then 1 else limit;
      && (forall p :: p in plan ==> Willing(st, p) && 0 < |plan[p]| <= share)
      && (forall p, i, j :: p in plan && 0 <= i < j < |plan[p]| ==> plan[p][i] != plan[p][j])
      && (forall p, h :: p in plan && h in plan[p] ==> h in st.peers[p].ids && Wanted(st, h))
      && (forall p, q, h :: p in plan && q in plan && h in plan[p] && h in plan[q] ==> p == q)
      && (forall p, h :: Willing(st, p) && h in st.peers[p].ids && Wanted(st, h) ==>
            (exists q :: q in plan && h in plan[q]) || (p in plan && |plan[p]| == share))
  {
    forall p | p in plan
      ensures Willing(st, p) && Distinct(plan[p]) && 0 < |plan[p]| <= Max1(limit)
      ensures forall h :: h in plan[p] ==> h in st.peers[p].ids && Wanted(st, h)
    {
      assert PeerPlan(limit, st, p, plan[p]);
    }
    forall p, h | Willing(st, p) && h in st.peers[p].ids && Wanted(st, h)
      ensures InPlan(plan, h) || (p in plan && |plan[p]| == Max1(limit))
    {
      WillingCanFetch(st, p);
    }
  }

  lemma WillingCanFetch(st: State, p: PeerId)
    requires Willing(st, p)
    ensures st.peers[p].CanFetch()
  {
  }

  /** A fetch requests from each peer what is planned for it, and nothing else. */
  lemma FetchMeans(st: State, plan: Plan)
    ensures var st' := Requested(st, plan);
      && SameLists(st, st') && st'.arrived == st.arrived && st'.received == st.received
      && st'.peers.Keys == st.peers.Keys
      && (forall h :: h in st'.requests <==> h in st.requests || exists p :: p in plan && h in plan[p])
      && forall p :: p in st.peers ==>
        && SameIds(st.peers[p], st'.peers[p]) && st'.peers[p].items == st.peers[p].items
        && st'.peers[p].asked == st.peers[p].asked && st'.peers[p].inhibit == st.peers[p].inhibit
        && forall h :: h in st'.peers[p].requested <==> h in st.peers[p].requested || (p in plan && h in plan[p])
  {
  }

  // ---------- the backlog ----------

  /** The newly received blocks, latest first, and then the others. */
  ghost predicate IsQueue(st: State, queue: seq<Hash>)
  {
    && |queue| == |st.arrived| + |st.received|
    && (forall i :: 0 <= i < |st.arrived| ==> queue[i] == st.arrived[|st.arrived| - 1 - i])
    && (forall i :: 0 <= i < |st.received| ==> queue[|st.arrived| + i] == st.received[i])
  }

  /** An active peer whose list starts with the block. */
  ghost predicate StartsWith(st: State, p: PeerId, h: Hash)
  {
    p in st.active && p in st.peers && |st.peers[p].ids| > 0 && st.peers[p].ids[0] == h
  }

  /** The k-th block of the queue is the first that some active peer's list starts with; k is the end if there is
      none. */
  ghost predicate IsFirstNext(st: State, queue: seq<Hash>, k: nat)
  {
    && k <= |queue| && (forall i, p :: 0 <= i < k ==> !StartsWith(st, p, queue[i]))
    && (k < |queue| ==> exists p :: StartsWith(st, p, queue[k]))
  }

  /** Nothing but the lists of ids and the blocks being processed differs. */
  ghost predicate SameButIds(peer: Peer, peer': Peer)
  {
    && peer'.requested == peer.requested && peer'.items == peer.items && peer'.asked == peer.asked
    && peer'.unfetched == peer.unfetched && peer'.weNeedSync == peer.weNeedSync
    && peer'.peerNeedsSync == peer.peerNeedsSync && peer'.inhibit == peer.inhibit
  }

  /** What taking the block up does to a peer: it goes off the front of every active list; it is being processed for
      exactly these peers if it was handed over, and for no active peer if it was recently accepted. */
  ghost predicate PeerTakesUp(st: State, p: PeerId, h: Hash, handed: bool, peer': Peer)
    requires p in st.peers
  {
    var peer := st.peers[p];
    && SameButIds(peer, peer')
    && (StartsWith(st, p, h) ==> [h] + peer'.ids == peer.ids) && (!StartsWith(st, p, h) ==> peer'.ids == peer.ids)
    && (forall x :: x != h ==> (x in peer'.processing <==> x in peer.processing))
    && (h in peer'.processing <==>
          if handed then StartsWith(st, p, h) || h in peer.processing else p !in st.active && h in peer.processing)
  }

  /** One round, given the queue and the place of the first block that is next for a peer. */
  ghost predicate TakesUp(st: State, accepted: set<Hash>, queue: seq<Hash>, k: nat, st': State, handed: Option<Hash>)
  {
    && k <= |queue| && st'.arrived == [] && SameLists(st, st') && st'.requests == st.requests
    && st'.peers.Keys == st.peers.Keys
    && if k == |queue| then handed.None? && st'.received == queue && st'.peers == st.peers
       else if queue[k] in accepted then
         && handed.None? && st'.received == queue
         && forall p :: p in st.peers ==> PeerTakesUp(st, p, queue[k], false, st'.peers[p])
       else
         && handed == Some(queue[k]) && st'.received == queue[..k] + queue[k + 1..]
         && forall p :: p in st.peers ==> PeerTakesUp(st, p, queue[k], true, st'.peers[p])
  }

  lemma {:induction false} ReversedAt(s: seq<Hash>, i: nat)
    requires i < |s|
    ensures |Reverse(s)| == |s| && Reverse(s)[i] == s[|s| - 1 - i]
  {
    if |s| == 1 {
      assert Reverse(s) == [s[0]];
    } else {
      ReversedAt(s[1..], if i < |s| - 1 then i else 0);
    }
  }

  lemma GatheredIsQueue(st: State)
    ensures IsQueue(st, Gathered(st).received)
  {
    ReverseKeeps(st.arrived);
    forall i | 0 <= i < |st.arrived|
      ensures Gathered(st).received[i] == st.arrived[|st.arrived| - 1 - i]
    {
      ReversedAt(st.arrived, i);
    }
  }

  lemma TakenUpTakes(st: State, g: State, k: nat, accepted: set<Hash>)
    requires g == st.(arrived := [], received := g.received) && k < |g.received|
    ensures TakesUp(st, accepted, g.received, k, TakenUp(g, k, accepted).0, TakenUp(g, k, accepted).1)
  {
    var h, st' := g.received[k], TakenUp(g, k, accepted).0;
    forall p | p in st.peers
      ensures PeerTakesUp(st, p, h, h !in accepted, st'.peers[p])
    {
      if StartsWith(st, p, h) {
        assert st.peers[p].ids == [h] + st.peers[p].ids[1..];
      }
    }
  }

  lemma FirstNextFound(st: State)
    ensures var g := Gathered(st); IsFirstNext(st, g.received, NextPlace(g, 0))
  {
    var g := Gathered(st);
    NextPlaceInRange(g, 0);
    forall i, p | 0 <= i < NextPlace(g, 0)
      ensures !StartsWith(st, p, g.received[i])
    {
      assert !IsNext(g, g.received[i]);
    }
    if NextPlace(g, 0) < |g.received| {
      var h := g.received[NextPlace(g, 0)];
      var p :| p in g.active && p in g.peers && g.peers[p].ids != [] && g.peers[p].ids[0] == h;
      assert StartsWith(st, p, h);
    }
  }

  /** One round takes up the first block of the queue that is next for an active peer, and does nothing else. */
  lemma BacklogTakesFirst(st: State, accepted: set<Hash>) returns (queue: seq<Hash>, k: nat)
    ensures IsQueue(st, queue) && IsFirstNext(st, queue, k)
    ensures TakesUp(st, accepted, queue, k, Advanced(st, accepted).0, Advanced(st, accepted).1)
  {
    var g := Gathered(st);
    queue, k := g.received, NextPlace(g, 0);
    GatheredIsQueue(st);
    FirstNextFound(st);
    if k < |queue| {
      TakenUpTakes(st, g, k, accepted);
    }
  }

  // ---------- inventories ----------

  /** The peer has nothing we lack: no ids beyond one we know, none left to tell, and none of its own in our list. */
  ghost predicate InSync(peer: Peer, hashes: seq<Hash>, remaining: nat, known: set<Hash>)
  {
    && remaining == 0 && peer.ids == [] && peer.unfetched == 0
    && |hashes| <= 1 && forall h :: h in hashes ==> h in known
  }

  /** Another active peer's list starts with the first block of the response. */
  ghost predicate OtherOffers(st: State, p: PeerId, hashes: seq<Hash>)
  {
    hashes != [] && exists q :: q != p && StartsWith(st, q, hashes[0])
  }

  /** Few ids are known and the peer has more, or none is left to fetch. */
  ghost predicate Asks(ids: seq<Hash>, remaining: nat) { if remaining > 0 then |ids| <= 10000 else |ids| == 0 }

  /** Nothing but the answer to a request for ids differs. */
  ghost predicate SameButAnswer(peer: Peer, peer': Peer)
  {
    && peer'.processing == peer.processing && peer'.requested == peer.requested && peer'.items == peer.items
    && peer'.peerNeedsSync == peer.peerNeedsSync && peer'.inhibit == peer.inhibit
  }

  /** What an answer to our request leaves of the peer. */
  ghost predicate Answered(st: State, p: PeerId, hashes: seq<Hash>, remaining: nat, known: set<Hash>, plausible: bool,
                           ask: Ask, peer': Peer)
    requires p in st.peers
  {
    var peer := st.peers[p];
    && SameButAnswer(peer, peer')
    && (peer'.weNeedSync <==> peer.weNeedSync && !InSync(peer, hashes, remaining, known))
    && if InSync(peer, hashes, remaining, known) then peer'.ids == [] && peer'.unfetched == 0 && peer'.asked.None?
       else
         && IsMerge(peer.ids, hashes, known, OtherOffers(st, p, hashes), peer'.ids) && peer'.unfetched == remaining
         && peer'.asked == if plausible && Asks(peer'.ids, remaining) && ask.Sent? then Some(ask.synopsis) else None
  }

  /** After an answer that fits the request the connection ends if it offers too many blocks, or if more ids are asked
      for and our fork is too old. */
  ghost predicate EndsConnection(insync: bool, remaining: nat, plausible: bool, ask: Ask, ids': seq<Hash>)
  {
    !insync && (!plausible || (Asks(ids', remaining) && ask.TooOld?))
  }

  /** Only this peer's data differ, and its place if the connection ends. */
  ghost predicate OnlyPeer(st: State, p: PeerId, ends: bool, st': State)
  {
    p in st'.peers && OthersSame(st, p, st') && SameBlocks(st, st') && EndsIf(st, p, ends, st')
  }

  /** The response fits the request: it is empty, or its blocks are numbered upwards from the first, in 32 bits, and the
      first is block 1 if the synopsis was empty, and otherwise a block of the synopsis. */
  ghost predicate FitsRequest(num: Hash -> uint32, synopsis: seq<Hash>, hashes: seq<Hash>)
  {
    hashes == []
    || ((forall i :: 0 <= i < |hashes| ==> num(hashes[i]) == (num(hashes[0]) + i) % 0x1_0000_0000)
        && if |synopsis| == 0 then num(hashes[0]) == 1 else exists k :: 0 <= k < |synopsis| && synopsis[k] == hashes[0])
  }

  lemma ValidFits(num: Hash -> uint32, synopsis: seq<Hash>, hashes: seq<Hash>)
    ensures ValidResponse(num, synopsis, hashes) <==> FitsRequest(num, synopsis, hashes)
  {
    if Consecutive(num, hashes) {
      forall i | 0 <= i < |hashes|
        ensures num(hashes[i]) == (num(hashes[0]) + i) % 0x1_0000_0000
      {
        ConsecutiveAt(num, hashes, i);
      }
    }
    if hashes != [] && forall i :: 0 <= i < |hashes| ==> num(hashes[i]) == (num(hashes[0]) + i) % 0x1_0000_0000 {
      forall i | 0 < i < |hashes|
        ensures num(hashes[i]) == Succ(num(hashes[i - 1]))
      {
        OffsetStep(num(hashes[0]), i - 1);
      }
    }
  }

  /** What an inventory message does: one not asked for does nothing; one that does not fit the request ends the
      connection; any other answers the request. */
  lemma InventoryMeans(num: Hash -> uint32, st: State, p: PeerId, hashes: seq<Hash>, remaining: nat, known: set<Hash>,
                       plausible: bool, ask: Ask)
    requires p in st.peers
    ensures var peer, st' := st.peers[p], InventoryArrived(num, st, p, hashes, remaining, known, plausible, ask);
      && p in st'.peers
      && if peer.asked.None? then st' == st
         else if !FitsRequest(num, peer.asked.value, hashes) then st'.peers == st.peers && OnlyPeer(st, p, true, st')
         else
           && Answered(st, p, hashes, remaining, known, plausible, ask, st'.peers[p])
           && OnlyPeer(st, p, EndsConnection(InSync(peer, hashes, remaining, known), remaining, plausible, ask,
                                             st'.peers[p].ids), st')
  {
    var peer := st.peers[p];
    SameUpToDate(peer, hashes, remaining, known);
    if peer.asked.Some? {
      ValidFits(num, peer.asked.value, hashes);
    }
    if peer.asked.Some? && ValidResponse(num, peer.asked.value, hashes) && !UpToDate(peer, hashes, remaining, known) {
      SameOffer(st, p, hashes);
      MergeAnswers(st, p, hashes, remaining, known, plausible, ask);
    }
  }

  lemma SameUpToDate(peer: Peer, hashes: seq<Hash>, remaining: nat, known: set<Hash>)
    ensures UpToDate(peer, hashes, remaining, known) <==> InSync(peer, hashes, remaining, known)
  {
    if |hashes| == 1 {
      assert hashes == [hashes[0]];
    }
  }

  lemma SameOffer(st: State, p: PeerId, hashes: seq<Hash>)
    ensures OtherOffers(st, p, hashes) <==> hashes != [] && IsFirstForOther(st, p, hashes[0])
  {
    if hashes != [] && IsFirstForOther(st, p, hashes[0]) {
      var q :| q in st.active && q in st.peers && q != p && st.peers[q].ids != [] && st.peers[q].ids[0] == hashes[0];
      assert StartsWith(st, q, hashes[0]);
    }
  }

  lemma MergeAnswers(st: State, p: PeerId, hashes: seq<Hash>, remaining: nat, known: set<Hash>, plausible: bool,
                     ask: Ask)
    requires p in st.peers && !InSync(st.peers[p], hashes, remaining, known)
    ensures var peer := MergedPeer(st.peers[p], hashes, remaining, known, OtherOffers(st, p, hashes));
      var st' := AfterMerge(WithPeer(st, p, peer), p, remaining, plausible, ask);
      && p in st'.peers && Answered(st, p, hashes, remaining, known, plausible, ask, st'.peers[p])
      && OnlyPeer(st, p, EndsConnection(false, remaining, plausible, ask, st'.peers[p].ids), st')
  {
    var keepAll := OtherOffers(st, p, hashes);
    MergedIsMerge(st.peers[p].ids, hashes, known, keepAll);
    AfterMergeMeans(st, p, MergedPeer(st.peers[p], hashes, remaining, known, keepAll), remaining, plausible, ask);
  }

  lemma AfterMergeMeans(st: State, p: PeerId, peer: Peer, remaining: nat, plausible: bool, ask: Ask)
    requires p in st.peers && peer.asked.None?
    ensures var st' := AfterMerge(WithPeer(st, p, peer), p, remaining, plausible, ask);
      var sent := plausible && Asks(peer.ids, remaining) && ask.Sent?;
      && p in st'.peers && st'.peers[p] == peer.(asked := if sent then Some(ask.synopsis) else None)
      && OnlyPeer(st, p, EndsConnection(false, remaining, plausible, ask, peer.ids), st')
  {
  }
}
