/** The sync protocol as a transition system over peers, request sets and received lists: every handler is one step. */
module SyncState {
  import opened Collections
  import opened Words
  import opened BlockIds

  type PeerId = nat

  /** The sync data of one connection; asked is the synopsis of an unanswered request for ids. */
  datatype Peer = Peer(ids: seq<Hash>, processing: set<Hash>, requested: set<Hash>, items: set<Hash>,
                       asked: Option<seq<Hash>>, unfetched: nat, weNeedSync: bool, peerNeedsSync: bool, inhibit: bool)
  {
    predicate Idle() { items == {} && requested == {} && asked.None? }

    predicate CanFetch() { weNeedSync && Idle() && !inhibit }
  }

  /** A connection is known from the moment it opens until it is closed; it is in at most one of the four lists. */
  datatype State = State(peers: map<PeerId, Peer>, active: set<PeerId>, handshaking: set<PeerId>, closing: set<PeerId>,
                         terminating: set<PeerId>, requests: set<Hash>, arrived: seq<Hash>, received: seq<Hash>)
  {
    predicate HasReceived(h: Hash) { h in arrived || h in received }

    /** Neither here nor on its way. */
    predicate Fetchable(h: Hash) { !HasReceived(h) && h !in requests }
  }

  // ---------- the invariant ----------

  ghost predicate PeerInv(num: Hash -> uint32, limit: nat, st: State, p: Peer)
  {
    && p.requested <= st.requests && |p.requested| <= Max1(limit)
    && (forall h :: h in p.requested ==> !st.HasReceived(h))
    && Consecutive(num, p.ids)
  }

  ghost predicate RequestsDisjoint(peers: map<PeerId, Peer>)
  {
    forall p, q, h :: p in peers && q in peers && h in peers[p].requested && h in peers[q].requested ==> p == q
  }

  ghost predicate ListsInv(st: State)
  {
    && st.active + st.handshaking + st.closing + st.terminating <= st.peers.Keys
    && st.active !! st.handshaking !! st.closing !! st.terminating
  }

  ghost predicate Inv(num: Hash -> uint32, limit: nat, st: State)
  {
    && (forall p :: p in st.peers ==> PeerInv(num, limit, st, st.peers[p]))
    && RequestsDisjoint(st.peers)
    && Distinct(st.arrived + st.received)
    && ListsInv(st)
  }

  const Initial := State(map[], {}, {}, {}, {}, {}, [], [])

  // ---------- connections ----------

  datatype Place = Active | Closing | Terminating | Nowhere

  /** The move_peer functions: out of every list, into one. */
  function Moved(st: State, p: PeerId, to: Place): State
  {
    st.(active := if to == Active then st.active + {p} else st.active - {p},
        handshaking := st.handshaking - {p},
        closing := if to == Closing then st.closing + {p} else st.closing - {p},
        terminating := if to == Terminating then st.terminating + {p} else st.terminating - {p})
  }

  function Connected(st: State, p: PeerId): State
  {
    st.(peers := st.peers[p := Peer([], {}, {}, {}, None, 0, false, false, false)], handshaking := st.handshaking + {p})
  }

  /** A closed connection gives its requests back. */
  function Closed(st: State, p: PeerId): State
    requires p in st.peers
  {
    Moved(st, p, Nowhere).(peers := st.peers - {p}, requests := st.requests - st.peers[p].requested)
  }

  /** A connection stuck in the terminating list is deleted; its requests are not given back. */
  function Dropped(st: State, p: PeerId): State { Moved(st, p, Nowhere).(peers := st.peers - {p}) }

  function WithPeer(st: State, p: PeerId, peer: Peer): State { st.(peers := st.peers[p := peer]) }

  /** Starting over with a peer drops what it told us. */
  function Restarted(peer: Peer): Peer { peer.(ids := [], unfetched := 0, weNeedSync := true, inhibit := false) }

  /** Neither the list of ids nor the requests of the peer change. */
  ghost predicate SameSync(peer: Peer, peer': Peer) { peer'.ids == peer.ids && peer'.requested == peer.requested }

  // ---------- blocks ----------

  /** Below this many ids known of a peer, more ids are asked for before blocks. */
  function MinIds(): nat { 10000 }

  /** A request for more ids: the synopsis is sent, or our fork is too old to make one, or making it fails its index
      assertion. */
  datatype Ask = Sent(synopsis: seq<Hash>) | TooOld | AssertionFailed

  /** fetch_next_batch_of_item_ids_from_peer: on too old a fork the connection ends; a failed assertion leaves the peer
      unasked. */
  function AskedFor(st: State, p: PeerId, ask: Ask): State
    requires p in st.peers
  {
    match ask
    case Sent(synopsis) => WithPeer(st, p, st.peers[p].(asked := Some(synopsis)))
    case TooOld => Moved(st, p, Closing)
    case AssertionFailed => st
  }

  /** The block handler logs a failed assertion and goes on to where it ends the connection. */
  function AskedAfterBlock(st: State, p: PeerId, ask: Ask): State
    requires p in st.peers
  {
    if ask.AssertionFailed? then Moved(st, p, Closing) else AskedFor(st, p, ask)
  }

  /** A requested sync block moves to the received ones. */
  function Received(st: State, p: PeerId, h: Hash): State
    requires p in st.peers
  {
    WithPeer(st, p, st.peers[p].(requested := st.peers[p].requested - {h})).(
      requests := st.requests - {h}, arrived := [h] + st.arrived)
  }

  /** A block message: a regular item is ticked off and handled elsewhere; a requested sync block is received, and a
      peer left idle with few ids is asked for more; anything not asked for ends the connection. */
  function BlockArrived(st: State, p: PeerId, message: Hash, h: Hash, ask: Ask): State
    requires p in st.peers
  {
    var peer := st.peers[p];
    if message in peer.items then WithPeer(st, p, peer.(items := peer.items - {message}))
    else if h in peer.requested then
      var st' := Received(st, p, h);
      if st'.peers[p].Idle() && peer.unfetched > 0 && |peer.ids| < MinIds() then AskedAfterBlock(st', p, ask) else st'
    else Moved(st, p, Closing)
  }

  /** A peer answers that it lacks an item: a regular one is ticked off; a sync block stays among the active
      requests. */
  function NotAvailable(st: State, p: PeerId, h: Hash): State
    requires p in st.peers
  {
    var peer := st.peers[p];
    if h in peer.items then WithPeer(st, p, peer.(items := peer.items - {h}))
    else if h !in peer.requested then st
    else
      var peer' := peer.(requested := peer.requested - {h});
      if peer.peerNeedsSync then WithPeer(st, p, peer'.(inhibit := true))
      else Moved(WithPeer(st, p, peer'), p, Closing)
  }

  // ---------- fetching ----------

  /** What one iteration of the fetch loop requests from whom. */
  type Plan = map<PeerId, seq<Hash>>

  ghost predicate PeerPlan(limit: nat, st: State, p: PeerId, items: seq<Hash>)
  {
    && p in st.active && p in st.peers && st.peers[p].CanFetch()
    && 0 < |items| <= Max1(limit) && Distinct(items)
    && forall h :: h in items ==> h in st.peers[p].ids && st.Fetchable(h)
  }

  ghost predicate PlanDisjoint(plan: Plan)
  {
    forall p, q, h :: p in plan && q in plan && h in plan[p] && h in plan[q] ==> p == q
  }

  ghost predicate InPlan(plan: Plan, h: Hash) { exists p :: p in plan && h in plan[p] }

  /** No willing peer has anything left to request, unless its share is full. */
  ghost predicate PlanComplete(limit: nat, st: State, plan: Plan)
  {
    forall p, h ::
      p in st.active && p in st.peers && st.peers[p].CanFetch() && h in st.peers[p].ids && st.Fetchable(h) ==>
      InPlan(plan, h) || (p in plan && |plan[p]| == Max1(limit))
  }

  ghost predicate IsPlan(limit: nat, st: State, plan: Plan)
  {
    && (forall p :: p in plan ==> PeerPlan(limit, st, p, plan[p]))
    && PlanDisjoint(plan) && PlanComplete(limit, st, plan)
  }

  ghost function PlanItems(plan: Plan): set<Hash> { set p, h | p in plan && h in plan[p] :: h }

  ghost function Requested(st: State, plan: Plan): State
  {
    st.(peers := map p | p in st.peers ::
          if p in plan then st.peers[p].(requested := st.peers[p].requested + SetOf(plan[p])) else st.peers[p],
        requests := st.requests + PlanItems(plan))
  }

  // ---------- the backlog ----------

  function Reverse(s: seq<Hash>): seq<Hash> { if s == [] then [] else Reverse(s[1..]) + [s[0]] }

  /** Newly received blocks go to the front of the received ones. */
  function Gathered(st: State): State { st.(arrived := [], received := Reverse(st.arrived) + st.received) }

  /** The block is the next one some active peer offers. */
  predicate IsNext(st: State, h: Hash)
  {
    exists p :: p in st.active && p in st.peers && st.peers[p].ids != [] && st.peers[p].ids[0] == h
  }

  /** Its first place in the received list, or past the end. */
  function NextPlace(st: State, from: nat): nat
    requires from <= |st.received|
    decreases |st.received| - from
  {
    if from == |st.received| || IsNext(st, st.received[from]) then from else NextPlace(st, from + 1)
  }

  /** Every active peer that offers the block next has it taken off its list. */
  function Popped(st: State, h: Hash): State
  {
    st.(peers := map p | p in st.peers ::
          if p in st.active && st.peers[p].ids != [] && st.peers[p].ids[0] == h
          then st.peers[p].(ids := st.peers[p].ids[1..], processing := st.peers[p].processing + {h})
          else st.peers[p])
  }

  function Processed(st: State, h: Hash): State
  {
    st.(peers := map p | p in st.peers ::
          if p in st.active then st.peers[p].(processing := st.peers[p].processing - {h}) else st.peers[p])
  }

  /** A received block that is next for a peer is handed to the delegate, or, if the delegate recently accepted it, is
      only taken off the peers' lists and stays here. */
  function TakenUp(st: State, i: nat, accepted: set<Hash>): (State, Option<Hash>)
    requires i < |st.received|
  {
    var h := st.received[i];
    if h in accepted then (Processed(Popped(st, h), h), None)
    else (Popped(st, h).(received := st.received[..i] + st.received[i + 1..]), Some(h))
  }

  /** One round of the backlog loop takes up the first received block that is next for a peer. */
  function Advanced(st: State, accepted: set<Hash>): (State, Option<Hash>)
  {
    var g := Gathered(st);
    NextPlaceInRange(g, 0);
    if NextPlace(g, 0) == |g.received| then (g, None) else TakenUp(g, NextPlace(g, 0), accepted)
  }

  lemma {:induction false} NextPlaceInRange(st: State, from: nat)
    requires from <= |st.received|
    ensures from <= NextPlace(st, from) <= |st.received|
    ensures forall i :: from <= i < NextPlace(st, from) ==> !IsNext(st, st.received[i])
    ensures NextPlace(st, from) < |st.received| ==> IsNext(st, st.received[NextPlace(st, from)])
    decreases |st.received| - from
  {
    if from < |st.received| && !IsNext(st, st.received[from]) {
      NextPlaceInRange(st, from + 1);
    }
  }

  // ---------- inventories ----------

  /** Another active peer offers this block next. */
  predicate IsFirstForOther(st: State, p: PeerId, h: Hash)
  {
    exists q :: q in st.active && q in st.peers && q != p && st.peers[q].ids != [] && st.peers[q].ids[0] == h
  }

  /** The response builds on the request: it is empty, or consecutive and starting where the synopsis allows. */
  ghost predicate ValidResponse(num: Hash -> uint32, synopsis: seq<Hash>, hashes: seq<Hash>)
  {
    hashes == [] || (Consecutive(num, hashes) && if synopsis == [] then num(hashes[0]) == 1 else hashes[0] in synopsis)
  }

  predicate UpToDate(peer: Peer, hashes: seq<Hash>, remaining: nat, known: set<Hash>)
  {
    remaining == 0 && (hashes == [] || (|hashes| == 1 && hashes[0] in known)) && peer.ids == [] && peer.unfetched == 0
  }

  ghost function InventoryArrived(num: Hash -> uint32, st: State, p: PeerId, hashes: seq<Hash>, remaining: nat,
                                  known: set<Hash>, plausible: bool, ask: Ask): State
    requires p in st.peers
  {
    var peer := st.peers[p];
    if peer.asked.None? then st
    else if !ValidResponse(num, peer.asked.value, hashes) then Moved(st, p, Closing)
    else if UpToDate(peer, hashes, remaining, known) then WithPeer(st, p, peer.(asked := None, weNeedSync := false))
    else
      var keepAll := hashes != [] && IsFirstForOther(st, p, hashes[0]);
      AfterMerge(WithPeer(st, p, MergedPeer(peer, hashes, remaining, known, keepAll)), p, remaining, plausible, ask)
  }

  function MergedPeer(peer: Peer, hashes: seq<Hash>, remaining: nat, known: set<Hash>, keepAll: bool): Peer
  {
    peer.(asked := None, unfetched := remaining, ids := Merged(peer.ids, hashes, known, keepAll))
  }

  /** An implausible number of blocks ends the connection; otherwise more ids may be asked for. */
  function AfterMerge(st: State, p: PeerId, remaining: nat, plausible: bool, ask: Ask): State
    requires p in st.peers
  {
    if !plausible then Moved(st, p, Closing)
    else if WantsMore(st.peers[p].ids, remaining) then AskedFor(st, p, ask)
    else st
  }

  /** After an inventory more ids are asked for if the peer has more and few are known, or if none is left to fetch. */
  predicate WantsMore(ids: seq<Hash>, remaining: nat) { if remaining != 0 then |ids| <= MinIds() else ids == [] }

  // ---------- steps and runs ----------

  datatype Step =
    | Connect(p: PeerId)
    | Move(p: PeerId, to: Place)
    | Close(p: PeerId)
    | Drop(p: PeerId)
    | Restart(p: PeerId, ask: Ask)
    | Touch(p: PeerId, peer: Peer)
    | Block(p: PeerId, message: Hash, h: Hash, ask: Ask)
    | Missing(p: PeerId, h: Hash)
    | Fetch(plan: Plan)
    | Backlog(accepted: set<Hash>)
    | Inventory(p: PeerId, hashes: seq<Hash>, remaining: nat, known: set<Hash>, plausible: bool, ask: Ask)

  ghost predicate Next(num: Hash -> uint32, limit: nat, st: State, step: Step, st': State)
  {
    match step
    case Connect(p) => p !in st.peers && st' == Connected(st, p)
    case Move(p, to) => p in st.peers && to != Nowhere && st' == Moved(st, p, to)
    case Close(p) => p in st.peers && st' == Closed(st, p)
    case Drop(p) => p in st.terminating && p in st.peers && st' == Dropped(st, p)
    case Restart(p, ask) => p in st.peers && st' == AskedFor(WithPeer(st, p, Restarted(st.peers[p])), p, ask)
    case Touch(p, peer) => p in st.peers && SameSync(st.peers[p], peer) && st' == WithPeer(st, p, peer)
    case Block(p, message, h, ask) => p in st.peers && st' == BlockArrived(st, p, message, h, ask)
    case Missing(p, h) => p in st.peers && st' == NotAvailable(st, p, h)
    case Fetch(plan) => IsPlan(limit, st, plan) && st' == Requested(st, plan)
    case Backlog(accepted) => st' == Advanced(st, accepted).0
    case Inventory(p, hashes, remaining, known, plausible, ask) =>
      p in st.peers && st' == InventoryArrived(num, st, p, hashes, remaining, known, plausible, ask)
  }

  // ---------- every step keeps the invariant ----------

  lemma MoveKeepsInv(num: Hash -> uint32, limit: nat, st: State, p: PeerId, to: Place)
    requires Inv(num, limit, st) && p in st.peers
    ensures Inv(num, limit, Moved(st, p, to))
  {
  }

  lemma ConnectKeepsInv(num: Hash -> uint32, limit: nat, st: State, p: PeerId)
    requires Inv(num, limit, st) && p !in st.peers
    ensures Inv(num, limit, Connected(st, p))
  {
  }

  /** Replacing a peer's data keeps the invariant if its list stays consecutive and no request is added. */
  lemma ReplaceKeepsInv(num: Hash -> uint32, limit: nat, st: State, p: PeerId, peer: Peer)
    requires Inv(num, limit, st) && p in st.peers && Consecutive(num, peer.ids)
    requires peer.requested <= st.peers[p].requested
    ensures Inv(num, limit, WithPeer(st, p, peer))
  {
    var st' := WithPeer(st, p, peer);
    assert PeerInv(num, limit, st, st.peers[p]);
    SubsetSize(peer.requested, st.peers[p].requested);
    forall q | q in st'.peers
      ensures PeerInv(num, limit, st', st'.peers[q])
    {
      assert PeerInv(num, limit, st, st.peers[q]);
    }
  }

  /** A closed connection gives back exactly its own requests: they can be fetched again, all others stay requested. */
  lemma CloseKeepsInv(num: Hash -> uint32, limit: nat, st: State, p: PeerId)
    requires Inv(num, limit, st) && p in st.peers
    ensures Inv(num, limit, Closed(st, p))
    ensures forall h :: h in st.peers[p].requested ==> Closed(st, p).Fetchable(h)
    ensures forall h :: h in st.requests && h !in st.peers[p].requested ==> h in Closed(st, p).requests
    ensures forall q :: q in Closed(st, p).peers <==> q in st.peers && q != p
  {
    assert PeerInv(num, limit, st, st.peers[p]);
  }

  lemma DropKeepsInv(num: Hash -> uint32, limit: nat, st: State, p: PeerId)
    requires Inv(num, limit, st) && p in st.peers
    ensures Inv(num, limit, Dropped(st, p))
  {
  }

  /** A received block is no longer requested from anyone, and is received exactly now. */
  lemma ReceiveKeepsInv(num: Hash -> uint32, limit: nat, st: State, p: PeerId, h: Hash)
    requires Inv(num, limit, st) && p in st.peers && h in st.peers[p].requested
    ensures Inv(num, limit, Received(st, p, h))
    ensures !st.HasReceived(h) && Received(st, p, h).HasReceived(h) && h !in Received(st, p, h).requests
    ensures forall x :: x != h ==> (x in Received(st, p, h).requests <==> x in st.requests)
  {
    var st' := Received(st, p, h);
    var mid := WithPeer(st, p, st.peers[p].(requested := st.peers[p].requested - {h}));
    ReplaceKeepsInv(num, limit, st, p, mid.peers[p]);
    assert PeerInv(num, limit, st, st.peers[p]);
    PrependDistinct(h, st.arrived, st.received);
    forall q | q in st'.peers
      ensures PeerInv(num, limit, st', st'.peers[q])
    {
      assert PeerInv(num, limit, mid, mid.peers[q]);
      assert h !in mid.peers[q].requested;
    }
  }

  lemma AskKeepsInv(num: Hash -> uint32, limit: nat, st: State, p: PeerId, ask: Ask)
    requires Inv(num, limit, st) && p in st.peers
    ensures Inv(num, limit, AskedFor(st, p, ask)) && Inv(num, limit, AskedAfterBlock(st, p, ask))
  {
    assert PeerInv(num, limit, st, st.peers[p]);
    if ask.Sent? {
      ReplaceKeepsInv(num, limit, st, p, st.peers[p].(asked := Some(ask.synopsis)));
    } else {
      MoveKeepsInv(num, limit, st, p, Closing);
    }
  }

  /** A block message keeps the invariant in every branch; a sync block moves from requested to received, and a block
      nobody asked this peer for changes nothing but ends the connection. */
  lemma BlockKeepsInv(num: Hash -> uint32, limit: nat, st: State, p: PeerId, message: Hash, h: Hash, ask: Ask)
    requires Inv(num, limit, st) && p in st.peers
    ensures var st' := BlockArrived(st, p, message, h, ask);
      && Inv(num, limit, st')
      && (if message !in st.peers[p].items && h in st.peers[p].requested
          then st'.arrived == [h] + st.arrived && st'.requests == st.requests - {h}
          else st'.arrived == st.arrived && st'.requests == st.requests)
      && (message !in st.peers[p].items && h !in st.peers[p].requested ==> p in st'.closing && st'.peers == st.peers)
  {
    var peer := st.peers[p];
    assert PeerInv(num, limit, st, peer);
    if message in peer.items {
      ReplaceKeepsInv(num, limit, st, p, peer.(items := peer.items - {message}));
    } else if h in peer.requested {
      ReceiveKeepsInv(num, limit, st, p, h);
      AskKeepsInv(num, limit, Received(st, p, h), p, ask);
    } else {
      MoveKeepsInv(num, limit, st, p, Closing);
    }
  }

  lemma PrependDistinct(h: Hash, a: seq<Hash>, b: seq<Hash>)
    requires Distinct(a + b) && h !in a && h !in b
    ensures Distinct([h] + a + b)
  {
    var s := [h] + a + b;
    assert forall i :: 0 < i < |s| ==> s[i] == (a + b)[i - 1] && s[i] in a + b;
  }

  lemma MissingKeepsInv(num: Hash -> uint32, limit: nat, st: State, p: PeerId, h: Hash)
    requires Inv(num, limit, st) && p in st.peers
    ensures Inv(num, limit, NotAvailable(st, p, h))
  {
    var peer := st.peers[p];
    assert PeerInv(num, limit, st, peer);
    ReplaceKeepsInv(num, limit, st, p, peer.(items := peer.items - {h}));
    var peer' := peer.(requested := peer.requested - {h});
    ReplaceKeepsInv(num, limit, st, p, peer'.(inhibit := true));
    ReplaceKeepsInv(num, limit, st, p, peer');
    MoveKeepsInv(num, limit, WithPeer(st, p, peer'), p, Closing);
  }
}
