/** What a run of the account history holds: every operation applied and not undone, once, either pending or
    imported. */
module HistoryContents {
  import opened Collections
  import opened HistoryTables
  import opened VolatileIndex
  import opened HistoryMachine
  import opened HistoryRuns

  // ---------- the operations not undone ----------

  /** The operations with tracked accounts that were applied and not undone, in order, and how many of them there were
      when each open session was started. */
  datatype Standing = Standing(ops: seq<Pending>, starts: seq<nat>)

  ghost function AfterEvent(a: Standing, e: Event): Standing
  {
    match e
    case Applied(op, impacted) => if impacted == [] then a else a.(ops := a.ops + [Pending(op, impacted)])
    case Notice(_) => a
    case Start => a.(starts := a.starts + [|a.ops|])
    case Squashed => if a.starts == [] then a else a.(starts := a.starts[..|a.starts| - 1])
    case Undone =>
      if a.starts == [] || a.starts[|a.starts| - 1] > |a.ops| then a
      else Standing(a.ops[..a.starts[|a.starts| - 1]], a.starts[..|a.starts| - 1])
    case Committed(count) => if count <= |a.starts| then a.(starts := a.starts[count..]) else a
  }

  ghost function NotUndone(events: seq<Event>, n: nat): Standing
    requires n <= |events|
  {
    if n == 0 then Standing([], []) else AfterEvent(NotUndone(events, n - 1), events[n - 1])
  }

  // ---------- what the state holds of them ----------

  /** Ids from the first one on are those of the operations, in order. */
  ghost predicate Labels(first: nat, v: Volatile, ops: seq<Pending>)
  {
    forall id :: id in v && id >= first ==> id < first + |ops| && v[id] == ops[id - first]
  }

  /** What was imported since the start, and the end of the log. */
  ghost predicate Grew(start: State, s: State, ids: seq<nat>, more: seq<Pending>)
  {
    s.imported == start.imported + ids && s.log == start.log + more && |ids| == |more|
  }

  ghost predicate Match(first: nat, ids: seq<nat>, more: seq<Pending>, ops: seq<Pending>)
  {
    |ids| == |more| && forall k :: 0 <= k < |ids| && ids[k] >= first ==>
      ids[k] < first + |ops| && more[k] == ops[ids[k] - first]
  }

  /** The operations imported since the start are at the end of the log. */
  ghost predicate LogHolds(start: State, s: State, ops: seq<Pending>)
  {
    && start.imported <= s.imported && start.log <= s.log
    && Match(start.next, s.imported[|start.imported|..], s.log[|start.log|..], ops)
  }

  ghost predicate SessionHolds(first: nat, s: State, a: Standing, d: nat)
  {
    && d < |s.sessions| == |a.starts| && a.starts[d] <= |a.ops| && s.sessions[d].1 == first + a.starts[d]
    && Labels(first, s.sessions[d].0, a.ops[..a.starts[d]])
  }

  ghost predicate SessionsHold(first: nat, s: State, a: Standing)
  {
    && |s.sessions| == |a.starts| && (forall d: nat :: d < |a.starts| ==> SessionHolds(first, s, a, d))
    && (forall d, e :: 0 <= d < e < |a.starts| ==> a.starts[d] <= a.starts[e])
  }

  ghost predicate Tracks(start: State, s: State, a: Standing)
  {
    && s.next == start.next + |a.ops| && Labels(start.next, s.pending, a.ops) && LogHolds(start, s, a.ops)
    && SessionsHold(start.next, s, a)
  }

  lemma StartTracks(start: State)
    requires Exact(start) && start.sessions == [] && start.marks == []
    ensures Tracks(start, start, Standing([], []))
  {
  }

  lemma LabelsGrow(first: nat, v: Volatile, ops: seq<Pending>, p: Pending)
    requires Labels(first, v, ops)
    ensures Labels(first, v, ops + [p]) && Labels(first, v[first + |ops| := p], ops + [p])
  {
  }

  lemma AppliedTracks(limit: nat, start: State, s: State, a: Standing, e: Event)
    requires Tracks(start, s, a) && e.Applied?
    ensures Tracks(start, Next(limit, s, e), AfterEvent(a, e))
  {
    if e.impacted != [] {
      var p, a' := Pending(e.op, e.impacted), AfterEvent(a, e);
      LabelsGrow(start.next, s.pending, a.ops, p);
      forall d: nat | d < |a.starts|
        ensures SessionHolds(start.next, Next(limit, s, e), a', d)
      {
        assert SessionHolds(start.next, s, a, d);
        assert a'.ops[..a.starts[d]] == a.ops[..a.starts[d]];
      }
    }
  }

  lemma NoticeTracks(limit: nat, start: State, s: State, a: Standing, block: nat)
    requires Tracks(start, s, a)
    ensures Tracks(start, Noticed(limit, s, block), a)
  {
    ImportHolds(start, s, a.ops, DueIds(s.pending, block), Noticed(limit, s, block));
    forall d: nat | d < |a.starts|
      ensures SessionHolds(start.next, Noticed(limit, s, block), a, d)
    {
      assert SessionHolds(start.next, s, a, d);
    }
  }

  lemma ImportHolds(start: State, s: State, ops: seq<Pending>, ids: seq<nat>, s': State)
    requires LogHolds(start, s, ops) && Labels(start.next, s.pending, ops)
    requires forall i :: 0 <= i < |ids| ==> ids[i] in s.pending
    requires s'.log == s.log + PendingOf(s.pending, ids) && s'.imported == s.imported + ids
    ensures LogHolds(start, s', ops)
  {
    var before, more := s.imported[|start.imported|..], s.log[|start.log|..];
    assert s'.imported[|start.imported|..] == before + ids;
    assert s'.log[|start.log|..] == more + PendingOf(s.pending, ids);
  }

  lemma StartSessionTracks(limit: nat, start: State, s: State, a: Standing)
    requires Tracks(start, s, a)
    ensures Tracks(start, Next(limit, s, Start), AfterEvent(a, Start))
  {
    var s', a' := Next(limit, s, Start), AfterEvent(a, Start);
    assert a.ops[..|a.ops|] == a.ops;
    forall d: nat | d < |a'.starts|
      ensures SessionHolds(start.next, s', a', d)
    {
      assert d < |a.starts| ==> SessionHolds(start.next, s, a, d);
    }
    forall d, e | 0 <= d < e < |a'.starts|
      ensures a'.starts[d] <= a'.starts[e]
    {
      assert SessionHolds(start.next, s, a, d);
    }
  }

  lemma PoppedTracks(start: State, s: State, a: Standing)
    requires Tracks(start, s, a) && |s.marks| == |s.sessions|
    ensures Tracks(start, Popped(s), AfterEvent(a, Squashed))
  {
    var s', a' := Popped(s), AfterEvent(a, Squashed);
    forall d: nat | d < |a'.starts|
      ensures SessionHolds(start.next, s', a', d)
    {
      assert SessionHolds(start.next, s, a, d);
    }
  }

  lemma CommitTracks(limit: nat, start: State, s: State, a: Standing, count: nat)
    requires Tracks(start, s, a) && |s.marks| == |s.sessions|
    ensures Tracks(start, Next(limit, s, Committed(count)), AfterEvent(a, Committed(count)))
  {
    var s', a' := Next(limit, s, Committed(count)), AfterEvent(a, Committed(count));
    var gone := |a.starts| - |a'.starts|;
    forall d: nat | d < |a'.starts|
      ensures SessionHolds(start.next, s', a', d)
    {
      assert SessionHolds(start.next, s, a, d + gone);
    }
  }

  /** A safe undo takes back only operations that are still pending. */
  lemma UndoneTracks(limit: nat, start: State, s: State, a: Standing)
    requires Tracks(start, s, a) && Sound(s) && UndoSafe(s)
    ensures Tracks(start, Next(limit, s, Undone), AfterEvent(a, Undone))
  {
    if s.sessions != [] {
      var top, s', a' := |s.sessions| - 1, Next(limit, s, Undone), AfterEvent(a, Undone);
      assert SessionHolds(start.next, s, a, top) && SessionExact(s, top);
      assert s.imported[..|s.imported|] == s.imported;
      assert a' == Standing(a.ops[..a.starts[top]], a.starts[..top]);
      UndoneLog(start, s, a.ops, a.starts[top]);
      forall d: nat | d < |a'.starts|
        ensures SessionHolds(start.next, s', a', d)
      {
        assert SessionHolds(start.next, s, a, d);
        assert a'.ops[..a.starts[d]] == a.ops[..a.starts[d]];
      }
    }
  }

  lemma UndoneLog(start: State, s: State, ops: seq<Pending>, kept: nat)
    requires LogHolds(start, s, ops) && kept <= |ops| && forall id :: id in s.imported ==> id < start.next + kept
    ensures LogHolds(start, s, ops[..kept])
  {
    var ids := s.imported[|start.imported|..];
    forall k | 0 <= k < |ids|
      ensures ids[k] < start.next + kept
    {
      assert ids[k] in s.imported;
    }
  }

  lemma EventTracks(limit: nat, start: State, s: State, a: Standing, e: Event)
    requires Tracks(start, s, a) && Sound(s) && (e.Undone? ==> UndoSafe(s))
    ensures Tracks(start, Next(limit, s, e), AfterEvent(a, e))
  {
    match e
    case Applied(_, _) => AppliedTracks(limit, start, s, a, e);
    case Notice(block) => if Passes(s, block) { NoticeTracks(limit, start, s, a, block); }
    case Start => StartSessionTracks(limit, start, s, a);
    case Squashed => PoppedTracks(start, s, a);
    case Undone => UndoneTracks(limit, start, s, a);
    case Committed(count) => CommitTracks(limit, start, s, a, count);
  }

  lemma TracksOn(run: Run, i: nat, start: State, a: Standing)
    requires IsRun(run) && IsChainRun(run) && i < |run.events| && SafeHere(run, i)
    ensures Tracks(start, run.states[i], a) && Sound(run.states[i]) ==>
      Tracks(start, run.states[i + 1], AfterEvent(a, run.events[i]))
  {
    NextAt(run, i);
    SafeHereIsSafe(run, i);
    if Tracks(start, run.states[i], a) && Sound(run.states[i]) {
      EventTracks(run.limit, start, run.states[i], a, run.events[i]);
    }
  }

  lemma {:induction false} RunTracks(run: Run, n: nat)
    requires IsRun(run) && IsChainRun(run) && Exact(run.states[0]) && n <= |run.events| && UndosAreSafe(run, n)
    ensures Tracks(run.states[0], run.states[n], NotUndone(run.events, n))
  {
    if n == 0 {
      StartTracks(run.states[0]);
    } else {
      RunTracks(run, n - 1);
      RunIsExact(run, n - 1);
      TracksOn(run, n - 1, run.states[0], NotUndone(run.events, n - 1));
    }
  }

  /** The operation is at one place of the list of what was imported, and its content at the same place of the log. */
  ghost predicate ImportedOnce(ids: seq<nat>, more: seq<Pending>, id: nat, p: Pending)
  {
    |ids| == |more| && exists k ::
      0 <= k < |ids| && ids[k] == id && more[k] == p && forall j :: 0 <= j < |ids| && j != k ==> ids[j] != id
  }

  /** An operation is on hand in exactly one way: pending under its id, or imported once since the start. */
  ghost predicate OnHand(v: Volatile, ids: seq<nat>, more: seq<Pending>, id: nat, p: Pending)
  {
    if id in v then v[id] == p && id !in ids else ImportedOnce(ids, more, id, p)
  }

  /** Each operation is on hand in exactly one way. */
  ghost predicate AllOnHand(v: Volatile, ids: seq<nat>, more: seq<Pending>, first: nat, ops: seq<Pending>)
  {
    forall j :: 0 <= j < |ops| ==> OnHand(v, ids, more, first + j, ops[j])
  }

  /** Over any run in which no notice inside an undone session imported anything, the operations applied and not undone
      have the ids from the start's next id on, and each is on hand in exactly one way, as it was applied. */
  lemma RunHoldsApplied(run: Run, n: nat) returns (ids: seq<nat>, more: seq<Pending>)
    requires IsRun(run) && IsChainRun(run) && Exact(run.states[0]) && n <= |run.events| && UndosAreSafe(run, n)
    ensures Grew(run.states[0], run.states[n], ids, more)
    ensures run.states[n].next == run.states[0].next + |NotUndone(run.events, n).ops|
    ensures AllOnHand(run.states[n].pending, ids, more, run.states[0].next, NotUndone(run.events, n).ops)
  {
    RunTracks(run, n);
    RunIsExact(run, n);
    ids, more := TrackedOnHand(run.states[0], run.states[n], NotUndone(run.events, n));
  }

  lemma TrackedOnHand(start: State, s: State, a: Standing) returns (ids: seq<nat>, more: seq<Pending>)
    requires Tracks(start, s, a) && Exact(s) && Exact(start)
    ensures Grew(start, s, ids, more) && AllOnHand(s.pending, ids, more, start.next, a.ops)
  {
    ids, more := s.imported[|start.imported|..], s.log[|start.log|..];
    assert s.imported == start.imported + ids && s.log == start.log + more;
    AllAreOnHand(start.imported, ids, more, s.pending, start.next, a.ops);
  }

  lemma AllAreOnHand(before: seq<nat>, ids: seq<nat>, more: seq<Pending>, v: Volatile, first: nat, ops: seq<Pending>)
    requires OnceOnly(before + ids, v, first + |ops|) && forall id :: id in before ==> id < first
    requires Labels(first, v, ops) && Match(first, ids, more, ops)
    ensures AllOnHand(v, ids, more, first, ops)
  {
    OnceSplits(before, ids, v, first + |ops|);
    forall j | 0 <= j < |ops|
      ensures OnHand(v, ids, more, first + j, ops[j])
    {
      IsOnHand(before, ids, more, v, first, ops, j);
    }
  }

  lemma OnceSplits(before: seq<nat>, ids: seq<nat>, v: Volatile, next: nat)
    requires OnceOnly(before + ids, v, next)
    ensures Distinct(ids) && forall id :: id in ids ==> id !in v
    ensures forall id: nat :: id < next ==> id in before || id in ids || id in v
  {
    var all := before + ids;
    assert forall i :: 0 <= i < |ids| ==> all[|before| + i] == ids[i];
    assert forall id :: id in all <==> id in before || id in ids;
  }

  lemma IsOnHand(before: seq<nat>, ids: seq<nat>, more: seq<Pending>, v: Volatile, first: nat, ops: seq<Pending>,
                 j: nat)
    requires Distinct(ids) && forall id :: id in ids ==> id !in v
    requires forall id: nat :: id < first + |ops| ==> id in before || id in ids || id in v
    requires (forall id :: id in before ==> id < first) && j < |ops|
    requires Labels(first, v, ops) && Match(first, ids, more, ops)
    ensures OnHand(v, ids, more, first + j, ops[j])
  {
    var id := first + j;
    if id !in v {
      assert id !in before && id in ids;
      var k :| 0 <= k < |ids| && ids[k] == id;
      assert more[k] == ops[j];
    }
  }

  // ---------- the order of the log ----------

  /** An earlier block, or the same block and a smaller id. */
  ghost predicate Earlier(block: nat, id: nat, block': nat, id': nat)
  {
    block < block' || (block == block' && id < id')
  }

  /** What was imported is in the order of blocks and, within a block, of ids, and comes before all that is pending. */
  ghost predicate Ordered(ids: seq<nat>, more: seq<Pending>, v: Volatile)
  {
    && |ids| == |more|
    && (forall i, j :: 0 <= i < j < |ids| ==> Earlier(more[i].op.block, ids[i], more[j].op.block, ids[j]))
    && (forall i, id :: 0 <= i < |ids| && id in v ==> Earlier(more[i].op.block, ids[i], v[id].op.block, id))
  }

  lemma AppliedOrdered(ids: seq<nat>, more: seq<Pending>, v: Volatile, next: nat, p: Pending)
    requires Ordered(ids, more, v) && (forall i :: 0 <= i < |ids| ==> ids[i] < next && more[i].op.block <= p.op.block)
    ensures Ordered(ids, more, v[next := p])
  {
  }

  lemma NoticeOrdered(ids: seq<nat>, more: seq<Pending>, v: Volatile, due: seq<nat>, block: nat)
    requires Ordered(ids, more, v) && AreDue(v, block, due) && forall i :: 0 <= i < |due| ==> due[i] in v
    ensures Ordered(ids + due, more + PendingOf(v, due), Without(v, due))
  {
    var all, ops := ids + due, more + PendingOf(v, due);
    assert forall i :: 0 <= i < |due| ==> due[i] in due;
    forall i, j | 0 <= i < j < |all|
      ensures Earlier(ops[i].op.block, all[i], ops[j].op.block, all[j])
    {
      if |ids| <= i {
        assert Sooner(v, due[i - |ids|], due[j - |ids|]) && due[i - |ids|] != due[j - |ids|];
      }
    }
  }

  lemma SubmapOrdered(ids: seq<nat>, more: seq<Pending>, v: Volatile, w: Volatile)
    requires Ordered(ids, more, v) && Submap(w, v)
    ensures Ordered(ids, more, w)
  {
  }

  ghost predicate LogOrdered(start: State, s: State)
  {
    && start.imported <= s.imported && start.log <= s.log
    && Ordered(s.imported[|start.imported|..], s.log[|start.log|..], s.pending)
  }

  lemma EventOrdered(limit: nat, start: State, s: State, e: Event)
    requires LogOrdered(start, s) && Sound(s) && WellFormed(s, e) && (e.Undone? ==> UndoSafe(s))
    ensures LogOrdered(start, Next(limit, s, e))
  {
    var ids, more := s.imported[|start.imported|..], s.log[|start.log|..];
    match e
    case Applied(op, impacted) =>
      ImportedAreOlder(start, s, ids, more);
      AppliedOrdered(ids, more, s.pending, s.next, Pending(op, impacted));
    case Notice(block) =>
      if Passes(s, block) {
        var due, s' := DueIds(s.pending, block), Noticed(limit, s, block);
        NoticeOrdered(ids, more, s.pending, due, block);
        assert s'.imported[|start.imported|..] == ids + due;
        assert s'.log[|start.log|..] == more + PendingOf(s.pending, due);
      }
    case Undone =>
      if s.sessions != [] {
        assert SessionExact(s, |s.sessions| - 1);
        SubmapOrdered(ids, more, s.pending, s.sessions[|s.sessions| - 1].0);
      }
    case _ =>
  }

  lemma ImportedAreOlder(start: State, s: State, ids: seq<nat>, more: seq<Pending>)
    requires Exact(s) && s.imported == start.imported + ids && s.log == start.log + more && |ids| == |more|
    ensures forall i :: 0 <= i < |ids| ==> ids[i] < s.next && more[i].op.block <= s.horizon
  {
    forall i | 0 <= i < |ids|
      ensures ids[i] < s.next && more[i].op.block <= s.horizon
    {
      assert s.imported[|start.imported| + i] == ids[i] && ids[i] in s.imported;
      assert s.log[|start.log| + i] == more[i];
    }
  }

  lemma OrderedOn(run: Run, i: nat, start: State)
    requires IsRun(run) && IsChainRun(run) && i < |run.events| && SafeHere(run, i)
    ensures LogOrdered(start, run.states[i]) && Sound(run.states[i]) ==> LogOrdered(start, run.states[i + 1])
  {
    NextAt(run, i);
    SafeHereIsSafe(run, i);
    if LogOrdered(start, run.states[i]) && Sound(run.states[i]) {
      EventOrdered(run.limit, start, run.states[i], run.events[i]);
    }
  }

  /** In such a run, what was imported since the start is in the order of blocks and, within a block, in the order in
      which it was applied, and before everything still pending. */
  lemma {:induction false} RunImportsInOrder(run: Run, n: nat)
    requires IsRun(run) && IsChainRun(run) && Exact(run.states[0]) && n <= |run.events| && UndosAreSafe(run, n)
    ensures LogOrdered(run.states[0], run.states[n])
  {
    if n > 0 {
      RunImportsInOrder(run, n - 1);
      RunIsExact(run, n - 1);
      OrderedOn(run, n - 1, run.states[0]);
    }
  }
}
