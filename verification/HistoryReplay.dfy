/** Running the plugin itself, and the inputs that show where the history depends on the write limit, on the stored
    block number and on undone sessions. */
module HistoryReplay {
  import opened Collections
  import opened HistoryTables
  import opened VolatileIndex
  import opened HistoryMachine
  import opened AccountHistory
  import opened HistoryRuns
  import opened HistoryQueries

  // ---------- the plugin follows the machine ----------

  method Handle(p: Plugin, e: Event)
    requires p.Valid() && |p.marks| == |p.sessions|
    modifies p
    ensures p.Valid() && p.Snapshot() == Next(p.writeLimit, old(p.Snapshot()), e)
  {
    match e {
      case Applied(op, impacted) => p.OnPostApply(op, impacted);
      case Notice(block) => var _ := p.OnIrreversible(block);
      case Start => p.StartSession();
      case Squashed => p.Squash();
      case Undone => p.Undo();
      case Committed(count) => p.Commit(count);
    }
  }

  method HandleAll(p: Plugin, events: seq<Event>, ghost run: Run)
    requires IsRun(run) && run.events == events && run.limit == p.writeLimit
    requires p.Valid() && p.Snapshot() == run.states[0] && p.sessions == [] && p.marks == []
    modifies p
    ensures p.Valid() && p.Snapshot() == run.states[|events|]
  {
    for i := 0 to |events|
      invariant p.Valid() && p.Snapshot() == run.states[i]
    {
      SessionsMarked(run, i, 0);
      NextAt(run, i);
      Handle(p, events[i]);
    }
  }

  /** Opening a store, running and closing: the tables and sequence numbers are those of the log the machine computes,
      and the block number is the one the machine stores. */
  method Replay(store: Store, pending: Volatile, next: nat, events: seq<Event>, writeLimit: nat, ghost run: Run)
    returns (store': Store)
    requires IsRun(run) && run.events == events && run.limit == writeLimit
    requires var start := run.states[0];
      && Holds(store, start.log) && start.pending == pending && start.next == next
      && start.lib == Opened(store.lib) && start.sessions == [] && start.marks == []
    ensures var s := run.states[|events|]; Holds(store', s.log) && store'.lib == Closed(s.lib).stored
  {
    var p := new Plugin(writeLimit, store, pending, next, run.states[0]);
    HandleAll(p, events, run);
    p.FlushStorage();
    store' := p.storage;
  }

  /** After a run without unsafe undos, the operations found for a block are those of the log, as they were applied. */
  method ReplayAndFind(store: Store, pending: Volatile, next: nat, events: seq<Event>, writeLimit: nat, block: nat,
                       ghost run: Run) returns (ops: seq<Op>, ghost ids: seq<nat>)
    requires IsRun(run) && run.events == events && run.limit == writeLimit && IsChainRun(run) && Exact(run.states[0])
    requires var start := run.states[0];
      Holds(store, start.log) && start.pending == pending && start.next == next && start.lib == Opened(store.lib)
    requires UndosAreSafe(run, |events|) && |run.states[|events|].log| <= 0x8000_0000_0000_0000
    ensures FoundInBlock(run.states[|events|].log, block, ids, ops)
  {
    var store' := Replay(store, pending, next, events, writeLimit, run);
    RunTablesMean(run, |events|);
    ops, ids := FindByBlock(store'.tables, block, run.states[|events|].log);
  }

  /** The same for the latest operations of an account. */
  method ReplayAndFindFor(store: Store, pending: Volatile, next: nat, events: seq<Event>, writeLimit: nat, name: Name,
                          from: nat, limit: nat, ghost run: Run) returns (found: seq<(nat, Op)>)
    requires IsRun(run) && run.events == events && run.limit == writeLimit && IsChainRun(run) && Exact(run.states[0])
    requires var start := run.states[0];
      Holds(store, start.log) && start.pending == pending && start.next == next && start.lib == Opened(store.lib)
    requires UndosAreSafe(run, |events|) && |run.states[|events|].log| <= 0x8000_0000_0000_0000
    ensures var log := run.states[|events|].log; FoundForAccount(log, History(log, name), from, limit, found)
  {
    ghost var log := run.states[|events|].log;
    var store' := Replay(store, pending, next, events, writeLimit, run);
    RunTablesMean(run, |events|);
    found := FindForAccount(store'.tables, name, from, limit, log, Ideal(log).1);
  }

  /** Opening a store without a block number and running anything leaves it as it was, so opening it again starts
      over. */
  lemma FreshStoreStaysFresh(store: Store, run: Run)
    requires IsRun(run) && Holds(store, run.states[0].log) && store.lib.None? && run.states[0].lib == Opened(store.lib)
    ensures var s := run.states[|run.events|];
      s.log == run.states[0].log && Opened(Closed(s.lib).stored) == run.states[0].lib
  {
    FreshNeverImports(run, |run.events|);
  }

  // ---------- inputs that matter ----------

  /** An empty index and a store whose block number is up to date and before the given block. */
  ghost predicate Idle(s: State, block: nat)
  {
    && s.pending == map[] && s.lib.collected == 0 && s.lib.stored.Some? && s.lib.stored.value < block
    && s.lib.batched == s.lib.stored
  }

  ghost predicate Has(p: Pending, block: nat) { p.impacted != [] && p.op.block == block }

  /** One operation applied with nothing else pending, then the notice of its block. */
  lemma AppliedThenNoticed(limit: nat, s: State, p: Pending, block: nat)
    requires s.pending == map[] && Has(p, block)
    ensures var t := Next(limit, Next(limit, s, Applied(p.op, p.impacted)), Notice(block));
      && t.sessions == s.sessions && t.marks == s.marks && t.next == s.next + 1
      && if Passes(s, block)
         then t.log == s.log + [p] && t.pending == map[] && t.lib == Counted(s.lib, limit).(batched := Some(block))
         else t.log == s.log && t.pending == map[s.next := p] && t.lib == s.lib
  {
    var t := Next(limit, s, Applied(p.op, p.impacted));
    assert t.pending == map[s.next := p];
    OneIsDue(t.pending, s.next, block);
    assert CountedAll(t.lib, limit, 1) == Counted(CountedAll(t.lib, limit, 0), limit);
  }

  ghost function OnePair(limit: nat, s: State, p: Pending, block: nat): State
  {
    Next(limit, Next(limit, s, Applied(p.op, p.impacted)), Notice(block))
  }

  /** One operation and its notice: closing stores the block with write limit 2 but not with write limit 1. */
  lemma CloseDependsOnLimit(s: State, p: Pending, block: nat)
    requires Idle(s, block) && Has(p, block)
    ensures Closed(OnePair(1, s, p, block).lib).stored == s.lib.stored
    ensures Closed(OnePair(2, s, p, block).lib).stored == Some(block)
  {
    AppliedThenNoticed(1, s, p, block);
    AppliedThenNoticed(2, s, p, block);
  }

  /** Three operations of the block just reported, each followed by its notice: write limit 1 leaves the third one out,
      a larger limit imports all. */
  lemma LogDependsOnLimit(s: State, a: Pending, b: Pending, c: Pending, block: nat)
    requires Idle(s, block) && Has(a, block) && Has(b, block) && Has(c, block)
    ensures OnePair(1, OnePair(1, OnePair(1, s, a, block), b, block), c, block).log == s.log + [a, b]
    ensures OnePair(100, OnePair(100, OnePair(100, s, a, block), b, block), c, block).log == s.log + [a, b, c]
  {
    ThreePairs(1, s, a, b, c, block);
    ThreePairs(100, s, a, b, c, block);
  }

  lemma ThreePairs(limit: nat, s: State, a: Pending, b: Pending, c: Pending, block: nat)
    requires (limit == 1 || limit == 100) && Idle(s, block) && Has(a, block) && Has(b, block) && Has(c, block)
    ensures OnePair(limit, OnePair(limit, OnePair(limit, s, a, block), b, block), c, block).log ==
      if limit == 1 then s.log + [a, b] else s.log + [a, b, c]
  {
    var s1 := OnePair(limit, s, a, block);
    AppliedThenNoticed(limit, s, a, block);
    var s2 := OnePair(limit, s1, b, block);
    AppliedThenNoticed(limit, s1, b, block);
    AppliedThenNoticed(limit, s2, c, block);
  }

  /** A notice inside a session that is undone, and the same notice again: the operation is imported twice. */
  lemma ImportTwice(run: Run, p: Pending, block: nat)
    requires IsRun(run) && run.events == [Applied(p.op, p.impacted), Start, Notice(block), Undone, Notice(block)]
    requires Idle(run.states[0], block) && Has(p, block) && run.states[0].sessions == [] && run.states[0].marks == []
    ensures run.states[5].log == run.states[0].log + [p, p]
  {
    var s := run.states[0];
    NextAt(run, 0);
    NextAt(run, 1);
    NextAt(run, 2);
    NextAt(run, 3);
    NextAt(run, 4);
    UndoneAndNoticed(run.limit, run.states[2], p, s.next, block);
  }

  lemma UndoneAndNoticed(limit: nat, s: State, p: Pending, id: nat, block: nat)
    requires s.pending == map[id := p] && Has(p, block) && Passes(s, block) && s.lib.batched == s.lib.stored
    requires s.sessions == [(s.pending, s.next)] && |s.marks| == 1
    ensures Next(limit, Next(limit, Next(limit, s, Notice(block)), Undone), Notice(block)).log == s.log + [p, p]
  {
    OneIsDue(s.pending, id, block);
    assert CountedAll(s.lib, limit, 1) == Counted(CountedAll(s.lib, limit, 0), limit);
  }
}
