/** Whole runs of the account history: operations, irreversibility notices and undone sessions in any order. */
module HistoryRuns {
  import opened Collections
  import opened HistoryTables
  import opened VolatileIndex
  import opened HistoryMachine

  // ---------- what a run keeps ----------

  /** Operations are applied in blocks not before the last block reported irreversible, and list accounts once. */
  ghost predicate WellFormed(s: State, e: Event)
  {
    e.Applied? ==> e.op.block >= s.horizon && Distinct(e.impacted)
  }

  ghost predicate IsChainRun(run: Run)
  {
    && Sized(run) && run.states[0].sessions == [] && run.states[0].marks == []
    && forall i :: 0 <= i < |run.events| ==> WellFormed(run.states[i], run.events[i])
  }

  /** Every operation is pending or imported, never both or twice; the log is in block order and lists accounts once. */
  ghost predicate Exact(s: State)
  {
    && OnceOnly(s.imported, s.pending, s.next) && InBlockOrder(s.log, s.pending, s.horizon)
    && (forall i :: 0 <= i < |s.log| ==> Distinct(s.log[i].impacted))
    && (forall id :: id in s.pending ==> Distinct(s.pending[id].impacted))
  }

  lemma NoticeKeepsExact(limit: nat, s: State, block: nat)
    requires Exact(s)
    ensures Exact(Noticed(limit, s, block))
  {
    var ids := DueIds(s.pending, block);
    ImportKeepsOnce(s.imported, s.pending, s.next, ids);
    ImportKeepsOrder(s.log, s.pending, s.horizon, block, ids);
  }

  lemma NextKeepsExact(limit: nat, s: State, e: Event)
    requires Exact(s) && WellFormed(s, e) && !e.Undone?
    ensures Exact(Next(limit, s, e))
  {
    if e.Notice? && Passes(s, e.block) {
      NoticeKeepsExact(limit, s, e.block);
    }
  }

  // ---------- sessions ----------

  /** These operations are still pending, and not before the last notice. */
  ghost predicate StillPending(v: Volatile, s: State)
  {
    forall id :: id in v ==> id in s.pending && s.pending[id] == v[id] && v[id].op.block >= s.horizon
  }

  /** What the d-th open session would undo to was exact when it was started; and as long as nothing was imported since,
      it is still pending and was not overtaken by a notice. */
  ghost predicate SessionExact(s: State, d: nat)
  {
    && d < |s.sessions| == |s.marks| && s.marks[d] <= |s.imported|
    && OnceOnly(s.imported[..s.marks[d]], s.sessions[d].0, s.sessions[d].1)
    && (forall id :: id in s.sessions[d].0 ==> Distinct(s.sessions[d].0[id].impacted))
    && (s.marks[d] == |s.imported| ==> StillPending(s.sessions[d].0, s))
  }

  ghost predicate Submap(v: Volatile, w: Volatile) { forall id :: id in v ==> id in w && w[id] == v[id] }

  /** Of two sessions with nothing imported between their starts, the later one knows everything the earlier one
      does. */
  ghost predicate Nested(s: State, d: nat, e: nat)
  {
    d < e < |s.sessions| == |s.marks| && s.marks[d] <= s.marks[e]
    && (s.marks[d] == s.marks[e] ==> Submap(s.sessions[d].0, s.sessions[e].0))
  }

  ghost predicate SessionsExact(s: State)
  {
    && |s.sessions| == |s.marks| && (forall d: nat :: d < |s.sessions| ==> SessionExact(s, d))
    && (forall d: nat, e: nat :: d < e < |s.sessions| ==> Nested(s, d, e))
  }

  /** The next undo would take back nothing that was imported. */
  ghost predicate UndoSafe(s: State)
  {
    s.sessions != [] && |s.marks| == |s.sessions| ==> s.marks[|s.marks| - 1] == |s.imported|
  }

  lemma AppliedKeepsSessions(limit: nat, s: State, e: Event)
    requires Exact(s) && SessionsExact(s) && e.Applied?
    ensures SessionsExact(Next(limit, s, e))
  {
    var s' := Next(limit, s, e);
    forall d: nat | d < |s'.sessions|
      ensures SessionExact(s', d)
    {
      assert SessionExact(s, d);
    }
    forall d: nat, f: nat | d < f < |s'.sessions|
      ensures Nested(s', d, f)
    {
      assert Nested(s, d, f);
    }
  }

  lemma NoticeKeepsSessions(limit: nat, s: State, block: nat)
    requires Exact(s) && SessionsExact(s)
    ensures SessionsExact(Noticed(limit, s, block))
  {
    var s' := Noticed(limit, s, block);
    DueIfAny(s.pending, block);
    forall d: nat | d < |s'.sessions|
      ensures SessionExact(s', d)
    {
      assert SessionExact(s, d);
      assert s'.imported[..s.marks[d]] == s.imported[..s.marks[d]];
    }
    forall d: nat, f: nat | d < f < |s'.sessions|
      ensures Nested(s', d, f)
    {
      assert Nested(s, d, f);
    }
  }

  lemma StartKeepsSessions(limit: nat, s: State)
    requires Exact(s) && SessionsExact(s)
    ensures SessionsExact(Next(limit, s, Start))
  {
    var s' := Next(limit, s, Start);
    assert s.imported[..|s.imported|] == s.imported;
    forall d: nat | d < |s'.sessions|
      ensures SessionExact(s', d)
    {
      assert d < |s.sessions| ==> SessionExact(s, d);
    }
    forall d: nat, f: nat | d < f < |s'.sessions|
      ensures Nested(s', d, f)
    {
      assert SessionExact(s, d);
      assert f < |s.sessions| ==> Nested(s, d, f);
    }
  }

  lemma PopKeepsSessions(s: State)
    requires SessionsExact(s)
    ensures SessionsExact(Popped(s))
  {
    var s' := Popped(s);
    forall d: nat | d < |s'.sessions|
      ensures SessionExact(s', d)
    {
      assert SessionExact(s, d);
    }
    forall d: nat, f: nat | d < f < |s'.sessions|
      ensures Nested(s', d, f)
    {
      assert Nested(s, d, f);
    }
  }

  lemma CommitKeepsSessions(limit: nat, s: State, count: nat)
    requires SessionsExact(s)
    ensures SessionsExact(Next(limit, s, Committed(count)))
  {
    var s' := Next(limit, s, Committed(count));
    var gone := |s.sessions| - |s'.sessions|;
    forall d: nat | d < |s'.sessions|
      ensures SessionExact(s', d)
    {
      assert SessionExact(s, d + gone);
    }
    forall d: nat, f: nat | d < f < |s'.sessions|
      ensures Nested(s', d, f)
    {
      assert Nested(s, d + gone, f + gone);
    }
  }

  /** An undo that takes back nothing imported keeps everything exact. */
  lemma SafeUndoKeepsExact(limit: nat, s: State)
    requires Exact(s) && SessionsExact(s) && UndoSafe(s)
    ensures Exact(Next(limit, s, Undone)) && SessionsExact(Next(limit, s, Undone))
  {
    if s.sessions != [] {
      var s', top := Next(limit, s, Undone), |s.sessions| - 1;
      assert SessionExact(s, top) && s.imported[..|s.imported|] == s.imported;
      forall d: nat | d < |s'.sessions|
        ensures SessionExact(s', d)
      {
        assert SessionExact(s, d) && Nested(s, d, top);
      }
      forall d: nat, f: nat | d < f < |s'.sessions|
        ensures Nested(s', d, f)
      {
        assert Nested(s, d, f);
      }
    }
  }

  /** Any other undo leaves an operation both imported and pending, or imported without having been applied. */
  lemma UnsafeUndoBreaks(limit: nat, s: State)
    requires Exact(s) && SessionsExact(s) && !UndoSafe(s)
    ensures !Exact(Next(limit, s, Undone))
  {
    var top := |s.sessions| - 1;
    assert SessionExact(s, top);
    var before, more := s.imported[..s.marks[top]], s.imported[s.marks[top]..];
    assert s.imported == before + more;
    UndoIsSafe(before, s.sessions[top].0, s.sessions[top].1, more, s.pending, s.next);
  }

  lemma NextKeepsSessions(limit: nat, s: State, e: Event)
    requires Exact(s) && SessionsExact(s) && !e.Undone?
    ensures SessionsExact(Next(limit, s, e))
  {
    match e
    case Applied(_, _) => AppliedKeepsSessions(limit, s, e);
    case Notice(block) => if Passes(s, block) { NoticeKeepsSessions(limit, s, block); }
    case Start => StartKeepsSessions(limit, s);
    case Squashed => PopKeepsSessions(s);
    case Committed(count) => CommitKeepsSessions(limit, s, count);
    case Undone =>
  }

  // ---------- where sessions started and what was imported since ----------

  lemma NextAt(run: Run, i: nat)
    requires IsRun(run) && i < |run.events|
    ensures run.states[i + 1] == Next(run.limit, run.states[i], run.events[i])
  {
    assert StepOk(run, i);
  }

  /** What an event does to the marks of the open sessions. */
  ghost predicate Marks(s: State, e: Event, s': State)
  {
    && (|s.sessions| == |s.marks| ==> |s'.sessions| == |s'.marks|)
    && s'.marks == match e
      case Start => s.marks + [|s.imported|]
      case Applied(_, _) => s.marks
      case Notice(_) => s.marks
      case Committed(count) => if count <= |s.marks| then s.marks[count..] else s.marks
      case _ => if s.marks == [] then [] else s.marks[..|s.marks| - 1]
  }

  lemma NextMarks(limit: nat, s: State, e: Event)
    requires |s.sessions| == |s.marks|
    ensures Marks(s, e, Next(limit, s, e))
  {
  }

  /** The mark of an open session counts the operations imported where it was started. */
  ghost predicate Marked(run: Run, n: nat, d: nat)
    requires Sized(run) && n <= |run.events|
  {
    var starts := OpenStarts(run.events, n);
    d < |starts| == |run.states[n].marks| && starts[d] < n && run.states[n].marks[d] == |run.states[starts[d]].imported|
  }

  lemma {:induction false} SessionsMarked(run: Run, n: nat, d: nat)
    requires IsRun(run) && run.states[0].sessions == [] && run.states[0].marks == [] && n <= |run.events|
    ensures |OpenStarts(run.events, n)| == |run.states[n].marks| == |run.states[n].sessions|
    ensures d < |OpenStarts(run.events, n)| ==> Marked(run, n, d)
  {
    if n > 0 {
      var before := BeforeCommit(run.events, n, d);
      SessionsMarked(run, n - 1, before);
      NextAt(run, n - 1);
      NextMarks(run.limit, run.states[n - 1], run.events[n - 1]);
      MarkedStep(run, n, d);
    }
  }

  /** The place in the stack, before the n-th event, of the session that is then the d-th. */
  ghost function BeforeCommit(events: seq<Event>, n: nat, d: nat): nat
    requires 0 < n <= |events|
  {
    var e := events[n - 1];
    if e.Committed? && e.count <= |OpenStarts(events, n - 1)| then d + e.count else d
  }

  lemma MarkedStep(run: Run, n: nat, d: nat)
    requires Sized(run) && 0 < n <= |run.events| && Marks(run.states[n - 1], run.events[n - 1], run.states[n])
    requires |OpenStarts(run.events, n - 1)| == |run.states[n - 1].marks|
    requires var before := BeforeCommit(run.events, n, d);
      before < |OpenStarts(run.events, n - 1)| ==> Marked(run, n - 1, before)
    ensures |OpenStarts(run.events, n)| == |run.states[n].marks|
    ensures d < |OpenStarts(run.events, n)| ==> Marked(run, n, d)
  {
  }

  /** What an event does to the list of imported operations: it grows exactly if the event imports. */
  ghost predicate Grows(s: State, e: Event, s': State)
  {
    s.imported <= s'.imported && (s.imported == s'.imported <==> !Imports(s, e))
  }

  lemma NextGrows(limit: nat, s: State, e: Event)
    ensures Grows(s, e, Next(limit, s, e))
  {
    if e.Notice? {
      DueIfAny(s.pending, e.block);
    }
  }

  /** The list of imported operations only grows, and stays the same exactly while no notice imports anything. */
  lemma {:induction false} ImportsShow(run: Run, k: nat, n: nat)
    requires IsRun(run) && k <= n <= |run.events|
    ensures run.states[k].imported <= run.states[n].imported
    ensures run.states[k].imported == run.states[n].imported <==> Quiet(run, k, n)
    decreases n - k
  {
    if k < n {
      ImportsShow(run, k, n - 1);
      GrowsAt(run, n - 1);
    }
  }

  lemma GrowsAt(run: Run, i: nat)
    requires IsRun(run) && i < |run.events|
    ensures Grows(run.states[i], run.events[i], run.states[i + 1])
  {
    NextAt(run, i);
    NextGrows(run.limit, run.states[i], run.events[i]);
  }

  /** An undo is safe exactly if no notice since the session was started imported anything. */
  lemma UndoSafeIfQuiet(run: Run, u: nat)
    requires IsRun(run) && run.states[0].sessions == [] && run.states[0].marks == []
    requires u <= |run.events| && OpenStarts(run.events, u) != []
    ensures LastStart(run.events, u) < u && (UndoSafe(run.states[u]) <==> Quiet(run, LastStart(run.events, u), u))
  {
    TopMark(run, u);
    ImportsShow(run, LastStart(run.events, u), u);
  }

  lemma TopMark(run: Run, u: nat)
    requires IsRun(run) && run.states[0].sessions == [] && run.states[0].marks == []
    requires u <= |run.events| && OpenStarts(run.events, u) != []
    ensures LastStart(run.events, u) < u
    ensures UndoSafe(run.states[u]) <==> |run.states[LastStart(run.events, u)].imported| == |run.states[u].imported|
  {
    SessionsMarked(run, u, |OpenStarts(run.events, u)| - 1);
  }

  // ---------- exactly once ----------

  /** Where the session to be undone was started. */
  ghost function LastStart(events: seq<Event>, n: nat): nat
    requires n <= |events| && OpenStarts(events, n) != []
  {
    OpenStarts(events, n)[|OpenStarts(events, n)| - 1]
  }

  /** If the event undoes a session, no notice inside that session found an operation due, with an earlier block number
      in the store. */
  ghost predicate SafeHere(run: Run, n: nat)
    requires Sized(run) && n < |run.events|
  {
    run.events[n].Undone? && OpenStarts(run.events, n) != [] ==> Quiet(run, LastStart(run.events, n), n)
  }

  ghost predicate UndosAreSafe(run: Run, n: nat)
    requires Sized(run) && n <= |run.events|
  {
    forall u :: 0 <= u < n ==> SafeHere(run, u)
  }

  /** Every state up to the n-th is exact. */
  ghost predicate AllExact(run: Run, n: nat)
    requires Sized(run) && n <= |run.events|
  {
    forall i :: 0 <= i <= n ==> Exact(run.states[i])
  }

  /** The state is exact, and so is everything its open sessions would undo to. */
  ghost predicate Sound(s: State) { Exact(s) && SessionsExact(s) }

  lemma StepDecides(run: Run, n: nat)
    requires IsRun(run) && IsChainRun(run) && n < |run.events| && Sound(run.states[n])
    ensures Exact(run.states[n + 1]) <==> SafeHere(run, n)
    ensures SafeHere(run, n) ==> Sound(run.states[n + 1])
  {
    var s, e := run.states[n], run.events[n];
    NextAt(run, n);
    SessionsMarked(run, n, 0);
    if !e.Undone? {
      NextKeepsExact(run.limit, s, e);
      NextKeepsSessions(run.limit, s, e);
    } else {
      if OpenStarts(run.events, n) != [] {
        UndoSafeIfQuiet(run, n);
      }
      UndoDecides(run.limit, s);
    }
  }

  lemma SafeHereIsSafe(run: Run, u: nat)
    requires IsRun(run) && run.states[0].sessions == [] && run.states[0].marks == [] && u < |run.events|
    requires SafeHere(run, u)
    ensures run.events[u].Undone? ==> UndoSafe(run.states[u])
  {
    SessionsMarked(run, u, 0);
    if run.events[u].Undone? && OpenStarts(run.events, u) != [] {
      UndoSafeIfQuiet(run, u);
    }
  }

  lemma UndoDecides(limit: nat, s: State)
    requires Exact(s) && SessionsExact(s)
    ensures Exact(Next(limit, s, Undone)) <==> UndoSafe(s)
    ensures UndoSafe(s) ==> SessionsExact(Next(limit, s, Undone))
  {
    if UndoSafe(s) {
      SafeUndoKeepsExact(limit, s);
    } else {
      UnsafeUndoBreaks(limit, s);
    }
  }

  lemma StartIsSound(s: State)
    requires Exact(s) && s.sessions == [] && s.marks == []
    ensures Sound(s)
  {
  }

  /** Over any run every operation is pending or imported, never twice, and the log is in block order, if and only if no
      notice inside a session that is undone found an operation due. */
  lemma {:induction false} RunIsExact(run: Run, n: nat)
    requires IsRun(run) && IsChainRun(run) && Exact(run.states[0]) && n <= |run.events|
    ensures AllExact(run, n) <==> UndosAreSafe(run, n)
    ensures UndosAreSafe(run, n) ==> Sound(run.states[n])
  {
    if n == 0 {
      StartIsSound(run.states[0]);
    } else {
      RunIsExact(run, n - 1);
      if UndosAreSafe(run, n - 1) {
        StepDecides(run, n - 1);
      }
    }
  }

  /** The tables such a run leaves have dense ids and one block key per operation, and each account's entries are
      exactly 0 .. newest, pointing to exactly the imported operations that impact it, in increasing order. */
  lemma RunTablesMean(run: Run, n: nat)
    requires IsRun(run) && IsChainRun(run) && Exact(run.states[0]) && n <= |run.events|
    requires UndosAreSafe(run, n) && |run.states[n].log| <= 0x8000_0000_0000_0000
    ensures var log := run.states[n].log; var (t, accounts) := Ideal(log);
      ListsById(t, log) && ListsByBlock(t, log) && Records(t, accounts, HistoryOf(log))
  {
    RunIsExact(run, n);
    IdealMeans(run.states[n].log);
  }

  // ---------- a store without a block number ----------

  ghost predicate NeverOpened(s: State) { s.lib.stored.None? && s.lib.collected == 0 }

  lemma NextNeverImports(limit: nat, s: State, e: Event)
    requires NeverOpened(s)
    ensures var s' := Next(limit, s, e);
      NeverOpened(s') && s'.log == s.log && s'.imported == s.imported && s'.lib == s.lib
  {
  }

  /** From a store that holds no block number no run ever imports anything, and closing writes nothing: every notice
      fails. */
  lemma {:induction false} FreshNeverImports(run: Run, n: nat)
    requires IsRun(run) && NeverOpened(run.states[0]) && n <= |run.events|
    ensures NeverOpened(run.states[n]) && Closed(run.states[n].lib) == run.states[0].lib
    ensures run.states[n].log == run.states[0].log && run.states[n].imported == run.states[0].imported
  {
    if n > 0 {
      FreshNeverImports(run, n - 1);
      NextAt(run, n - 1);
      NextNeverImports(run.limit, run.states[n - 1], run.events[n - 1]);
    }
  }
}
