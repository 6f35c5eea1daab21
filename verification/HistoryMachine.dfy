/** The account history as a machine on values: what is imported, what is pending, and which block number the store,
    the batch and the comparison of a notice see. */
module HistoryMachine {
  import opened Collections
  import opened Words
  import opened HistoryTables
  import opened VolatileIndex

  // ---------- the last irreversible block ----------

  /** The block number in the store, the one the batch would leave there, and the operations since the last flush. */
  datatype Lib = Lib(stored: Option<nat>, batched: Option<nat>, collected: nat)

  /** An imported operation is counted, and at the write limit the batch is written. */
  function Counted(l: Lib, limit: nat): Lib
  {
    if l.collected + 1 >= limit then Lib(l.batched, l.batched, 0) else l.(collected := l.collected + 1)
  }

  function CountedAll(l: Lib, limit: nat, n: nat): Lib
  {
    if n == 0 then l else Counted(CountedAll(l, limit, n - 1), limit)
  }

  /** At shutdown the batch is written if it holds operations. */
  function Closed(l: Lib): Lib { if l.collected != 0 then Lib(l.batched, l.batched, 0) else l }

  /** Importing n operations writes the batch exactly if they fill the write limit. */
  lemma {:induction false} CountedWrites(l: Lib, limit: nat, n: nat)
    requires l.collected < Max1(limit)
    ensures var r := CountedAll(l, limit, n);
      && r.collected == (l.collected + n) % Max1(limit) && r.batched == l.batched
      && r.stored == if l.collected + n >= Max1(limit) then l.batched else l.stored
  {
    if n > 0 {
      CountedWrites(l, limit, n - 1);
      NextRemainder(l.collected + n - 1, Max1(limit));
      if l.collected + n < Max1(limit) {
        SmallMod(l.collected + n, Max1(limit));
        SmallMod(l.collected + n - 1, Max1(limit));
      } else if l.collected + n == Max1(limit) {
        SmallMod(l.collected + n - 1, Max1(limit));
      }
    } else {
      SmallMod(l.collected, Max1(limit));
    }
  }

  lemma NextRemainder(x: nat, m: int)
    requires m > 0
    ensures (x + 1) % m == if x % m + 1 == m then 0 else x % m + 1
  {
    var q, r := x / m, x % m;
    assert x == q * m + r;
    if r + 1 == m {
      MulDistributes(q, 1, m);
      DivModUnique(x + 1, m, q + 1, 0);
    } else {
      DivModUnique(x + 1, m, q, r + 1);
    }
  }

  // ---------- the machine ----------

  /** What is imported and pending, the last block acted on, and for each open session of the database what it would
      undo to and how many operations had been imported when it was started. */
  datatype State = State(log: seq<Pending>, imported: seq<nat>, pending: Volatile, next: nat, horizon: nat, lib: Lib,
                         sessions: seq<(Volatile, nat)>, marks: seq<nat>)

  /** Operations, notices, and the sessions of the database the volatile index lives in. */
  datatype Event =
    | Applied(op: Op, impacted: seq<Name>)
    | Notice(block: nat)
    | Start
    | Squashed
    | Undone
    | Committed(count: nat)

  /** A notice is acted on only if it is later than the block number in the store; without one it fails. */
  ghost predicate Passes(s: State, block: nat) { s.lib.stored.Some? && block > s.lib.stored.value }

  ghost function Noticed(limit: nat, s: State, block: nat): State
  {
    var ids := DueIds(s.pending, block);
    s.(log := s.log + PendingOf(s.pending, ids), imported := s.imported + ids, pending := Without(s.pending, ids),
       horizon := if block > s.horizon then block else s.horizon,
       lib := CountedAll(s.lib, limit, |ids|).(batched := Some(block)))
  }

  ghost function Next(limit: nat, s: State, e: Event): State
  {
    match e
    case Applied(op, impacted) =>
      if impacted == [] then s
      else s.(pending := s.pending[s.next := Pending(op, impacted)], next := s.next + 1)
    case Notice(block) => if Passes(s, block) then Noticed(limit, s, block) else s
    case Start => s.(sessions := s.sessions + [(s.pending, s.next)], marks := s.marks + [|s.imported|])
    case Squashed => Popped(s)
    case Undone =>
      if s.sessions == [] then s
      else Popped(s).(pending := s.sessions[|s.sessions| - 1].0, next := s.sessions[|s.sessions| - 1].1)
    case Committed(count) =>
      if count <= |s.sessions| && count <= |s.marks| then s.(sessions := s.sessions[count..], marks := s.marks[count..])
      else s
  }

  function Popped(s: State): State
  {
    if s.sessions == [] || s.marks == [] then s
    else s.(sessions := s.sessions[..|s.sessions| - 1], marks := s.marks[..|s.marks| - 1])
  }

  // ---------- runs ----------

  /** The states a run goes through under its events. */
  datatype Run = Run(limit: nat, states: seq<State>, events: seq<Event>)

  ghost predicate StepOk(run: Run, i: nat)
  {
    i < |run.events| && i + 1 < |run.states| && run.states[i + 1] == Next(run.limit, run.states[i], run.events[i])
  }

  /** One more state than events. */
  ghost predicate Sized(run: Run) { |run.states| == |run.events| + 1 }

  ghost predicate IsRun(run: Run) { Sized(run) && forall i :: 0 <= i < |run.events| ==> StepOk(run, i) }

  /** Every start and every list of events have their run. */
  lemma {:induction false} RunExists(limit: nat, start: State, events: seq<Event>) returns (run: Run)
    ensures IsRun(run) && run.limit == limit && run.states[0] == start && run.events == events
  {
    if events == [] {
      run := Run(limit, [start], []);
    } else {
      var n := |events| - 1;
      var before := RunExists(limit, start, events[..n]);
      run := Run(limit, before.states + [Next(limit, before.states[n], events[n])], events);
      forall i | 0 <= i < |events|
        ensures StepOk(run, i)
      {
        assert i < n ==> StepOk(before, i);
      }
    }
  }

  /** The sessions open after n events, as the places where they were started. */
  ghost function OpenStarts(events: seq<Event>, n: nat): seq<nat>
    requires n <= |events|
  {
    if n == 0 then []
    else
      var open := OpenStarts(events, n - 1);
      match events[n - 1]
      case Start => open + [n - 1]
      case Squashed => if open == [] then [] else open[..|open| - 1]
      case Undone => if open == [] then [] else open[..|open| - 1]
      case Committed(count) => if count <= |open| then open[count..] else open
      case _ => open
  }

  /** The notice imports something: the store's block number is earlier, and an operation is due. */
  ghost predicate Imports(s: State, e: Event) { e.Notice? && Passes(s, e.block) && HasDue(s.pending, e.block) }

  /** No notice between two places of the run imports anything. */
  ghost predicate Quiet(run: Run, k: nat, n: nat)
    requires Sized(run) && n <= |run.events|
  {
    forall i :: k <= i < n ==> !Imports(run.states[i], run.events[i])
  }
}
