/** How the history depends on the write limit and on the block number in the store. */
module HistoryLimits {
  import opened Collections
  import opened Words
  import opened VolatileIndex
  import opened HistoryMachine
  import opened HistoryRuns

  // ---------- the reference that ignores the stored block number ----------

  /** Every notice imports what is due, whatever block number the store holds. */
  ghost function RefNext(s: State, e: Event): State { if e.Notice? then Noticed(1, s, e.block) else Next(1, s, e) }

  ghost predicate RefStepOk(ref: Run, i: nat)
  {
    i < |ref.events| && i + 1 < |ref.states| && ref.states[i + 1] == RefNext(ref.states[i], ref.events[i])
  }

  /** The run and the reference with the same start and the same events. */
  ghost predicate HasReference(run: Run, ref: Run)
  {
    && IsRun(run) && Sized(ref) && run.states[0] == ref.states[0] && run.events == ref.events
    && forall i :: 0 <= i < |ref.events| ==> RefStepOk(ref, i)
  }

  lemma {:induction false} ReferenceExists(start: State, events: seq<Event>) returns (ref: Run)
    ensures Sized(ref) && ref.states[0] == start && ref.events == events
    ensures forall i :: 0 <= i < |events| ==> RefStepOk(ref, i)
  {
    if events == [] {
      ref := Run(1, [start], []);
    } else {
      var n := |events| - 1;
      var before := ReferenceExists(start, events[..n]);
      ref := Run(1, before.states + [RefNext(before.states[n], events[n])], events);
      forall i | 0 <= i < |events|
        ensures RefStepOk(ref, i)
      {
        assert i < n ==> RefStepOk(before, i);
      }
    }
  }

  /** The same history; the block numbers may differ. */
  ghost predicate Follows(s: State, r: State)
  {
    && s.log == r.log && s.imported == r.imported && s.pending == r.pending && s.next == r.next
    && s.sessions == r.sessions && s.marks == r.marks
  }

  /** The notice finds an operation due but does not act, because of the block number in the store. */
  ghost predicate Skips(s: State, e: Event) { e.Notice? && !Passes(s, e.block) && HasDue(s.pending, e.block) }

  lemma StepFollows(limit: nat, s: State, r: State, e: Event)
    requires Follows(s, r)
    ensures !Skips(s, e) ==> Follows(Next(limit, s, e), RefNext(r, e))
    ensures Skips(s, e) ==> Next(limit, s, e).log != RefNext(r, e).log
  {
    if e.Notice? {
      DueIfAny(s.pending, e.block);
    }
  }

  /** No notice among the first n events skips anything. */
  ghost predicate NoSkips(run: Run, n: nat)
    requires Sized(run) && n <= |run.events|
  {
    forall i :: 0 <= i < n ==> !Skips(run.states[i], run.events[i])
  }

  /** The log was that of the reference at every moment up to the n-th. */
  ghost predicate SameLogs(run: Run, ref: Run, n: nat)
    requires n < |run.states| && n < |ref.states|
  {
    forall i :: 0 <= i <= n ==> run.states[i].log == ref.states[i].log
  }

  /** A run imports what the reference does, at every moment, if and only if no notice skips an operation that is
      due. */
  lemma {:induction false} FollowsUnlessSkipped(run: Run, ref: Run, n: nat)
    requires HasReference(run, ref) && n <= |run.events|
    ensures SameLogs(run, ref, n) <==> NoSkips(run, n)
    ensures NoSkips(run, n) ==> Follows(run.states[n], ref.states[n])
  {
    if n > 0 {
      FollowsUnlessSkipped(run, ref, n - 1);
      if NoSkips(run, n - 1) {
        FollowsHere(run, ref, n - 1);
      }
    }
  }

  lemma FollowsHere(run: Run, ref: Run, i: nat)
    requires HasReference(run, ref) && i < |run.events| && Follows(run.states[i], ref.states[i])
    ensures !Skips(run.states[i], run.events[i]) ==> Follows(run.states[i + 1], ref.states[i + 1])
    ensures Skips(run.states[i], run.events[i]) ==> run.states[i + 1].log != ref.states[i + 1].log
  {
    NextAt(run, i);
    assert RefStepOk(ref, i);
    StepFollows(run.limit, run.states[i], ref.states[i], run.events[i]);
  }

  /** Hence two write limits import the same, at every moment, if neither run skips anything. */
  lemma WriteLimitsAgree(a: Run, b: Run, n: nat)
    requires IsRun(a) && IsRun(b) && a.states[0] == b.states[0] && a.events == b.events && n <= |a.events|
    requires NoSkips(a, n) && NoSkips(b, n)
    ensures SameLogs(a, b, n)
  {
    var ref := ReferenceExists(a.states[0], a.events);
    FollowsUnlessSkipped(a, ref, n);
    FollowsUnlessSkipped(b, ref, n);
  }

  // ---------- when nothing is skipped ----------

  /** The block numbers are at most the last notice acted on, and pending operations are after it. */
  ghost predicate Ahead(s: State)
  {
    && s.lib.stored.Some? && s.lib.batched.Some? && s.lib.stored.value <= s.horizon && s.lib.batched.value <= s.horizon
    && forall id :: id in s.pending ==> s.pending[id].op.block > s.horizon
  }

  /** Operations are applied strictly after the last block acted on, and list accounts once. */
  ghost predicate Later(s: State, e: Event) { e.Applied? ==> e.op.block > s.horizon && Distinct(e.impacted) }

  lemma {:induction false} CountedBlocks(l: Lib, limit: nat, n: nat)
    ensures CountedAll(l, limit, n).batched == l.batched
    ensures CountedAll(l, limit, n).stored == l.stored || CountedAll(l, limit, n).stored == l.batched
  {
    if n > 0 {
      CountedBlocks(l, limit, n - 1);
    }
  }

  lemma NextKeepsAhead(limit: nat, s: State, e: Event)
    requires Ahead(s) && SessionsExact(s) && Later(s, e) && (e.Undone? ==> UndoSafe(s))
    ensures Ahead(Next(limit, s, e)) && !Skips(s, e)
  {
    if e.Notice? {
      CountedBlocks(s.lib, limit, |DueIds(s.pending, e.block)|);
    } else if e.Undone? && s.sessions != [] {
      assert SessionExact(s, |s.sessions| - 1);
    }
  }

  lemma NextKeepsSound(limit: nat, s: State, e: Event)
    requires Sound(s) && WellFormed(s, e) && (e.Undone? ==> UndoSafe(s))
    ensures Sound(Next(limit, s, e))
  {
    if e.Undone? {
      SafeUndoKeepsExact(limit, s);
    } else {
      NextKeepsExact(limit, s, e);
      NextKeepsSessions(limit, s, e);
    }
  }

  /** Two machines side by side: the plugin, and the reference, with the same history and the same last block. */
  ghost predicate InStep(s: State, r: State)
  {
    Follows(s, r) && s.horizon == r.horizon && Ahead(s) && Sound(s)
  }

  lemma StaysInStep(limit: nat, s: State, r: State, e: Event)
    requires InStep(s, r) && Later(r, e) && (e.Undone? ==> UndoSafe(r))
    ensures InStep(Next(limit, s, e), RefNext(r, e)) && !Skips(s, e)
  {
    NextKeepsAhead(limit, s, e);
    NextKeepsSound(limit, s, e);
    StepFollows(limit, s, r, e);
  }

  /** In the reference run, the operations of the event come strictly after the last block noticed, and an undo takes
      back nothing imported. This speaks of no write limit and of no stored block number. */
  ghost predicate LaterHere(ref: Run, i: nat)
    requires Sized(ref) && i < |ref.events|
  {
    Later(ref.states[i], ref.events[i]) && (ref.events[i].Undone? ==> UndoSafe(ref.states[i]))
  }

  lemma InStepNext(run: Run, ref: Run, i: nat)
    requires HasReference(run, ref) && i < |run.events| && LaterHere(ref, i) && InStep(run.states[i], ref.states[i])
    ensures InStep(run.states[i + 1], ref.states[i + 1]) && !Skips(run.states[i], run.events[i])
  {
    NextAt(run, i);
    assert RefStepOk(ref, i);
    StaysInStep(run.limit, run.states[i], ref.states[i], run.events[i]);
  }

  /** Nothing is pending up to the last block, every operation is known once, and no session is open. */
  ghost predicate ReadyToRun(s: State) { s.sessions == [] && s.marks == [] && Exact(s) && Ahead(s) }

  lemma ReadyIsInStep(s: State)
    requires ReadyToRun(s)
    ensures InStep(s, s)
  {
    StartIsSound(s);
  }

  /** Then, whatever the write limit and with sessions started, squashed, committed and undone at will, no notice skips
      anything: the run imports what the reference does, at every moment. */
  lemma {:induction false} LaterRunsSkipNothing(run: Run, ref: Run, n: nat)
    requires HasReference(run, ref) && ReadyToRun(run.states[0]) && n <= |run.events|
    requires forall i :: 0 <= i < n ==> LaterHere(ref, i)
    ensures NoSkips(run, n) && InStep(run.states[n], ref.states[n])
  {
    if n == 0 {
      ReadyIsInStep(run.states[0]);
    } else {
      LaterRunsSkipNothing(run, ref, n - 1);
      InStepNext(run, ref, n - 1);
    }
  }

  /** Hence all write limits leave the same log, at every moment. */
  lemma EveryLimitAgrees(a: Run, b: Run, ref: Run, n: nat)
    requires HasReference(a, ref) && HasReference(b, ref) && ReadyToRun(ref.states[0]) && n <= |ref.events|
    requires forall i :: 0 <= i < n ==> LaterHere(ref, i)
    ensures SameLogs(a, b, n)
  {
    LaterRunsSkipNothing(a, ref, n);
    LaterRunsSkipNothing(b, ref, n);
    WriteLimitsAgree(a, b, n);
  }

  ghost predicate SafeAndLater(run: Run, i: nat)
    requires Sized(run) && i < |run.events|
  {
    Later(run.states[i], run.events[i]) && SafeHere(run, i)
  }

  /** Such a run and the reference stay in step, so the reference meets its own condition. */
  lemma {:induction false} SafeRunIsLater(run: Run, ref: Run, n: nat)
    requires HasReference(run, ref) && ReadyToRun(run.states[0]) && n <= |run.events|
    requires forall i :: 0 <= i < n ==> SafeAndLater(run, i)
    ensures InStep(run.states[n], ref.states[n]) && forall i :: 0 <= i < n ==> LaterHere(ref, i)
  {
    if n == 0 {
      ReadyIsInStep(run.states[0]);
    } else {
      SafeRunIsLater(run, ref, n - 1);
      LaterToo(run, ref, n - 1);
      InStepNext(run, ref, n - 1);
    }
  }

  lemma LaterToo(run: Run, ref: Run, i: nat)
    requires HasReference(run, ref) && ReadyToRun(run.states[0]) && i < |run.events|
    requires SafeAndLater(run, i) && InStep(run.states[i], ref.states[i])
    ensures LaterHere(ref, i)
  {
    if run.events[i].Undone? {
      SafeHereIsSafe(run, i);
    }
  }

  /** A run of the plugin in which no notice inside a session that is undone imported anything, and operations come
      strictly after the last block acted on, skips nothing, and a run with any other write limit has the same log at
      every moment. */
  lemma SafeRunsAgree(a: Run, b: Run, n: nat)
    requires IsRun(a) && IsRun(b) && a.states[0] == b.states[0] && a.events == b.events && n <= |a.events|
    requires ReadyToRun(a.states[0]) && forall i :: 0 <= i < n ==> SafeAndLater(a, i)
    ensures NoSkips(a, n) && NoSkips(b, n) && SameLogs(a, b, n)
  {
    var ref := ReferenceExists(a.states[0], a.events);
    SafeRunIsLater(a, ref, n);
    LaterRunsSkipNothing(a, ref, n);
    LaterRunsSkipNothing(b, ref, n);
    WriteLimitsAgree(a, b, n);
  }

  // ---------- what closing stores ----------

  /** The operations a step imports are counted modulo the write limit. */
  ghost predicate Collects(s: State, s': State, m: int)
  {
    m > 0 && |s.log| <= |s'.log| && s'.lib.collected == (s.lib.collected + (|s'.log| - |s.log|)) % m
  }

  lemma NextCollects(limit: nat, s: State, e: Event)
    requires s.lib.collected < Max1(limit)
    ensures Collects(s, Next(limit, s, e), Max1(limit))
  {
    SmallMod(s.lib.collected, Max1(limit));
    if e.Notice? && Passes(s, e.block) {
      CountedWrites(s.lib, limit, |DueIds(s.pending, e.block)|);
    }
  }

  lemma CollectsAt(run: Run, i: nat)
    requires IsRun(run) && i < |run.events| && run.states[i].lib.collected < Max1(run.limit)
    ensures Collects(run.states[i], run.states[i + 1], Max1(run.limit))
  {
    NextAt(run, i);
    NextCollects(run.limit, run.states[i], run.events[i]);
  }

  lemma AddRemainder(a: nat, b: nat, m: int)
    requires m > 0
    ensures (a % m + b) % m == (a + b) % m
  {
    assert a == a / m * m + a % m;
    ModMultiple(a % m + b, a / m, m);
  }

  /** From a store just opened, the operations waiting in the batch are what the write limit leaves over of all
      imported. */
  lemma {:induction false} CollectedIsRemainder(run: Run, n: nat)
    requires IsRun(run) && run.states[0].lib.collected == 0 && n <= |run.events|
    ensures IsRemainder(run.states[n], |run.states[0].log|, Max1(run.limit))
  {
    if n == 0 {
      SmallMod(0, Max1(run.limit));
    } else {
      CollectedIsRemainder(run, n - 1);
      CollectsAt(run, n - 1);
      RemainderNext(run.states[n - 1], run.states[n], |run.states[0].log|, Max1(run.limit));
    }
  }

  ghost predicate IsRemainder(s: State, first: nat, m: int)
  {
    m > 0 && first <= |s.log| && s.lib.collected == (|s.log| - first) % m
  }

  lemma RemainderNext(s: State, s': State, first: nat, m: int)
    requires IsRemainder(s, first, m) && Collects(s, s', m)
    ensures IsRemainder(s', first, m)
  {
    var a, b := |s.log| - first, |s'.log| - |s.log|;
    AddRemainder(a, b, m);
    assert a + b == |s'.log| - first;
  }

  /** The event is a notice later than the block number in the store. */
  ghost predicate ActsOn(s: State, e: Event) { e.Notice? && Passes(s, e.block) }

  ghost predicate NoneActedOn(run: Run, k: nat, n: nat)
    requires Sized(run) && n <= |run.events|
  {
    forall i :: k <= i < n ==> !ActsOn(run.states[i], run.events[i])
  }

  lemma {:induction false} NothingActedOn(run: Run, k: nat, n: nat)
    requires IsRun(run) && k <= n <= |run.events|
    requires NoneActedOn(run, k, n)
    ensures run.states[n].lib == run.states[k].lib && run.states[n].log == run.states[k].log
    decreases n - k
  {
    if k < n {
      NothingActedOn(run, k, n - 1);
      NextAt(run, n - 1);
      assert !ActsOn(run.states[n - 1], run.events[n - 1]);
    }
  }

  /** How many operations the k-th event, a notice, finds due. */
  ghost function DueAt(run: Run, k: nat): nat
    requires Sized(run) && k < |run.events| && run.events[k].Notice?
  {
    |DueIds(run.states[k].pending, run.events[k].block)|
  }

  /** The last notice acted on is the k-th event: closing stores its block number if and only if the operations imported
      since the store was opened do not fill the write limit evenly, or the same number was in the batch already and the
      notice itself made the batch be written. */
  lemma CloseStoresLast(run: Run, k: nat, n: nat)
    requires IsRun(run) && run.states[0].lib.collected == 0 && k < n <= |run.events|
    requires ActsOn(run.states[k], run.events[k]) && NoneActedOn(run, k + 1, n)
    ensures var s, block, due := run.states[k], run.events[k].block, DueAt(run, k);
      && IsRemainder(run.states[n], |run.states[0].log|, Max1(run.limit))
      && (Closed(run.states[n].lib).stored == Some(block) <==>
          (|run.states[n].log| - |run.states[0].log|) % Max1(run.limit) != 0
          || (s.lib.batched == Some(block) && s.lib.collected + due >= Max1(run.limit)))
  {
    var s, block := run.states[k], run.events[k].block;
    CollectedIsRemainder(run, k);
    CollectedIsRemainder(run, n);
    LibAfterLast(run, k, n);
    CloseAfter(s.lib, run.limit, DueAt(run, k), block);
  }

  lemma LibAfterLast(run: Run, k: nat, n: nat)
    requires IsRun(run) && k < n <= |run.events|
    requires ActsOn(run.states[k], run.events[k]) && NoneActedOn(run, k + 1, n)
    ensures run.states[n].lib == AfterNotice(run.states[k].lib, run.limit, DueAt(run, k), run.events[k].block)
  {
    LibAt(run, k);
    NothingActedOn(run, k + 1, n);
  }

  lemma LibAt(run: Run, k: nat)
    requires IsRun(run) && k < |run.events| && ActsOn(run.states[k], run.events[k])
    ensures run.states[k + 1].lib == AfterNotice(run.states[k].lib, run.limit, DueAt(run, k), run.events[k].block)
  {
    NextAt(run, k);
    NoticedLib(run.limit, run.states[k], run.events[k]);
  }

  lemma NoticedLib(limit: nat, s: State, e: Event)
    requires ActsOn(s, e)
    ensures Next(limit, s, e).lib == AfterNotice(s.lib, limit, |DueIds(s.pending, e.block)|, e.block)
  {
  }

  ghost function AfterNotice(l: Lib, limit: nat, due: nat, block: nat): Lib
  {
    CountedAll(l, limit, due).(batched := Some(block))
  }

  lemma CloseAfter(l: Lib, limit: nat, due: nat, block: nat)
    requires l.collected < Max1(limit) && l.stored.Some? && l.stored.value < block
    ensures var r := AfterNotice(l, limit, due, block);
      Closed(r).stored == Some(block) <==>
        r.collected != 0 || (l.batched == Some(block) && l.collected + due >= Max1(limit))
  {
    CountedWrites(l, limit, due);
  }
}
