/** The persistent account history: operations wait in a volatile index until their block is irreversible, then go
    through a write batch, with a read cache, into the store. */
module AccountHistory {
  import opened Collections
  import opened HistoryTables
  import opened VolatileIndex
  import opened HistoryMachine

  /** The store: the history columns, the last irreversible block if one was written, and the sequence numbers. */
  datatype Store = Store(tables: Tables, lib: Option<nat>, opSeq: nat, ahSeq: nat)

  datatype Put =
    | PutOp(id: nat, op: Op)
    | PutBlock(key: (nat, nat), opId: nat)
    | PutInfo(name: Name, info: Info)
    | PutEntry(entry: (nat, nat), entryOp: nat)
    | PutLib(lib: nat)
    | PutSeqs(opSeq: nat, ahSeq: nat)

  function Wrote(s: Store, p: Put): Store
  {
    var t := s.tables;
    match p
    case PutOp(id, op) => s.(tables := t.(byId := t.byId[id := op]))
    case PutBlock(key, id) => s.(tables := t.(byBlock := t.byBlock[key := id]))
    case PutInfo(name, info) => s.(tables := t.(info := t.info[name := info]))
    case PutEntry(key, id) => s.(tables := t.(entries := t.entries[key := id]))
    case PutLib(n) => s.(lib := Some(n))
    case PutSeqs(o, a) => s.(opSeq := o, ahSeq := a)
  }

  /** Writing a batch applies its puts in order. */
  function WroteAll(s: Store, puts: seq<Put>): Store
  {
    if puts == [] then s else Wrote(WroteAll(s, puts[..|puts| - 1]), puts[|puts| - 1])
  }

  lemma WroteOneMore(s: Store, puts: seq<Put>, p: Put)
    ensures WroteAll(s, puts + [p]) == Wrote(WroteAll(s, puts), p)
  {
  }

  function Get<K, V>(m: map<K, V>, k: K): Option<V> { if k in m then Some(m[k]) else None }

  /** The cache answers for the accounts written since the last flush, the store for all others. */
  ghost predicate CacheAgrees(cache: map<Name, Info>, stored: map<Name, Info>, view: map<Name, Info>)
  {
    forall name :: Get(view, name) == if name in cache then Some(cache[name]) else Get(stored, name)
  }

  // ---------- the plugin ----------

  /** The store holds the tables of a log. */
  ghost predicate Holds(store: Store, log: seq<Pending>)
  {
    store.tables == Ideal(log).0 && store.opSeq == |log| && store.ahSeq == Ideal(log).1
  }

  /** The block number that opening a store leaves in the batch: a store without one gets 0, but only in the batch. */
  function Opened(lib: Option<nat>): Lib { Lib(lib, if lib.None? then Some(0) else lib, 0) }

  function OpenBatch(lib: Option<nat>): seq<Put> { if lib.None? then [PutLib(0)] else [] }

  lemma OpenedView(store: Store)
    ensures WroteAll(store, OpenBatch(store.lib)) == store.(lib := Opened(store.lib).batched)
    ensures var l := Opened(store.lib);
      l.stored == store.lib && l.batched == Some(if store.lib.None? then 0 else store.lib.value) && l.collected == 0
  {
    if store.lib.None? {
      WroteOneMore(store, [], PutLib(0));
      assert [] + [PutLib(0)] == [PutLib(0)];
    }
  }

  class Plugin {
    const writeLimit: nat
    var storage: Store
    var batch: seq<Put>
    var infoCache: map<Name, Info>
    var opSeq: nat
    var ahSeq: nat
    var collected: nat
    var pending: Volatile
    var nextPending: nat
    var sessions: seq<(Volatile, nat)>
    ghost var log: seq<Pending>
    ghost var imported: seq<nat>
    ghost var horizon: nat
    ghost var marks: seq<nat>

    /** The store as it would be after writing the pending batch. */
    ghost function View(): Store
      reads this
    {
      WroteAll(storage, batch)
    }

    ghost function LibState(): Lib
      reads this
    {
      Lib(storage.lib, View().lib, collected)
    }

    ghost function Snapshot(): State
      reads this
    {
      State(log, imported, pending, nextPending, horizon, LibState(), sessions, marks)
    }

    /** The store overlaid with the batch is what immediate writing of the log would give, whatever the write limit. */
    ghost predicate Valid()
      reads this
    {
      && View().tables == Ideal(log).0 && ahSeq == Ideal(log).1 && opSeq == |log|
      && CacheAgrees(infoCache, storage.tables.info, View().tables.info)
      && (collected == 0 ==> storage.tables == View().tables && storage.opSeq == opSeq && storage.ahSeq == ahSeq)
    }

    /** openDb: the sequence numbers come from the store; a missing block number is put into the batch. */
    constructor (writeLimit: nat, store: Store, pending: Volatile, next: nat, ghost s: State)
      requires Holds(store, s.log) && s.pending == pending && s.next == next
      requires s.lib == Opened(store.lib) && s.sessions == [] && s.marks == []
      ensures Valid() && this.writeLimit == writeLimit && Snapshot() == s
    {
      this.writeLimit := writeLimit;
      storage, batch, infoCache := store, OpenBatch(store.lib), map[];
      opSeq, ahSeq, collected := store.opSeq, store.ahSeq, 0;
      this.pending, nextPending, sessions := pending, next, [];
      log, imported, horizon, marks := s.log, s.imported, s.horizon, [];
      OpenedView(store);
    }

    /** Adds one put to the batch. */
    method Write(p: Put)
      modifies this`batch
      ensures View() == Wrote(old(View()), p)
    {
      ghost var was := batch;
      batch := batch + [p];
      WroteOneMore(storage, was, p);
    }

    /** The read cache first, then the store: always what the store and the batch together hold. */
    method GetInfo(name: Name) returns (info: Option<Info>)
      requires CacheAgrees(infoCache, storage.tables.info, View().tables.info)
      ensures info == Get(View().tables.info, name)
    {
      if name in infoCache {
        return Some(infoCache[name]);
      }
      info := Get(storage.tables.info, name);
    }

    method PutInfoCached(name: Name, info: Info)
      requires CacheAgrees(infoCache, storage.tables.info, View().tables.info)
      modifies this`batch, this`infoCache
      ensures View() == Wrote(old(View()), PutInfo(name, info))
      ensures CacheAgrees(infoCache, storage.tables.info, View().tables.info)
    {
      infoCache := infoCache[name := info];
      Write(PutInfo(name, info));
    }

    /** buildAccountHistoryRecord without pruning. */
    method BuildRecord(name: Name, id: nat, time: nat)
      requires CacheAgrees(infoCache, storage.tables.info, View().tables.info)
      modifies this`batch, this`infoCache, this`ahSeq
      ensures CacheAgrees(infoCache, storage.tables.info, View().tables.info)
      ensures (View().tables, ahSeq) == Noted(old(View().tables), old(ahSeq), name, id, time)
      ensures View().lib == old(View().lib)
    {
      var found := GetInfo(name);
      match found {
        case Some(info) =>
          var newer := info.(newest := info.newest + 1);
          PutInfoCached(name, newer);
          Write(PutEntry((newer.id, newer.newest), id));
        case None =>
          var info := Info(ahSeq, 0, 0, time);
          ahSeq := ahSeq + 1;
          PutInfoCached(name, info);
          Write(PutEntry((info.id, 0), id));
      }
    }

    method BuildRecords(names: seq<Name>, id: nat, time: nat)
      requires CacheAgrees(infoCache, storage.tables.info, View().tables.info)
      modifies this`batch, this`infoCache, this`ahSeq
      ensures CacheAgrees(infoCache, storage.tables.info, View().tables.info)
      ensures (View().tables, ahSeq) == NotedAll(old(View().tables), old(ahSeq), names, id, time)
      ensures View().lib == old(View().lib)
    {
      for i := 0 to |names|
        invariant View().lib == old(View().lib)
        invariant CacheAgrees(infoCache, storage.tables.info, View().tables.info)
        invariant (View().tables, ahSeq) == NotedAll(old(View().tables), old(ahSeq), names[..i], id, time)
      {
        assert names[..i + 1][..i] == names[..i];
        BuildRecord(names[i], id, time);
      }
      assert names[..|names|] == names;
    }

    /** The sequence numbers go into the batch, the batch into the store, and the cache is emptied. */
    method Flush()
      requires Valid()
      modifies this`storage, this`batch, this`infoCache, this`collected
      ensures Valid() && batch == [] && collected == 0
      ensures storage.lib == old(View().lib) && View().lib == old(View().lib)
    {
      Write(PutSeqs(opSeq, ahSeq));
      storage := WroteAll(storage, batch);
      batch, infoCache, collected := [], map[], 0;
    }

    /** The operation goes into the batch, with its records. */
    method PutOperation(p: Pending)
      requires Valid()
      modifies this`batch, this`infoCache, this`opSeq, this`ahSeq, this`log
      ensures log == old(log) + [p] && opSeq == |log| && View().tables == Ideal(log).0 && ahSeq == Ideal(log).1
      ensures View().lib == old(View().lib) && CacheAgrees(infoCache, storage.tables.info, View().tables.info)
    {
      IdealStep(log, p);
      var id := opSeq;
      opSeq := opSeq + 1;
      log := log + [p];
      PutRow(id, p.op);
      BuildRecords(p.impacted, id, p.op.time);
    }

    method PutRow(id: nat, op: Op)
      requires CacheAgrees(infoCache, storage.tables.info, View().tables.info)
      modifies this`batch
      ensures View().tables == WithOp(old(View().tables), id, op) && View().lib == old(View().lib)
      ensures CacheAgrees(infoCache, storage.tables.info, View().tables.info)
    {
      Write(PutOp(id, Stored(op)));
      Write(PutBlock(BlockKey(id, op), id));
    }

    method ImportOperation(p: Pending)
      requires Valid()
      modifies this`storage, this`batch, this`infoCache, this`collected, this`opSeq, this`ahSeq, this`log
      ensures Valid() && log == old(log) + [p] && LibState() == Counted(old(LibState()), writeLimit)
    {
      PutOperation(p);
      collected := collected + 1;
      if collected >= writeLimit {
        Flush();
      }
    }

    /** An operation with tracked accounts waits for its block to become irreversible. */
    method OnPostApply(op: Op, impacted: seq<Name>)
      requires Valid()
      modifies this`pending, this`nextPending
      ensures Valid() && Snapshot() == Next(writeLimit, old(Snapshot()), Applied(op, impacted))
    {
      if impacted == [] {
        return;
      }
      pending := pending[nextPending := Pending(op, impacted)];
      nextPending := nextPending + 1;
    }

    /** The last irreversible block as the store has it, without the batch; None where the source's assertion fails. */
    method GetLib() returns (lib: Option<nat>)
      ensures lib == storage.lib
    {
      lib := storage.lib;
    }

    /** An irreversibility notice imports what is due and removes it from the volatile index. The block number it
        writes is still in the batch, so a later notice may be compared with an older one. Without a block number in the
        store the notice fails. */
    method OnIrreversible(block: nat) returns (ok: bool)
      requires Valid()
      modifies this`storage, this`batch, this`infoCache, this`collected, this`opSeq, this`ahSeq
      modifies this`log, this`imported, this`pending, this`horizon
      ensures Valid() && Snapshot() == Next(writeLimit, old(Snapshot()), Notice(block))
      ensures ok <==> old(storage.lib.Some?)
      ensures !ok ==> Snapshot() == old(Snapshot())
    {
      var lib := GetLib();
      ok := lib.Some?;
      if lib.None? || block <= lib.value {
        return;
      }
      ImportDue(block);
    }

    method ImportDue(block: nat)
      requires Valid()
      modifies this`storage, this`batch, this`infoCache, this`collected, this`opSeq, this`ahSeq
      modifies this`log, this`imported, this`pending, this`horizon
      ensures Valid() && Snapshot() == Noticed(writeLimit, old(Snapshot()), block)
    {
      var ids := Due(pending, block);
      DueIsUnique(pending, block, ids);
      Import(ids);
      Record(block);
    }

    /** The operations go into the store's view and out of the volatile index. */
    method Import(ids: seq<nat>)
      requires Valid() && forall i :: 0 <= i < |ids| ==> ids[i] in pending
      modifies this`storage, this`batch, this`infoCache, this`collected, this`opSeq, this`ahSeq
      modifies this`log, this`imported, this`pending
      ensures Valid() && Snapshot() == old(Snapshot()).(log := old(log) + PendingOf(old(pending), ids),
        imported := old(imported) + ids, pending := Without(old(pending), ids),
        lib := CountedAll(old(LibState()), writeLimit, |ids|))
    {
      ImportAll(ids);
      Forget(ids);
    }

    /** The operations leave the volatile index. */
    method Forget(ids: seq<nat>)
      requires Valid()
      modifies this`imported, this`pending
      ensures Valid() && Snapshot() ==
        old(Snapshot()).(imported := old(imported) + ids, pending := Without(old(pending), ids))
    {
      RemoveAll(ids);
      imported := imported + ids;
    }

    /** update_lib: the block number reaches the batch only. */
    method Record(block: nat)
      requires Valid()
      modifies this`batch, this`horizon
      ensures Valid() && Snapshot() == old(Snapshot()).(horizon := if block > old(horizon) then block else old(horizon),
        lib := old(LibState()).(batched := Some(block)))
    {
      horizon := if block > horizon then block else horizon;
      Write(PutLib(block));
    }

    method ImportAll(ids: seq<nat>)
      requires Valid() && forall i :: 0 <= i < |ids| ==> ids[i] in pending
      modifies this`storage, this`batch, this`infoCache, this`collected, this`opSeq, this`ahSeq, this`log
      ensures Valid() && Snapshot() == old(Snapshot()).(log := old(log) + PendingOf(pending, ids),
        lib := CountedAll(old(LibState()), writeLimit, |ids|))
    {
      ghost var ops := PendingOf(pending, ids);
      for i := 0 to |ids|
        invariant LibState() == CountedAll(old(LibState()), writeLimit, i)
        invariant Valid() && log == old(log) + ops[..i]
      {
        ImportOperation(pending[ids[i]]);
        assert ops[..i + 1] == ops[..i] + [ops[i]];
      }
      assert ops[..|ids|] == ops;
    }

    method RemoveAll(ids: seq<nat>)
      modifies this`pending
      ensures pending == Without(old(pending), ids)
    {
      for i := 0 to |ids|
        invariant pending == Without(old(pending), ids[..i])
      {
        assert ids[..i + 1] == ids[..i] + [ids[i]];
        pending := pending - {ids[i]};
      }
      assert ids[..|ids|] == ids;
    }

    method StartSession()
      requires Valid()
      modifies this`sessions, this`marks
      ensures Valid() && Snapshot() == Next(writeLimit, old(Snapshot()), Start)
    {
      sessions := sessions + [(pending, nextPending)];
      marks := marks + [|imported|];
    }

    method Squash()
      requires Valid() && |marks| == |sessions|
      modifies this`sessions, this`marks
      ensures Valid() && Snapshot() == Next(writeLimit, old(Snapshot()), Squashed)
    {
      if sessions != [] {
        sessions, marks := sessions[..|sessions| - 1], marks[..|marks| - 1];
      }
    }

    /** Undoing a session restores the volatile index of the moment it began, and nothing else. */
    method Undo()
      requires Valid() && |marks| == |sessions|
      modifies this`pending, this`nextPending, this`sessions, this`marks
      ensures Valid() && Snapshot() == Next(writeLimit, old(Snapshot()), Undone)
    {
      if sessions != [] {
        pending, nextPending := sessions[|sessions| - 1].0, sessions[|sessions| - 1].1;
        sessions, marks := sessions[..|sessions| - 1], marks[..|marks| - 1];
      }
    }

    /** The oldest sessions are made permanent. */
    method Commit(count: nat)
      requires Valid() && |marks| == |sessions|
      modifies this`sessions, this`marks
      ensures Valid() && Snapshot() == Next(writeLimit, old(Snapshot()), Committed(count))
    {
      if count <= |sessions| {
        sessions, marks := sessions[count..], marks[count..];
      }
    }

    /** At shutdown the batch is written if it holds operations. The tables and sequence numbers in the store are then
        those of the log; the block number is stored only with them. */
    method FlushStorage()
      requires Valid()
      modifies this`storage, this`batch, this`infoCache, this`collected
      ensures Valid() && Holds(storage, log) && LibState() == Closed(old(LibState()))
    {
      if collected != 0 {
        Flush();
      }
    }
  }
}
