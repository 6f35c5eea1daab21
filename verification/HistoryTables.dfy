/** The columns of the account history store, what writing operations to them one by one gives, and what that means. */
module HistoryTables {
  import opened Collections

  type Name = nat

  /** An applied operation; body stands for the serialized operation and its transaction. */
  datatype Op = Op(block: nat, opInTrx: nat, virtualOp: nat, time: nat, body: int)

  /** An operation with the tracked accounts it impacts, each once. */
  datatype Pending = Pending(op: Op, impacted: seq<Name>)

  datatype Info = Info(id: nat, oldest: nat, newest: nat, since: nat)

  /** Operations by id, ids by block, account information by name, and operation ids by account and entry. */
  datatype Tables = Tables(byId: map<nat, Op>, byBlock: map<(nat, nat), nat>, info: map<Name, Info>,
                           entries: map<(nat, nat), nat>)

  /** The stored object keeps 16 bits of two of the counters. */
  function Stored(op: Op): Op { op.(opInTrx := op.opInTrx % 65536, virtualOp := op.virtualOp % 65536) }

  /** The key in the block column; virtual operations carry a flag in the top bit. */
  function BlockKey(id: nat, op: Op): (nat, nat)
  {
    (op.block, if op.virtualOp % 65536 > 0 then id + 0x8000_0000_0000_0000 else id)
  }

  // ---------- writing one operation at once ----------

  /** One more entry for an account, whose information is created with the first. */
  function Noted(t: Tables, accounts: nat, name: Name, id: nat, time: nat): (Tables, nat)
  {
    if name in t.info then
      var info := t.info[name].(newest := t.info[name].newest + 1);
      (t.(info := t.info[name := info], entries := t.entries[(info.id, info.newest) := id]), accounts)
    else
      var info := Info(accounts, 0, 0, time);
      (t.(info := t.info[name := info], entries := t.entries[(info.id, 0) := id]), accounts + 1)
  }

  function NotedAll(t: Tables, accounts: nat, names: seq<Name>, id: nat, time: nat): (Tables, nat)
  {
    if names == [] then (t, accounts)
    else
      var (t', accounts') := NotedAll(t, accounts, names[..|names| - 1], id, time);
      Noted(t', accounts', names[|names| - 1], id, time)
  }

  function WithOp(t: Tables, id: nat, op: Op): Tables
  {
    t.(byId := t.byId[id := Stored(op)], byBlock := t.byBlock[BlockKey(id, op) := id])
  }

  /** The tables after importing the operations of the log one after the other, and the number of accounts seen. */
  function Ideal(log: seq<Pending>): (Tables, nat)
  {
    if log == [] then (Tables(map[], map[], map[], map[]), 0)
    else
      var id, p := |log| - 1, log[|log| - 1];
      var (t, accounts) := Ideal(log[..id]);
      NotedAll(WithOp(t, id, p.op), accounts, p.impacted, id, p.op.time)
  }

  lemma IdealStep(log: seq<Pending>, p: Pending)
    ensures Ideal(log + [p]) ==
      NotedAll(WithOp(Ideal(log).0, |log|, p.op), Ideal(log).1, p.impacted, |log|, p.op.time)
  {
  }

  // ---------- what the tables mean ----------

  /** The operations in the log that impact an account, in order. */
  function History(log: seq<Pending>, name: Name): seq<nat>
  {
    if log == [] then []
    else History(log[..|log| - 1], name) + (if name in log[|log| - 1].impacted then [|log| - 1] else [])
  }

  /** A history lists exactly the operations that impact the account, in increasing order. */
  lemma {:induction false} HistoryLists(log: seq<Pending>, name: Name)
    ensures forall i :: i in History(log, name) <==> 0 <= i < |log| && name in log[i].impacted
    ensures forall i, j :: 0 <= i < j < |History(log, name)| ==> History(log, name)[i] < History(log, name)[j]
  {
    if log != [] {
      var rest := log[..|log| - 1];
      HistoryLists(rest, name);
      assert forall i :: 0 <= i < |rest| ==> rest[i] == log[i];
      assert forall i :: 0 <= i < |History(rest, name)| ==> History(rest, name)[i] in History(rest, name);
    }
  }

  /** Every account with a history has information with its own id; its entries are numbered from 0 to newest. */
  ghost predicate InfoMatches(t: Tables, accounts: nat, hist: Name -> seq<nat>)
  {
    && (forall name :: name in t.info <==> hist(name) != [])
    && (forall name :: name in t.info ==>
          t.info[name].oldest == 0 && t.info[name].newest == |hist(name)| - 1 && t.info[name].id < accounts)
    && IdsDistinct(t)
  }

  ghost predicate IdsDistinct(t: Tables)
  {
    forall a, b :: a in t.info && b in t.info && t.info[a].id == t.info[b].id ==> a == b
  }

  lemma NoteKeepsIds(t: Tables, accounts: nat, name: Name, id: nat, time: nat)
    requires IdsDistinct(t) && forall x :: x in t.info ==> t.info[x].id < accounts
    ensures IdsDistinct(Noted(t, accounts, name, id, time).0)
  {
  }

  /** The entries of each account point to its history, and there are no other entries. */
  ghost predicate Records(t: Tables, accounts: nat, hist: Name -> seq<nat>)
  {
    && InfoMatches(t, accounts, hist)
    && (forall name, e :: name in t.info && 0 <= e < |hist(name)| ==>
          (t.info[name].id, e) in t.entries && t.entries[(t.info[name].id, e)] == hist(name)[e])
    && (forall id, e :: (id, e) in t.entries ==> HasEntry(t, hist, id, e))
  }

  ghost predicate HasEntry(t: Tables, hist: Name -> seq<nat>, id: nat, e: nat)
  {
    exists name :: name in t.info && t.info[name].id == id && e < |hist(name)|
  }

  /** The history with one more operation for the accounts done. */
  ghost function Extended(hist: Name -> seq<nat>, names: seq<Name>, id: nat): Name -> seq<nat>
  {
    name => hist(name) + (if name in names then [id] else [])
  }

  lemma NoteKeepsEntries(t: Tables, accounts: nat, hist: Name -> seq<nat>, hist': Name -> seq<nat>, name: Name,
                         id: nat, time: nat)
    requires Records(t, accounts, hist)
    requires forall x :: hist'(x) == if x == name then hist(x) + [id] else hist(x)
    ensures var t' := Noted(t, accounts, name, id, time).0;
      forall i, e :: (i, e) in t'.entries ==> HasEntry(t', hist', i, e)
  {
  }

  lemma NoteKeepsInfo(t: Tables, accounts: nat, hist: Name -> seq<nat>, hist': Name -> seq<nat>, name: Name, id: nat,
                      time: nat)
    requires InfoMatches(t, accounts, hist)
    requires forall x :: hist'(x) == if x == name then hist(x) + [id] else hist(x)
    ensures var (t', accounts') := Noted(t, accounts, name, id, time); InfoMatches(t', accounts', hist')
  {
    NoteKeepsIds(t, accounts, name, id, time);
  }

  lemma NoteKeepsRecords(t: Tables, accounts: nat, hist: Name -> seq<nat>, hist': Name -> seq<nat>, name: Name,
                         id: nat, time: nat)
    requires Records(t, accounts, hist)
    requires forall x :: hist'(x) == if x == name then hist(x) + [id] else hist(x)
    ensures var (t', accounts') := Noted(t, accounts, name, id, time); Records(t', accounts', hist')
  {
    var t' := Noted(t, accounts, name, id, time).0;
    NoteKeepsInfo(t, accounts, hist, hist', name, id, time);
    NoteKeepsEntries(t, accounts, hist, hist', name, id, time);
    forall x, e | x in t'.info && 0 <= e < |hist'(x)|
      ensures (t'.info[x].id, e) in t'.entries && t'.entries[(t'.info[x].id, e)] == hist'(x)[e]
    {
      NotedEntry(t, accounts, hist, name, id, time, x, e);
    }
  }

  lemma NotedEntry(t: Tables, accounts: nat, hist: Name -> seq<nat>, name: Name, id: nat, time: nat, x: Name, e: nat)
    requires Records(t, accounts, hist)
    requires var t' := Noted(t, accounts, name, id, time).0; x in t'.info && e < |hist(x)| + if x == name then 1 else 0
    ensures var t' := Noted(t, accounts, name, id, time).0;
      && (t'.info[x].id, e) in t'.entries
      && t'.entries[(t'.info[x].id, e)] == if e < |hist(x)| then hist(x)[e] else id
  {
  }

  /** Noting an operation for several accounts, each once, extends exactly their histories. */
  lemma {:induction false} NoteAllKeepsRecords(t: Tables, accounts: nat, hist: Name -> seq<nat>, names: seq<Name>,
                                               id: nat, time: nat)
    requires Records(t, accounts, hist) && Distinct(names)
    ensures var (t', accounts') := NotedAll(t, accounts, names, id, time);
      Records(t', accounts', Extended(hist, names, id))
    ensures var t' := NotedAll(t, accounts, names, id, time).0; t'.byId == t.byId && t'.byBlock == t.byBlock
  {
    if names == [] {
      SameHistory(t, accounts, hist, Extended(hist, names, id));
    } else {
      var rest, last := names[..|names| - 1], names[|names| - 1];
      NoteAllKeepsRecords(t, accounts, hist, rest, id, time);
      var (t', accounts') := NotedAll(t, accounts, rest, id, time);
      ExtendedByLast(hist, names, id);
      NoteKeepsRecords(t', accounts', Extended(hist, rest, id), Extended(hist, names, id), last, id, time);
    }
  }

  lemma ExtendedByLast(hist: Name -> seq<nat>, names: seq<Name>, id: nat)
    requires names != [] && Distinct(names)
    ensures var before, last := Extended(hist, names[..|names| - 1], id), names[|names| - 1];
      forall x :: Extended(hist, names, id)(x) == if x == last then before(x) + [id] else before(x)
  {
    assert names == names[..|names| - 1] + [names[|names| - 1]];
  }

  lemma SameHistory(t: Tables, accounts: nat, hist: Name -> seq<nat>, hist': Name -> seq<nat>)
    requires Records(t, accounts, hist) && forall name :: hist'(name) == hist(name)
    ensures Records(t, accounts, hist')
  {
  }

  /** What the store keeps of an operation: all of it, two of the counters cut to 16 bits. */
  ghost predicate Keeps(stored: Op, op: Op)
  {
    && stored.block == op.block && stored.time == op.time && stored.body == op.body
    && stored.opInTrx == op.opInTrx % 65536 && stored.virtualOp == op.virtualOp % 65536
  }

  /** The operations have dense ids in the order of the log. */
  ghost predicate ListsById(t: Tables, log: seq<Pending>)
  {
    && (forall i :: i in t.byId <==> 0 <= i < |log|)
    && (forall i :: 0 <= i < |log| ==> Keeps(t.byId[i], log[i].op))
  }

  /** The key names the block of the operation, its id in 63 bits, and in the top bit whether it is virtual. */
  ghost predicate KeyNames(key: (nat, nat), id: nat, op: Op)
  {
    && key.0 == op.block && key.1 < 0x1_0000_0000_0000_0000 && key.1 % 0x8000_0000_0000_0000 == id
    && (key.1 >= 0x8000_0000_0000_0000 <==> op.virtualOp % 65536 > 0)
  }

  ghost predicate HasKey(t: Tables, id: nat, op: Op)
  {
    exists key :: key in t.byBlock && t.byBlock[key] == id && KeyNames(key, id, op)
  }

  /** The block column has exactly one key for each operation, and no other keys. */
  ghost predicate ListsByBlock(t: Tables, log: seq<Pending>)
  {
    && (forall i: nat :: i < |log| ==> HasKey(t, i, log[i].op))
    && (forall key :: key in t.byBlock ==>
          t.byBlock[key] < |log| && KeyNames(key, t.byBlock[key], log[t.byBlock[key]].op))
  }

  /** Two operations have different keys. */
  lemma KeysDiffer(a: (nat, nat), b: (nat, nat), i: nat, j: nat, p: Op, q: Op)
    requires KeyNames(a, i, p) && KeyNames(b, j, q)
    ensures a == b ==> i == j
    ensures i == j && p == q ==> a == b
  {
  }

  lemma WithOpListsById(t: Tables, log: seq<Pending>, p: Pending)
    requires ListsById(t, log)
    ensures ListsById(WithOp(t, |log|, p.op), log + [p])
  {
  }

  lemma NewKey(id: nat, op: Op)
    requires id < 0x8000_0000_0000_0000
    ensures KeyNames(BlockKey(id, op), id, op)
  {
  }

  lemma WithOpListsByBlock(t: Tables, log: seq<Pending>, p: Pending)
    requires ListsByBlock(t, log) && |log| < 0x8000_0000_0000_0000
    ensures ListsByBlock(WithOp(t, |log|, p.op), log + [p])
  {
    var t', all, added := WithOp(t, |log|, p.op), log + [p], BlockKey(|log|, p.op);
    NewKey(|log|, p.op);
    assert added !in t.byBlock;
    forall i: nat | i < |all|
      ensures HasKey(t', i, all[i].op)
    {
      if i < |log| {
        KeyStays(t, t', i, log[i].op, added);
      } else {
        assert t'.byBlock[added] == i && KeyNames(added, i, all[i].op);
      }
    }
  }

  lemma KeyStays(t: Tables, t': Tables, id: nat, op: Op, added: (nat, nat))
    requires HasKey(t, id, op) && added !in t.byBlock && added in t'.byBlock
    requires t'.byBlock == t.byBlock[added := t'.byBlock[added]]
    ensures HasKey(t', id, op)
  {
    var key :| key in t.byBlock && t.byBlock[key] == id && KeyNames(key, id, op);
    assert key in t'.byBlock && t'.byBlock[key] == id;
  }

  ghost function HistoryOf(log: seq<Pending>): Name -> seq<nat> { name => History(log, name) }

  /** The meaning of the tables: dense ids, one block key per operation, and for each account the entries 0 .. newest
      pointing to exactly the operations that impact it, in increasing order. */
  lemma {:induction false} IdealMeans(log: seq<Pending>)
    requires |log| <= 0x8000_0000_0000_0000 && forall i :: 0 <= i < |log| ==> Distinct(log[i].impacted)
    ensures var (t, accounts) := Ideal(log);
      ListsById(t, log) && ListsByBlock(t, log) && Records(t, accounts, HistoryOf(log))
  {
    if log != [] {
      var rest, p := log[..|log| - 1], log[|log| - 1];
      IdealMeans(rest);
      assert log == rest + [p];
      IdealStep(rest, p);
      var (t, accounts) := Ideal(rest);
      OneMoreMeans(t, accounts, rest, p);
    }
  }

  lemma OneMoreMeans(t: Tables, accounts: nat, log: seq<Pending>, p: Pending)
    requires |log| < 0x8000_0000_0000_0000 && Distinct(p.impacted)
    requires ListsById(t, log) && ListsByBlock(t, log) && Records(t, accounts, HistoryOf(log))
    ensures var (t', accounts') := NotedAll(WithOp(t, |log|, p.op), accounts, p.impacted, |log|, p.op.time);
      ListsById(t', log + [p]) && ListsByBlock(t', log + [p]) && Records(t', accounts', HistoryOf(log + [p]))
  {
    var t1 := WithOp(t, |log|, p.op);
    WithOpListsById(t, log, p);
    WithOpListsByBlock(t, log, p);
    OneMoreRecorded(t, accounts, log, p);
    NoteAllKeepsRecords(t1, accounts, HistoryOf(log), p.impacted, |log|, p.op.time);
  }

  lemma OneMoreRecorded(t: Tables, accounts: nat, log: seq<Pending>, p: Pending)
    requires Distinct(p.impacted) && Records(t, accounts, HistoryOf(log))
    ensures Records(WithOp(t, |log|, p.op), accounts, HistoryOf(log))
    ensures var (t', accounts') := NotedAll(WithOp(t, |log|, p.op), accounts, p.impacted, |log|, p.op.time);
      Records(t', accounts', HistoryOf(log + [p]))
  {
    var t1 := WithOp(t, |log|, p.op);
    WithOpKeepsRecords(t, accounts, HistoryOf(log), |log|, p.op);
    NoteAllKeepsRecords(t1, accounts, HistoryOf(log), p.impacted, |log|, p.op.time);
    var (t2, accounts2) := NotedAll(t1, accounts, p.impacted, |log|, p.op.time);
    HistoryStep(log, p);
    SameHistory(t2, accounts2, Extended(HistoryOf(log), p.impacted, |log|), HistoryOf(log + [p]));
  }

  lemma HistoryStep(log: seq<Pending>, p: Pending)
    ensures forall name :: HistoryOf(log + [p])(name) == Extended(HistoryOf(log), p.impacted, |log|)(name)
  {
    assert (log + [p])[..|log|] == log;
  }

  lemma WithOpKeepsRecords(t: Tables, accounts: nat, hist: Name -> seq<nat>, id: nat, op: Op)
    requires Records(t, accounts, hist)
    ensures Records(WithOp(t, id, op), accounts, hist)
  {
  }

  // ---------- when an account was first seen ----------

  /** There are as many accounts as have information, and each records the time of its first operation. */
  ghost predicate Dated(t: Tables, accounts: nat, hist: Name -> seq<nat>, time: nat -> nat)
  {
    && accounts == |t.info|
    && forall name :: name in t.info ==> hist(name) != [] && t.info[name].since == time(hist(name)[0])
  }

  lemma NoteKeepsDates(t: Tables, accounts: nat, hist: Name -> seq<nat>, hist': Name -> seq<nat>, times: nat -> nat,
                       name: Name, id: nat)
    requires Dated(t, accounts, hist, times) && forall x :: x in t.info <==> hist(x) != []
    requires forall x :: hist'(x) == if x == name then hist(x) + [id] else hist(x)
    ensures var (t', accounts') := Noted(t, accounts, name, id, times(id)); Dated(t', accounts', hist', times)
  {
    NoteCounts(t, accounts, name, id, times(id));
    var t' := Noted(t, accounts, name, id, times(id)).0;
    forall x | x in t'.info
      ensures hist'(x) != [] && t'.info[x].since == times(hist'(x)[0])
    {
      assert x != name ==> x in t.info && t'.info[x] == t.info[x];
    }
  }

  lemma NoteCounts(t: Tables, accounts: nat, name: Name, id: nat, time: nat)
    requires accounts == |t.info|
    ensures var (t', accounts') := Noted(t, accounts, name, id, time); accounts' == |t'.info|
  {
    var t' := Noted(t, accounts, name, id, time).0;
    assert t'.info.Keys == t.info.Keys + {name};
    assert |t.info| == |t.info.Keys| && |t'.info| == |t'.info.Keys|;
  }

  lemma {:induction false} NoteAllKeepsDates(t: Tables, accounts: nat, hist: Name -> seq<nat>, times: nat -> nat,
                                             names: seq<Name>, id: nat)
    requires Records(t, accounts, hist) && Dated(t, accounts, hist, times) && Distinct(names)
    ensures var (t', accounts') := NotedAll(t, accounts, names, id, times(id));
      Dated(t', accounts', Extended(hist, names, id), times)
  {
    if names != [] {
      var rest, last := names[..|names| - 1], names[|names| - 1];
      NoteAllKeepsDates(t, accounts, hist, times, rest, id);
      NoteAllKeepsRecords(t, accounts, hist, rest, id, times(id));
      var (t', accounts') := NotedAll(t, accounts, rest, id, times(id));
      ExtendedByLast(hist, names, id);
      NoteKeepsDates(t', accounts', Extended(hist, rest, id), Extended(hist, names, id), times, last, id);
    }
  }

  ghost function TimesOf(log: seq<Pending>): nat -> nat { (i: nat) => if i < |log| then log[i].op.time else 0 }

  lemma SameDates(t: Tables, accounts: nat, hist: Name -> seq<nat>, times: nat -> nat, hist': Name -> seq<nat>,
                  times': nat -> nat)
    requires Dated(t, accounts, hist, times)
    requires forall name :: hist'(name) == hist(name)
    requires forall name :: hist(name) != [] ==> times'(hist(name)[0]) == times(hist(name)[0])
    ensures Dated(t, accounts, hist', times')
  {
  }

  /** Every account that an operation of the log impacts has information with the time of the first such operation. */
  lemma {:induction false} IdealDates(log: seq<Pending>)
    requires |log| <= 0x8000_0000_0000_0000 && forall i :: 0 <= i < |log| ==> Distinct(log[i].impacted)
    ensures var (t, accounts) := Ideal(log); Dated(t, accounts, HistoryOf(log), TimesOf(log))
  {
    if log != [] {
      var rest, p, id := log[..|log| - 1], log[|log| - 1], |log| - 1;
      IdealDates(rest);
      IdealMeans(rest);
      assert log == rest + [p];
      IdealStep(rest, p);
      var (t, accounts) := Ideal(rest);
      OneMoreDated(t, accounts, rest, p);
    }
  }

  lemma OneMoreDated(t: Tables, accounts: nat, log: seq<Pending>, p: Pending)
    requires Distinct(p.impacted) && Records(t, accounts, HistoryOf(log))
    requires Dated(t, accounts, HistoryOf(log), TimesOf(log))
    ensures var (t', accounts') := NotedAll(WithOp(t, |log|, p.op), accounts, p.impacted, |log|, p.op.time);
      Dated(t', accounts', HistoryOf(log + [p]), TimesOf(log + [p]))
  {
    var t1, id, times := WithOp(t, |log|, p.op), |log|, TimesOf(log + [p]);
    WithOpKeepsRecords(t, accounts, HistoryOf(log), id, p.op);
    HistoriesPointBack(log);
    SameDates(t1, accounts, HistoryOf(log), TimesOf(log), HistoryOf(log), times);
    NoteAllKeepsDates(t1, accounts, HistoryOf(log), times, p.impacted, id);
    var (t2, accounts2) := NotedAll(t1, accounts, p.impacted, id, p.op.time);
    HistoryStep(log, p);
    SameDates(t2, accounts2, Extended(HistoryOf(log), p.impacted, id), times, HistoryOf(log + [p]), times);
  }

  lemma HistoriesPointBack(log: seq<Pending>)
    ensures forall name :: HistoryOf(log)(name) != [] ==> HistoryOf(log)(name)[0] < |log|
  {
    forall name | HistoryOf(log)(name) != []
      ensures HistoryOf(log)(name)[0] < |log|
    {
      HistoryLists(log, name);
      assert History(log, name)[0] in History(log, name);
    }
  }
}
