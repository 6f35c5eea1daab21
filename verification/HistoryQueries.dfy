/** Reading the account history back: the operations of a block, and the latest operations of an account. */
module HistoryQueries {
  import opened Collections
  import opened Ordering
  import opened HistoryTables

  // ---------- the operations of a block ----------

  type Key = (nat, nat)

  /** The block column is ordered by block, then by id with the flag of virtual operations in the top bit. */
  predicate KeyAtOrBefore(a: Key, b: Key) { a.0 < b.0 || (a.0 == b.0 && a.1 <= b.1) }

  function ByKey(): (Key, Key) -> bool { (a: Key, b: Key) => KeyAtOrBefore(a, b) }

  /** All keys of the column, in order. */
  ghost predicate AreKeys(t: Tables, keys: seq<Key>)
  {
    && (forall key :: key in keys <==> key in t.byBlock) && (forall i :: 0 <= i < |keys| ==> keys[i] in t.byBlock)
    && (forall i, j :: 0 <= i < j < |keys| ==> keys[i] != keys[j] && KeyAtOrBefore(keys[i], keys[j]))
  }

  method KeysInOrder(t: Tables) returns (keys: seq<Key>)
    ensures AreKeys(t, keys)
  {
    keys := InOrder(t.byBlock.Keys, ByKey());
  }

  ghost predicate Virtual(op: Op) { op.virtualOp % 65536 > 0 }

  /** Other operations come before virtual ones; apart from that they come in the order of the log. */
  ghost predicate ComesBefore(log: seq<Pending>, i: nat, j: nat)
  {
    && i < |log| && j < |log|
    && ((!Virtual(log[i].op) && Virtual(log[j].op)) || ((Virtual(log[i].op) <==> Virtual(log[j].op)) && i < j))
  }

  /** The operation of the log, as stored. */
  ghost predicate Reads(log: seq<Pending>, id: nat, op: Op) { id < |log| && Keeps(op, log[id].op) }

  /** The operations found are those of the block, each once, as stored. */
  ghost predicate FoundInBlock(log: seq<Pending>, block: nat, ids: seq<nat>, ops: seq<Op>)
  {
    && |ids| == |ops| && (forall k :: 0 <= k < |ids| ==> Reads(log, ids[k], ops[k]))
    && (forall i: nat :: i in ids <==> i < |log| && log[i].op.block == block)
    && (forall j, k :: 0 <= j < k < |ids| ==> ComesBefore(log, ids[j], ids[k]))
  }

  /** find_operations_by_block: seeks the first key of the block and goes on while the keys are of that block. */
  method FindByBlock(t: Tables, block: nat, ghost log: seq<Pending>) returns (ops: seq<Op>, ghost ids: seq<nat>)
    requires ListsById(t, log) && ListsByBlock(t, log)
    ensures FoundInBlock(log, block, ids, ops)
  {
    var keys := KeysInOrder(t);
    var first := Seek(keys, block);
    ghost var end;
    ops, end := ReadBlock(t, keys, first, block, log);
    ids := IdsOf(t, keys, first, end);
    WindowFound(t, keys, block, first, end);
    AllFound(t, log, keys, block, first, end, ops);
  }

  /** The first key not before the smallest of the block. */
  method Seek(keys: seq<Key>, block: nat) returns (i: nat)
    ensures i <= |keys| && (forall j :: 0 <= j < i ==> keys[j].0 < block) && (i < |keys| ==> keys[i].0 >= block)
  {
    i := 0;
    while i < |keys| && !KeyAtOrBefore((block, 0), keys[i])
      invariant i <= |keys| && forall j :: 0 <= j < i ==> keys[j].0 < block
    {
      i := i + 1;
    }
  }

  /** The ids that the keys from first to end point to. */
  ghost function IdsOf(t: Tables, keys: seq<Key>, first: nat, end: nat): (ids: seq<nat>)
    requires first <= end <= |keys| && forall i :: 0 <= i < |keys| ==> keys[i] in t.byBlock
    ensures |ids| == end - first
  {
    seq(end - first, k requires 0 <= k < end - first => t.byBlock[keys[first + k]])
  }

  lemma KeyRead(t: Tables, log: seq<Pending>, key: Key)
    requires ListsById(t, log) && ListsByBlock(t, log) && key in t.byBlock
    ensures t.byBlock[key] in t.byId && Reads(log, t.byBlock[key], t.byId[t.byBlock[key]])
  {
  }

  method ReadBlock(t: Tables, keys: seq<Key>, first: nat, block: nat, ghost log: seq<Pending>)
    returns (ops: seq<Op>, end: nat)
    requires ListsById(t, log) && ListsByBlock(t, log) && AreKeys(t, keys) && first <= |keys|
    ensures first <= end <= |keys| && |ops| == end - first && (end < |keys| ==> keys[end].0 != block)
    ensures forall i :: first <= i < end ==> keys[i].0 == block
    ensures forall i :: first <= i < end ==> Reads(log, t.byBlock[keys[i]], ops[i - first])
  {
    ops, end := [], first;
    while end < |keys| && keys[end].0 == block
      invariant first <= end <= |keys| && |ops| == end - first
      invariant forall i :: first <= i < end ==> keys[i].0 == block && Reads(log, t.byBlock[keys[i]], ops[i - first])
    {
      KeyRead(t, log, keys[end]);
      ops := ops + [t.byId[t.byBlock[keys[end]]]];
      end := end + 1;
    }
  }

  lemma KeyOrder(t: Tables, log: seq<Pending>, a: Key, b: Key)
    requires Named(t, log, a) && Named(t, log, b) && a.0 == b.0 && a != b && KeyAtOrBefore(a, b)
    ensures ComesBefore(log, t.byBlock[a], t.byBlock[b])
  {
  }

  /** The keys from first to end are those of the block. */
  ghost predicate IsWindow(keys: seq<Key>, block: nat, first: nat, end: nat)
  {
    && first <= end <= |keys| && (forall j :: 0 <= j < first ==> keys[j].0 < block)
    && (forall j :: first <= j < end ==> keys[j].0 == block) && (forall j :: end <= j < |keys| ==> keys[j].0 > block)
  }

  lemma WindowFound(t: Tables, keys: seq<Key>, block: nat, first: nat, end: nat)
    requires AreKeys(t, keys) && first <= end <= |keys|
    requires (forall j :: 0 <= j < first ==> keys[j].0 < block) && (first < |keys| ==> keys[first].0 >= block)
    requires (forall j :: first <= j < end ==> keys[j].0 == block) && (end < |keys| ==> keys[end].0 != block)
    ensures IsWindow(keys, block, first, end)
  {
    forall j | end <= j < |keys|
      ensures keys[j].0 > block
    {
      assert end < |keys| && keys[end].0 >= block;
    }
  }

  lemma AllFound(t: Tables, log: seq<Pending>, keys: seq<Key>, block: nat, first: nat, end: nat, ops: seq<Op>)
    requires ListsByBlock(t, log) && AreKeys(t, keys) && IsWindow(keys, block, first, end) && |ops| == end - first
    requires forall i :: first <= i < end ==> Reads(log, t.byBlock[keys[i]], ops[i - first])
    ensures FoundInBlock(log, block, IdsOf(t, keys, first, end), ops)
  {
    var ids := IdsOf(t, keys, first, end);
    forall k | 0 <= k < |ids|
      ensures Reads(log, ids[k], ops[k])
    {
      assert ops[first + k - first] == ops[k];
    }
    ExactlyTheBlock(t, log, keys, block, first, end);
    forall i | first <= i < end
      ensures Named(t, log, keys[i])
    {
      KeyNamed(t, log, keys[i]);
    }
    InKeyOrder(t, log, keys, block, first, end);
  }

  lemma ExactlyTheBlock(t: Tables, log: seq<Pending>, keys: seq<Key>, block: nat, first: nat, end: nat)
    requires ListsByBlock(t, log) && AreKeys(t, keys) && IsWindow(keys, block, first, end)
    ensures forall i: nat :: i in IdsOf(t, keys, first, end) <==> i < |log| && log[i].op.block == block
  {
    forall i: nat
      ensures i in IdsOf(t, keys, first, end) <==> i < |log| && log[i].op.block == block
    {
      if i < |log| && log[i].op.block == block {
        IdFound(t, log, keys, block, first, end, i);
      }
      if i in IdsOf(t, keys, first, end) {
        FoundIsOfBlock(t, log, keys, block, first, end, i);
      }
    }
  }

  lemma IdFound(t: Tables, log: seq<Pending>, keys: seq<Key>, block: nat, first: nat, end: nat, i: nat)
    requires ListsByBlock(t, log) && AreKeys(t, keys) && IsWindow(keys, block, first, end)
    requires i < |log| && log[i].op.block == block
    ensures i in IdsOf(t, keys, first, end)
  {
    var p := KeyFound(t, log, keys, block, first, end, i);
    assert IdsOf(t, keys, first, end)[p - first] == i;
  }

  lemma FoundIsOfBlock(t: Tables, log: seq<Pending>, keys: seq<Key>, block: nat, first: nat, end: nat, i: nat)
    requires ListsByBlock(t, log) && AreKeys(t, keys) && IsWindow(keys, block, first, end)
    requires i in IdsOf(t, keys, first, end)
    ensures i < |log| && log[i].op.block == block
  {
    var ids := IdsOf(t, keys, first, end);
    var k :| 0 <= k < |ids| && ids[k] == i;
    KeyNamed(t, log, keys[first + k]);
  }

  /** The key points to an operation of the log that it names. */
  ghost predicate Named(t: Tables, log: seq<Pending>, key: Key)
  {
    key in t.byBlock && t.byBlock[key] < |log| && KeyNames(key, t.byBlock[key], log[t.byBlock[key]].op)
  }

  lemma KeyNamed(t: Tables, log: seq<Pending>, key: Key)
    requires ListsByBlock(t, log) && key in t.byBlock
    ensures Named(t, log, key)
  {
  }

  lemma InKeyOrder(t: Tables, log: seq<Pending>, keys: seq<Key>, block: nat, first: nat, end: nat)
    requires AreKeys(t, keys) && IsWindow(keys, block, first, end)
    requires forall i :: first <= i < end ==> Named(t, log, keys[i])
    ensures var ids := IdsOf(t, keys, first, end);
      forall j, k :: 0 <= j < k < |ids| ==> ComesBefore(log, ids[j], ids[k])
  {
    var ids := IdsOf(t, keys, first, end);
    forall j, k | 0 <= j < k < |ids|
      ensures ComesBefore(log, ids[j], ids[k])
    {
      KeyOrder(t, log, keys[first + j], keys[first + k]);
    }
  }

  lemma KeyFound(t: Tables, log: seq<Pending>, keys: seq<Key>, block: nat, first: nat, end: nat, i: nat)
    returns (p: nat)
    requires ListsByBlock(t, log) && AreKeys(t, keys) && IsWindow(keys, block, first, end)
    requires i < |log| && log[i].op.block == block
    ensures first <= p < end && t.byBlock[keys[p]] == i
  {
    var key := KeyOf(t, log, i);
    p :| 0 <= p < |keys| && keys[p] == key;
  }

  lemma KeyOf(t: Tables, log: seq<Pending>, i: nat) returns (key: Key)
    requires ListsByBlock(t, log) && i < |log|
    ensures key in t.byBlock && t.byBlock[key] == i && key.0 == log[i].op.block
  {
    assert HasKey(t, i, log[i].op);
    key :| key in t.byBlock && t.byBlock[key] == i && KeyNames(key, i, log[i].op);
  }

  // ---------- the latest operations of an account ----------

  /** The entries found are those from the one asked for, in 32 bits, or the newest if that is older, downwards, with
      the operations they point to: the first one and up to limit more. */
  ghost predicate FoundForAccount(log: seq<Pending>, hist: seq<nat>, start: nat, limit: nat, found: seq<(nat, Op)>)
  {
    if hist == [] then found == []
    else
      var first := Least(start % 0x1_0000_0000, |hist| - 1);
      && |found| == 1 + Least(limit, first)
      && forall k :: 0 <= k < |found| ==> EntryRead(log, hist, first - k, found[k])
  }

  function Least(a: nat, b: nat): nat { if a < b then a else b }

  ghost predicate EntryRead(log: seq<Pending>, hist: seq<nat>, e: int, found: (nat, Op))
  {
    0 <= e < |hist| && found.0 == e && Reads(log, hist[e], found.1)
  }

  /** The numbers of the account's entries, in order. */
  method EntriesInOrder(t: Tables, info: Info) returns (entries: seq<nat>)
    ensures forall e :: e in entries <==> (info.id, e) in t.entries && info.oldest <= e <= info.newest
    ensures forall i, j :: 0 <= i < j < |entries| ==> entries[i] < entries[j]
  {
    var own := set key | key in t.entries && key.0 == info.id && info.oldest <= key.1 <= info.newest :: key.1;
    entries := InOrder(own, (a: nat, b: nat) => a <= b);
    assert forall e :: (info.id, e) in t.entries ==> (info.id, e).1 == e;
  }

  /** The numbers below n, in increasing order. */
  lemma {:induction false} DenseRange(s: seq<nat>, n: nat)
    requires (forall e: nat :: e in s <==> e < n) && forall i, j :: 0 <= i < j < |s| ==> s[i] < s[j]
    ensures |s| == n && forall i :: 0 <= i < n ==> s[i] == i
  {
    if n > 0 {
      assert n - 1 in s;
      var last := |s| - 1;
      assert s[last] in s;
      var front := s[..last];
      assert forall e :: e in s ==> e in front || e == s[last];
      DenseRange(front, n - 1);
    } else {
      SetOfSize(s);
      assert SetOf(s) == {};
    }
  }

  lemma EntriesAreDense(t: Tables, accounts: nat, log: seq<Pending>, name: Name, entries: seq<nat>)
    requires Records(t, accounts, HistoryOf(log)) && name in t.info
    requires forall e :: e in entries <==>
      (t.info[name].id, e) in t.entries && t.info[name].oldest <= e <= t.info[name].newest
    requires forall i, j :: 0 <= i < j < |entries| ==> entries[i] < entries[j]
    ensures |entries| == |History(log, name)| > 0 && forall i :: 0 <= i < |entries| ==> entries[i] == i
  {
    var n := |HistoryOf(log)(name)|;
    assert forall e: nat :: e < n ==> (t.info[name].id, e) in t.entries;
    DenseRange(entries, n);
  }

  /** The last entry not after the one asked for; there always is one, since entries start at zero. */
  method SeekForPrev(entries: seq<nat>, key: nat) returns (i: nat)
    requires |entries| > 0 && forall j :: 0 <= j < |entries| ==> entries[j] == j
    ensures i == Least(key, |entries| - 1)
  {
    var j := |entries|;
    while entries[j - 1] > key
      invariant 0 < j <= |entries| && (j < |entries| ==> key <= j - 1)
    {
      j := j - 1;
    }
    i := j - 1;
  }

  /** find_account_history_data: seeks backwards from the entry asked for, in 32 bits, and goes down to limit below
      it. */
  method FindForAccount(t: Tables, name: Name, start: nat, limit: nat, ghost log: seq<Pending>, ghost accounts: nat)
    returns (found: seq<(nat, Op)>)
    requires ListsById(t, log) && Records(t, accounts, HistoryOf(log))
    ensures FoundForAccount(log, History(log, name), start, limit, found)
  {
    if name !in t.info {
      NoHistory(t, accounts, log, name);
      return [];
    }
    var entries := EntriesInOrder(t, t.info[name]);
    EntriesAreDense(t, accounts, log, name, entries);
    var first := SeekForPrev(entries, start % 0x1_0000_0000);
    found := ReadEntries(t, name, entries, first, limit, log, accounts);
  }

  lemma NoHistory(t: Tables, accounts: nat, log: seq<Pending>, name: Name)
    requires Records(t, accounts, HistoryOf(log)) && name !in t.info
    ensures History(log, name) == []
  {
    assert HistoryOf(log)(name) == [];
  }

  method ReadEntries(t: Tables, name: Name, entries: seq<nat>, first: nat, limit: nat, ghost log: seq<Pending>,
                     ghost accounts: nat) returns (found: seq<(nat, Op)>)
    requires ListsById(t, log) && Records(t, accounts, HistoryOf(log)) && name in t.info
    requires first < |entries| == |History(log, name)| && forall j :: 0 <= j < |entries| ==> entries[j] == j
    ensures |found| == 1 + Least(limit, first)
    ensures forall k :: 0 <= k < |found| ==> EntryRead(log, History(log, name), first - k, found[k])
  {
    var lower := if entries[first] > limit then entries[first] - limit else 0;
    var i := first;
    found := [];
    while true
      invariant lower <= i <= first && |found| == first - i
      invariant forall k :: 0 <= k < |found| ==> EntryRead(log, History(log, name), first - k, found[k])
      decreases i
    {
      ReadsEntry(t, accounts, log, name, i);
      found := found + [(entries[i], t.byId[t.entries[(t.info[name].id, entries[i])]])];
      if entries[i] <= lower {
        break;
      }
      i := i - 1;
    }
  }

  lemma ReadsEntry(t: Tables, accounts: nat, log: seq<Pending>, name: Name, e: nat)
    requires ListsById(t, log) && Records(t, accounts, HistoryOf(log)) && name in t.info && e < |History(log, name)|
    ensures (t.info[name].id, e) in t.entries && t.entries[(t.info[name].id, e)] in t.byId
    ensures EntryRead(log, History(log, name), e, (e, t.byId[t.entries[(t.info[name].id, e)]]))
  {
    HistoryLists(log, name);
    assert t.entries[(t.info[name].id, e)] == HistoryOf(log)(name)[e];
    assert History(log, name)[e] in History(log, name);
  }
}
