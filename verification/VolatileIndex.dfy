/** The volatile index, where applied operations wait for their block to become irreversible. */
module VolatileIndex {
  import opened Collections
  import opened Ordering
  import opened HistoryTables

  type Volatile = map<nat, Pending>

  /** The index orders by block, then by id. */
  predicate Sooner(v: Volatile, a: nat, b: nat)
  {
    a in v && b in v && (v[a].op.block < v[b].op.block || (v[a].op.block == v[b].op.block && a <= b))
  }

  function ByBlock(v: Volatile): (nat, nat) -> bool { (a: nat, b: nat) => Sooner(v, a, b) }

  ghost function PendingOf(v: Volatile, ids: seq<nat>): seq<Pending>
    requires forall i :: 0 <= i < |ids| ==> ids[i] in v
  {
    seq(|ids|, i requires 0 <= i < |ids| => v[ids[i]])
  }

  ghost function Without(v: Volatile, ids: seq<nat>): Volatile { map id | id in v && id !in ids :: v[id] }

  // ---------- what is due ----------

  /** Some pending operation is in a block up to the given one. */
  ghost predicate HasDue(v: Volatile, block: nat) { exists id :: id in v && v[id].op.block <= block }

  /** The ids are those up to the block, in index order. */
  ghost predicate AreDue(v: Volatile, block: nat, ids: seq<nat>)
  {
    && Distinct(ids) && (forall id :: id in ids <==> id in v && v[id].op.block <= block)
    && (forall i, j :: 0 <= i < j < |ids| ==> Sooner(v, ids[i], ids[j]))
  }

  method Due(v: Volatile, block: nat) returns (ids: seq<nat>)
    ensures AreDue(v, block, ids)
  {
    var order := InOrder(v.Keys, ByBlock(v));
    var i := 0;
    while i < |order| && v[order[i]].op.block <= block
      invariant i <= |order| && forall j :: 0 <= j < i ==> v[order[j]].op.block <= block
    {
      i := i + 1;
    }
    ids := order[..i];
    PrefixIsDue(v, block, order, i);
  }

  lemma PrefixIsDue(v: Volatile, block: nat, order: seq<nat>, i: nat)
    requires Enumerates(order, v.Keys, ByBlock(v)) && i <= |order|
    requires forall j :: 0 <= j < i ==> order[j] in v && v[order[j]].op.block <= block
    requires i < |order| ==> order[i] in v && v[order[i]].op.block > block
    ensures AreDue(v, block, order[..i])
  {
  }

  ghost function UpTo(v: Volatile, block: nat): set<nat> { set id | id in v && v[id].op.block <= block }

  lemma DueExists(v: Volatile, block: nat)
    ensures exists ids :: AreDue(v, block, ids)
  {
    var ids := EnumerationExists(UpTo(v, block), ByBlock(v));
    forall i, j | 0 <= i < j < |ids|
      ensures Sooner(v, ids[i], ids[j])
    {
      assert ByBlock(v)(ids[i], ids[j]);
    }
    assert AreDue(v, block, ids);
  }

  ghost function DueIds(v: Volatile, block: nat): (ids: seq<nat>)
    ensures AreDue(v, block, ids) && forall i :: 0 <= i < |ids| ==> ids[i] in v
  {
    DueExists(v, block);
    var ids :| AreDue(v, block, ids);
    assert forall i :: 0 <= i < |ids| ==> ids[i] in ids;
    ids
  }

  /** What is due is determined, order included. */
  lemma DueIsUnique(v: Volatile, block: nat, ids: seq<nat>)
    requires AreDue(v, block, ids)
    ensures ids == DueIds(v, block)
  {
    SortedIsUnique(v, ids, DueIds(v, block));
  }

  lemma {:induction false} SortedIsUnique(v: Volatile, a: seq<nat>, b: seq<nat>)
    requires Distinct(a) && Distinct(b) && forall id :: id in a <==> id in b
    requires forall i, j :: 0 <= i < j < |a| ==> Sooner(v, a[i], a[j])
    requires forall i, j :: 0 <= i < j < |b| ==> Sooner(v, b[i], b[j])
    ensures a == b
  {
    SetOfSize(a);
    SetOfSize(b);
    assert SetOf(a) == SetOf(b);
    if a != [] {
      assert a[0] in a && b[0] in b;
      SameFirst(v, a, b);
      SameTail(a, b);
      SortedIsUnique(v, a[1..], b[1..]);
    }
  }

  lemma SameFirst(v: Volatile, a: seq<nat>, b: seq<nat>)
    requires a != [] && b != [] && a[0] in b && b[0] in a
    requires forall i, j :: 0 <= i < j < |a| ==> Sooner(v, a[i], a[j])
    requires forall i, j :: 0 <= i < j < |b| ==> Sooner(v, b[i], b[j])
    ensures a[0] == b[0]
  {
  }

  lemma SameTail(a: seq<nat>, b: seq<nat>)
    requires a != [] && b != [] && a[0] == b[0] && Distinct(a) && Distinct(b) && forall id :: id in a <==> id in b
    ensures forall id :: id in a[1..] <==> id in b[1..]
  {
    forall id
      ensures id in a[1..] <==> id in a && id != a[0]
      ensures id in b[1..] <==> id in b && id != b[0]
    {
      InTail(a, id);
      InTail(b, id);
    }
  }

  lemma InTail(a: seq<nat>, id: nat)
    requires a != [] && Distinct(a)
    ensures id in a[1..] <==> id in a && id != a[0]
  {
  }

  /** The list of due ids is empty exactly if nothing is due; then importing them changes nothing. */
  lemma DueIfAny(v: Volatile, block: nat)
    ensures DueIds(v, block) != [] <==> HasDue(v, block)
    ensures !HasDue(v, block) ==> Without(v, DueIds(v, block)) == v && PendingOf(v, DueIds(v, block)) == []
  {
    var ids := DueIds(v, block);
    if ids != [] {
      assert ids[0] in ids;
    }
  }

  lemma OneIsDue(v: Volatile, id: nat, block: nat)
    requires id in v && v[id].op.block <= block && forall x :: x in v && v[x].op.block <= block ==> x == id
    ensures DueIds(v, block) == [id] && PendingOf(v, [id]) == [v[id]]
  {
    var ids := DueIds(v, block);
    SetOfSize(ids);
    assert SetOf(ids) == {id};
    assert ids[0] in SetOf(ids);
  }

  // ---------- exactly once, in block order ----------

  /** Every operation applied is either pending or was imported, and never both or twice. */
  ghost predicate OnceOnly(imported: seq<nat>, v: Volatile, next: nat)
  {
    && Distinct(imported)
    && (forall id: nat :: id < next <==> id in imported || id in v)
    && (forall id :: id in imported ==> id !in v)
  }

  /** Imported operations are in block order, up to the last notice; pending ones are not before it. */
  ghost predicate InBlockOrder(log: seq<Pending>, v: Volatile, horizon: nat)
  {
    && (forall i, j :: 0 <= i < j < |log| ==> log[i].op.block <= log[j].op.block)
    && (forall i :: 0 <= i < |log| ==> log[i].op.block <= horizon)
    && (forall id :: id in v ==> v[id].op.block >= horizon)
  }

  lemma ImportKeepsOnce(imported: seq<nat>, v: Volatile, next: nat, ids: seq<nat>)
    requires OnceOnly(imported, v, next) && Distinct(ids) && forall id :: id in ids ==> id in v
    ensures OnceOnly(imported + ids, Without(v, ids), next)
  {
    DistinctConcat(imported, ids);
  }

  lemma ImportKeepsOrder(log: seq<Pending>, v: Volatile, horizon: nat, block: nat, ids: seq<nat>)
    requires InBlockOrder(log, v, horizon) && AreDue(v, block, ids) && forall i :: 0 <= i < |ids| ==> ids[i] in v
    ensures InBlockOrder(log + PendingOf(v, ids), Without(v, ids), if block > horizon then block else horizon)
  {
    assert forall i :: 0 <= i < |ids| ==> ids[i] in ids;
  }

  /** Undoing gives the volatile index back as it was, but cannot take anything back from the store: each operation is
      still imported at most once exactly if nothing was imported since. */
  lemma UndoIsSafe(imported: seq<nat>, v: Volatile, next: nat, more: seq<nat>, v': Volatile, next': nat)
    requires OnceOnly(imported, v, next) && OnceOnly(imported + more, v', next')
    ensures OnceOnly(imported + more, v, next) <==> more == []
  {
    if more == [] {
      assert imported + more == imported;
    } else {
      var all := imported + more;
      assert all[|imported|] == more[0] && more[0] in all;
      assert forall i :: 0 <= i < |imported| ==> all[i] == imported[i] && all[i] != all[|imported|];
      assert more[0] !in imported;
      assert more[0] in v || more[0] >= next;
    }
  }
}
