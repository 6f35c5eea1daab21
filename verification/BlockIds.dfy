/** Lists of block ids that a syncing peer offers: always a run of consecutive block numbers. */
module BlockIds {
  import opened Words

  type Hash = nat

  /** Block numbers are 32-bit and wrap. */
  function Succ(n: uint32): uint32 { if n == 0xFFFF_FFFF then 0 else n + 1 }

  ghost predicate Consecutive(num: Hash -> uint32, ids: seq<Hash>)
  {
    forall i :: 0 < i < |ids| ==> num(ids[i]) == Succ(num(ids[i - 1]))
  }

  /** first + i in 32-bit arithmetic. */
  function Offset(first: uint32, i: nat): uint32 { (first + i) % 0x1_0000_0000 }

  lemma OffsetStep(first: uint32, i: nat)
    ensures Offset(first, 0) == first && Offset(first, i + 1) == Succ(Offset(first, i))
  {
  }

  lemma {:induction false} ConsecutiveAt(num: Hash -> uint32, ids: seq<Hash>, i: nat)
    requires Consecutive(num, ids) && i < |ids|
    ensures num(ids[i]) == Offset(num(ids[0]), i)
  {
    if i > 0 {
      ConsecutiveAt(num, ids, i - 1);
      OffsetStep(num(ids[0]), i - 1);
    } else {
      OffsetStep(num(ids[0]), 0);
    }
  }

  /** The check the node makes of a response: the i-th block has number first + i. */
  method IsSequential(num: Hash -> uint32, ids: seq<Hash>) returns (ok: bool)
    ensures ok <==> Consecutive(num, ids)
  {
    var i := 1;
    while i < |ids|
      invariant i >= 1 && forall j :: 0 < j < i && j < |ids| ==> num(ids[j]) == Succ(num(ids[j - 1]))
    {
      assert Consecutive(num, ids[..i]);
      ConsecutiveAt(num, ids[..i], i - 1);
      OffsetStep(num(ids[0]), i - 1);
      if num(ids[i]) != Offset(num(ids[0]), i) {
        return false;
      }
      i := i + 1;
    }
    ok := true;
  }

  lemma ConsecutiveSlices(num: Hash -> uint32, ids: seq<Hash>, i: nat)
    requires Consecutive(num, ids) && i <= |ids|
    ensures Consecutive(num, ids[..i]) && Consecutive(num, ids[i..])
  {
  }

  lemma ConsecutiveJoin(num: Hash -> uint32, a: seq<Hash>, b: seq<Hash>)
    requires Consecutive(num, a) && Consecutive(num, b)
    requires a != [] && b != [] ==> num(b[0]) == Succ(num(a[|a| - 1]))
    ensures Consecutive(num, a + b)
  {
  }

  // ---------- merging an inventory into the list ----------

  /** What is left after the blocks already seen are dropped from the front. */
  function Flushed(hashes: seq<Hash>, known: set<Hash>): seq<Hash>
  {
    if hashes != [] && hashes[0] in known then Flushed(hashes[1..], known) else hashes
  }

  /** What is left after popping from the back until the given block is last. */
  function BackTo(ids: seq<Hash>, h: Hash): seq<Hash>
  {
    if ids == [] || ids[|ids| - 1] == h then ids else BackTo(ids[..|ids| - 1], h)
  }

  lemma {:induction false} FlushedSuffix(hashes: seq<Hash>, known: set<Hash>)
    ensures |Flushed(hashes, known)| <= |hashes|
    ensures var k := |hashes| - |Flushed(hashes, known)|;
      Flushed(hashes, known) == hashes[k..] && (forall i :: 0 <= i < k ==> hashes[i] in known)
      && (k < |hashes| ==> hashes[k] !in known)
  {
    if hashes != [] && hashes[0] in known {
      FlushedSuffix(hashes[1..], known);
    }
  }

  lemma {:induction false} BackToPrefix(ids: seq<Hash>, h: Hash)
    ensures var k := |BackTo(ids, h)|;
      && k <= |ids| && BackTo(ids, h) == ids[..k] && (k > 0 ==> ids[k - 1] == h)
      && forall i :: k <= i < |ids| ==> ids[i] != h
  {
    if ids != [] && ids[|ids| - 1] != h {
      BackToPrefix(ids[..|ids| - 1], h);
    }
  }

  /** The list after a response: it extends the old list from the last block they share, or replaces it. */
  function Merged(ids: seq<Hash>, hashes: seq<Hash>, known: set<Hash>, keepAll: bool): seq<Hash>
  {
    if hashes == [] then ids
    else if ids == [] then (if keepAll then hashes else Flushed(hashes, known))
    else
      var common := BackTo(ids, hashes[0]);
      if common == [] then hashes[1..] else common[..|common| - 1] + hashes
  }

  lemma MergedIsConsecutive(num: Hash -> uint32, ids: seq<Hash>, hashes: seq<Hash>, known: set<Hash>, keepAll: bool)
    requires Consecutive(num, ids) && Consecutive(num, hashes)
    ensures Consecutive(num, Merged(ids, hashes, known, keepAll))
  {
    FlushedSuffix(hashes, known);
    ConsecutiveSlices(num, hashes, |hashes| - |Flushed(hashes, known)|);
    if hashes != [] && ids != [] {
      BackToPrefix(ids, hashes[0]);
      ConsecutiveSlices(num, hashes, 1);
      var k := |BackTo(ids, hashes[0])|;
      if k > 0 {
        ConsecutiveSlices(num, ids, k - 1);
        assert BackTo(ids, hashes[0])[..k - 1] == ids[..k - 1];
        ConsecutiveJoin(num, ids[..k - 1], hashes);
      }
    }
  }

  ghost predicate IsLastPlace(ids: seq<Hash>, h: Hash, k: nat)
  {
    k < |ids| && ids[k] == h && forall i :: k < i < |ids| ==> ids[i] != h
  }

  /** A response to a list already held continues it from the last block both have, or, if they share none, replaces it
      without the block the response starts from. */
  lemma MergedContinues(ids: seq<Hash>, hashes: seq<Hash>, known: set<Hash>, keepAll: bool)
    requires ids != [] && hashes != []
    ensures hashes[0] !in ids ==> Merged(ids, hashes, known, keepAll) == hashes[1..]
    ensures hashes[0] in ids ==>
      exists k: nat :: IsLastPlace(ids, hashes[0], k) && Merged(ids, hashes, known, keepAll) == ids[..k] + hashes
  {
    BackToPrefix(ids, hashes[0]);
    var k := |BackTo(ids, hashes[0])|;
    if k > 0 {
      assert IsLastPlace(ids, hashes[0], k - 1);
      assert BackTo(ids, hashes[0])[..k - 1] == ids[..k - 1];
    }
  }

  /** The known blocks at the front are dropped, up to the first unknown one. */
  ghost predicate DropsKnown(hashes: seq<Hash>, known: set<Hash>, rest: seq<Hash>)
  {
    && |rest| <= |hashes| && rest == hashes[|hashes| - |rest|..]
    && (forall i :: 0 <= i < |hashes| - |rest| ==> hashes[i] in known)
    && (rest != [] ==> rest[0] !in known)
  }

  /** What a response leaves of a peer's list: without ids nothing changes; an empty list becomes the response, without
      the known blocks at its front unless another peer offers its first block next; a list that holds the first block
      of the response is continued from the last place it is at; any other list is replaced, without that block. */
  ghost predicate IsMerge(ids: seq<Hash>, hashes: seq<Hash>, known: set<Hash>, keepAll: bool, ids': seq<Hash>)
  {
    if hashes == [] then ids' == ids
    else if ids == [] then (if keepAll then ids' == hashes else DropsKnown(hashes, known, ids'))
    else if hashes[0] !in ids then ids' == hashes[1..]
    else exists k: nat :: IsLastPlace(ids, hashes[0], k) && ids' == ids[..k] + hashes
  }

  lemma MergedIsMerge(ids: seq<Hash>, hashes: seq<Hash>, known: set<Hash>, keepAll: bool)
    ensures IsMerge(ids, hashes, known, keepAll, Merged(ids, hashes, known, keepAll))
  {
    FlushedSuffix(hashes, known);
    if ids != [] && hashes != [] {
      MergedContinues(ids, hashes, known, keepAll);
    }
  }

  /** The branch for a list already held: pop back, then drop the shared block or the whole list. The first block
      appended never repeats the last block kept. */
  method MergeIntoList(num: Hash -> uint32, ids: seq<Hash>, hashes: seq<Hash>, ghost known: set<Hash>,
                       ghost keepAll: bool) returns (kept: seq<Hash>, rest: seq<Hash>)
    requires ids != [] && hashes != [] && Consecutive(num, ids)
    ensures kept + rest == Merged(ids, hashes, known, keepAll)
    ensures kept != [] && rest != [] ==> rest[0] != kept[|kept| - 1]
  {
    kept, rest := ids, hashes;
    while kept != [] && kept[|kept| - 1] != hashes[0]
      invariant BackTo(kept, hashes[0]) == BackTo(ids, hashes[0])
    {
      kept := kept[..|kept| - 1];
    }
    if kept == [] {
      rest := rest[1..];
    } else {
      kept := kept[..|kept| - 1];
    }
    if rest != [] && kept != [] {
      BackToPrefix(ids, hashes[0]);
      var k := |BackTo(ids, hashes[0])|;
      assert num(ids[k - 1]) == Succ(num(ids[k - 2]));
    }
  }

  method FlushKnown(hashes: seq<Hash>, known: set<Hash>) returns (rest: seq<Hash>)
    ensures rest == Flushed(hashes, known)
  {
    rest := hashes;
    while rest != [] && rest[0] in known
      invariant Flushed(rest, known) == Flushed(hashes, known)
    {
      rest := rest[1..];
    }
  }
}
