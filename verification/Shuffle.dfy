/** The deterministic shuffle of the scheduled witnesses, and the medians of what they vote for. */
module Shuffle {
  import opened Collections
  import opened Words
  import opened Ordering

  /** The generator for slot i, seeded by the head block time in seconds; all arithmetic is modulo 2^64. */
  function Mix(seconds: uint32, i: nat): nat
  {
    var k0 := Wrap64(Shl(seconds, 32) + i * 2685821657736338717);
    var k1 := Xor(k0, Shr(k0, 12));
    var k2 := Xor(k1, Wrap64(Shl(k1, 25)));
    var k3 := Xor(k2, Shr(k2, 27));
    Wrap64(k3 * 2685821657736338717)
  }

  function Residue(k: nat, m: int): (r: nat)
    requires m > 0
    ensures r < m
  {
    k % m
  }

  /** The slot that slot i of n is exchanged with: itself or a later one. */
  function Partner(seconds: uint32, i: nat, n: nat): (j: nat)
    requires i < n
    ensures i <= j < n
  {
    i + Residue(Mix(seconds, i), n - i)
  }

  function Exchange<T>(s: seq<T>, i: nat, j: nat): (r: seq<T>)
    requires i < |s| && j < |s|
    ensures |r| == |s|
  {
    s[i := s[j]][j := s[i]]
  }

  lemma ExchangePermutes<T>(s: seq<T>, i: nat, j: nat)
    requires i < |s| && j < |s|
    ensures multiset(Exchange(s, i, j)) == multiset(s)
  {
  }

  function Shuffled<T>(s: seq<T>, seconds: uint32, i: nat): (r: seq<T>)
    requires i <= |s|
    ensures |r| == |s|
    decreases |s| - i
  {
    if i == |s| then s else Shuffled(Exchange(s, i, Partner(seconds, i, |s|)), seconds, i + 1)
  }

  lemma SamePrefix<T>(r: seq<T>, s: seq<T>, i: nat)
    requires i < |r| && i < |s| && r[..i + 1] == s[..i + 1]
    ensures r[..i] == s[..i]
  {
  }

  lemma {:induction false} ShuffledPermutes<T>(s: seq<T>, seconds: uint32, i: nat)
    requires i <= |s|
    ensures multiset(Shuffled(s, seconds, i)) == multiset(s)
    ensures Shuffled(s, seconds, i)[..i] == s[..i]
    decreases |s| - i
  {
    if i < |s| {
      var j := Partner(seconds, i, |s|);
      var s' := Exchange(s, i, j);
      ExchangePermutes(s, i, j);
      ShuffledPermutes(s', seconds, i + 1);
      SamePrefix(Shuffled(s', seconds, i + 1), s', i);
      assert s'[..i] == s[..i];
    }
  }

  // ---------- what the shuffle is ----------

  /** The values of the generator between its statements. */
  datatype Stages = Stages(k0: uint64, k1: uint64, k2: uint64, k3: uint64)

  /** A bit of y is that of x, changed exactly if the bit of x so many places above it is set. */
  ghost predicate MixedFromAbove(x: nat, k: nat, y: nat)
  {
    forall n: nat {:trigger Bit(y, n)} :: n < 64 ==> (Bit(y, n) <==> (Bit(x, n) != Bit(x, n + k)))
  }

  /** The same for the bit so many places below. */
  ghost predicate MixedFromBelow(x: nat, k: nat, y: nat)
  {
    forall n: nat {:trigger Bit(y, n)} :: n < 64 ==> (Bit(y, n) <==> (Bit(x, n) != (n >= k && Bit(x, n - k))))
  }

  /** The xorshift generator, bit by bit. */
  ghost predicate AreStages(seconds: uint32, i: nat, g: Stages)
  {
    && g.k0 == Wrap64(seconds * 0x1_0000_0000 + i * 2685821657736338717)
    && MixedFromAbove(g.k0, 12, g.k1) && MixedFromBelow(g.k1, 25, g.k2) && MixedFromAbove(g.k2, 27, g.k3)
  }

  lemma ShiftRightMixes(x: uint64, k: nat) returns (y: uint64)
    ensures y == Xor(x, Shr(x, k)) && MixedFromAbove(x, k, y)
  {
    Pow2Words();
    ShrIsDiv(x, k);
    XorBound(x, Shr(x, k), 64);
    y := Xor(x, Shr(x, k));
    forall n: nat | n < 64
      ensures Bit(y, n) <==> (Bit(x, n) != Bit(x, n + k))
    {
      XorBit(x, Shr(x, k), n);
      ShrBit(x, k, n);
    }
  }

  lemma ShiftLeftMixes(x: uint64, k: nat) returns (y: uint64)
    ensures y == Xor(x, Wrap64(Shl(x, k))) && MixedFromBelow(x, k, y)
  {
    Pow2Words();
    XorBound(x, Wrap64(Shl(x, k)), 64);
    y := Xor(x, Wrap64(Shl(x, k)));
    forall n: nat | n < 64
      ensures Bit(y, n) <==> (Bit(x, n) != (n >= k && Bit(x, n - k)))
    {
      XorBit(x, Wrap64(Shl(x, k)), n);
      LowBits(Shl(x, k), 64, n);
      ShlBit(x, k, n);
    }
  }

  /** The generator has these stages and multiplies the last. */
  lemma MixHasStages(seconds: uint32, i: nat) returns (g: Stages)
    ensures AreStages(seconds, i, g) && Mix(seconds, i) == Wrap64(g.k3 * 2685821657736338717)
  {
    var k0 := FirstStage(seconds, i);
    var k1 := ShiftRightMixes(k0, 12);
    var k2 := ShiftLeftMixes(k1, 25);
    var k3 := ShiftRightMixes(k2, 27);
    g := Stages(k0, k1, k2, k3);
  }

  lemma FirstStage(seconds: uint32, i: nat) returns (k0: uint64)
    ensures k0 == Wrap64(Shl(seconds, 32) + i * 2685821657736338717)
    ensures k0 == Wrap64(seconds * 0x1_0000_0000 + i * 2685821657736338717)
  {
    Pow2Words();
    ShlIsMul(seconds, 32);
    k0 := Wrap64(Shl(seconds, 32) + i * 2685821657736338717);
  }

  /** There is only one sequence of stages. */
  lemma StagesAreUnique(seconds: uint32, i: nat, g: Stages, h: Stages)
    requires AreStages(seconds, i, g) && AreStages(seconds, i, h)
    ensures g == h
  {
    MixIsUnique(g.k0, 12, g.k1, h.k1);
    MixIsUnique(g.k1, 25, g.k2, h.k2);
    MixIsUnique(g.k2, 27, g.k3, h.k3);
  }

  lemma BitOf(x: nat, k: nat, y: nat, n: nat)
    requires n < 64
    ensures MixedFromAbove(x, k, y) ==> (Bit(y, n) <==> (Bit(x, n) != Bit(x, n + k)))
    ensures MixedFromBelow(x, k, y) ==> (Bit(y, n) <==> (Bit(x, n) != (n >= k && Bit(x, n - k))))
  {
  }

  lemma MixIsUnique(x: nat, k: nat, y: uint64, z: uint64)
    ensures MixedFromAbove(x, k, y) && MixedFromAbove(x, k, z) ==> y == z
    ensures MixedFromBelow(x, k, y) && MixedFromBelow(x, k, z) ==> y == z
  {
    if (MixedFromAbove(x, k, y) && MixedFromAbove(x, k, z)) || (MixedFromBelow(x, k, y) && MixedFromBelow(x, k, z)) {
      forall n: nat | n < 64
        ensures Bit(y, n) <==> Bit(z, n)
      {
        BitOf(x, k, y, n);
        BitOf(x, k, z, n);
      }
      Pow2Words();
      SameBits(y, z, 64);
    }
  }

  /** Slot j is the one the generator selects for slot i of n: i plus the generated number modulo the slots left. */
  ghost predicate Selects(seconds: uint32, i: nat, n: nat, j: nat, g: Stages)
  {
    i < n && AreStages(seconds, i, g) && j == i + Wrap64(g.k3 * 2685821657736338717) % (n - i)
  }

  /** The contents of two slots change places, and all others stay. */
  ghost predicate Exchanges<T>(s: seq<T>, i: nat, j: nat, s': seq<T>)
  {
    && |s'| == |s| && i < |s| && j < |s| && s'[i] == s[j] && s'[j] == s[i]
    && forall k :: 0 <= k < |s| && k != i && k != j ==> s'[k] == s[k]
  }

  /** The lists between the exchanges, and for each slot in turn what the generator made of it. */
  ghost predicate IsShuffle<T>(states: seq<seq<T>>, partners: seq<nat>, stages: seq<Stages>, seconds: uint32,
                               first: nat)
  {
    && |states| == |partners| + 1 && |stages| == |partners|
    && forall m :: 0 <= m < |partners| ==>
      && Selects(seconds, first + m, |states[0]|, partners[m], stages[m])
      && Exchanges(states[m], first + m, partners[m], states[m + 1])
  }

  /** Shuffling exchanges each slot in turn with the slot the generator selects for it. */
  lemma {:induction false} ShuffledExchanges<T>(s: seq<T>, seconds: uint32, i: nat)
    returns (states: seq<seq<T>>, partners: seq<nat>, stages: seq<Stages>)
    requires i <= |s|
    ensures IsShuffle(states, partners, stages, seconds, i) && |partners| == |s| - i
    ensures states[0] == s && states[|s| - i] == Shuffled(s, seconds, i)
    decreases |s| - i
  {
    if i == |s| {
      states, partners, stages := [s], [], [];
    } else {
      var j := Partner(seconds, i, |s|);
      var s' := Exchange(s, i, j);
      var g := PartnerIsSelected(seconds, i, |s|);
      var states', partners', stages' := ShuffledExchanges(s', seconds, i + 1);
      states, partners, stages := [s] + states', [j] + partners', [g] + stages';
      MoreExchanges(s, seconds, i, j, g, states', partners', stages');
    }
  }

  lemma PartnerIsSelected(seconds: uint32, i: nat, n: nat) returns (g: Stages)
    requires i < n
    ensures Selects(seconds, i, n, Partner(seconds, i, n), g)
  {
    g := MixHasStages(seconds, i);
  }

  lemma MoreExchanges<T>(s: seq<T>, seconds: uint32, i: nat, j: nat, g: Stages, states: seq<seq<T>>, partners: seq<nat>,
                         stages: seq<Stages>)
    requires IsShuffle(states, partners, stages, seconds, i + 1) && Selects(seconds, i, |s|, j, g)
    requires Exchanges(s, i, j, states[0])
    ensures IsShuffle([s] + states, [j] + partners, [g] + stages, seconds, i)
  {
    var all, js, gs := [s] + states, [j] + partners, [g] + stages;
    forall m | 0 <= m < |js|
      ensures Selects(seconds, i + m, |all[0]|, js[m], gs[m]) && Exchanges(all[m], i + m, js[m], all[m + 1])
    {
      if m > 0 {
        assert Selects(seconds, i + 1 + (m - 1), |states[0]|, partners[m - 1], stages[m - 1]);
        assert Exchanges(states[m - 1], i + 1 + (m - 1), partners[m - 1], states[m]);
      }
    }
  }

  method ShuffleInPlace<T>(a: array<T>, n: nat, seconds: uint32)
    requires n <= a.Length
    modifies a
    ensures a[..n] == Shuffled(old(a[..n]), seconds, 0)
    ensures a[n..] == old(a[n..])
  {
    ghost var goal, rest := Shuffled(a[..n], seconds, 0), a[n..];
    for i := 0 to n
      invariant Shuffled(a[..n], seconds, i) == goal && a[n..] == rest
    {
      ShuffledStep(a[..n], seconds, i);
      SwapSlots(a, n, i, Partner(seconds, i, n));
    }
  }

  lemma ShuffledStep<T>(s: seq<T>, seconds: uint32, i: nat)
    requires i < |s|
    ensures Shuffled(s, seconds, i) == Shuffled(Exchange(s, i, Partner(seconds, i, |s|)), seconds, i + 1)
  {
  }

  method SwapSlots<T>(a: array<T>, n: nat, i: nat, j: nat)
    requires i < n <= a.Length && j < n
    modifies a
    ensures a[..n] == Exchange(old(a[..n]), i, j)
    ensures a[n..] == old(a[n..])
  {
    a[i], a[j] := a[j], a[i];
  }

  // ---------- medians ----------

  function Counting(n: nat): seq<nat> { seq(n, i => i) }

  function Indices(n: nat): (s: set<nat>)
    ensures forall i: nat :: i in s <==> i < n
  {
    CountingHas(n);
    SetOf(Counting(n))
  }

  lemma CountingHas(n: nat)
    ensures forall i: nat :: i in Counting(n) <==> i < n
  {
    forall i: nat | i < n
      ensures i in Counting(n)
    {
      assert Counting(n)[i] == i;
    }
  }

  ghost function Below(values: seq<int>, m: int): set<nat> { set i | 0 <= i < |values| && values[i] < m }

  ghost function UpTo(values: seq<int>, m: int): set<nat> { set i | 0 <= i < |values| && values[i] <= m }

  /** The upper median: at most half of the values are below it, and more than half are not above it. */
  ghost predicate IsMedian(values: seq<int>, m: int)
  {
    m in values && |Below(values, m)| <= |values| / 2 < |UpTo(values, m)|
  }

  function ByValue(values: seq<int>): (nat, nat) -> bool
  {
    (i: nat, j: nat) => i < |values| && j < |values| && values[i] <= values[j]
  }

  /** Sorts and takes the element in the middle. */
  method Median(values: seq<int>) returns (m: int)
    requires values != []
    ensures IsMedian(values, m)
  {
    var order := InOrder(Indices(|values|), ByValue(values));
    IndicesCount(order, |values|);
    m := values[order[|values| / 2]];
    SortedHalves(values, order, |values| / 2);
  }

  lemma IndicesCount(order: seq<nat>, n: nat)
    requires forall x :: x in order <==> x in Indices(n)
    requires forall i, j :: 0 <= i < j < |order| ==> order[i] != order[j]
    ensures |order| == n && forall i :: 0 <= i < |order| ==> order[i] < n
  {
    SetOfSize(order);
    assert SetOf(order) == Indices(n);
    CountIndices(n);
    assert forall i :: 0 <= i < |order| ==> order[i] in order;
  }

  lemma CountIndices(n: nat)
    ensures |Indices(n)| == n
  {
    SetOfSize(Counting(n));
  }

  lemma SortedHalves(values: seq<int>, order: seq<nat>, k: nat)
    requires k < |order| == |values|
    requires forall x :: x in order <==> x in Indices(|values|)
    requires forall i :: 0 <= i < |order| ==> order[i] < |values|
    requires forall i, j :: 0 <= i < j < |order| ==> order[i] != order[j] && values[order[i]] <= values[order[j]]
    ensures |Below(values, values[order[k]])| <= k < |UpTo(values, values[order[k]])|
  {
    BelowComesBefore(values, order, k);
    UpToComesWith(values, order, k);
  }

  lemma BelowComesBefore(values: seq<int>, order: seq<nat>, k: nat)
    requires k < |order| == |values|
    requires forall x :: x in order <==> x in Indices(|values|)
    requires forall i :: 0 <= i < |order| ==> order[i] < |values|
    requires forall i, j :: 0 <= i < j < |order| ==> values[order[i]] <= values[order[j]]
    ensures |Below(values, values[order[k]])| <= k
  {
    var below, front := Below(values, values[order[k]]), order[..k];
    forall x | x in below
      ensures x in front
    {
      assert x in Indices(|values|);
      var i :| 0 <= i < |order| && order[i] == x;
      assert front[i] == x;
    }
    SetOfSize(front);
    SubsetSize(below, SetOf(front));
  }

  lemma UpToComesWith(values: seq<int>, order: seq<nat>, k: nat)
    requires k < |order| == |values|
    requires forall i :: 0 <= i < |order| ==> order[i] < |values|
    requires forall i, j :: 0 <= i < j < |order| ==> order[i] != order[j] && values[order[i]] <= values[order[j]]
    ensures k < |UpTo(values, values[order[k]])|
  {
    var upTo, front := UpTo(values, values[order[k]]), order[..k + 1];
    forall x | x in SetOf(front)
      ensures x in upTo
    {
      var i :| 0 <= i < k + 1 && order[i] == x;
    }
    SetOfSize(front);
    SubsetSize(SetOf(front), upTo);
  }
}
