/** The synopsis sent to a syncing peer: our chain, then samples of the blocks the peer already told us about. */
module Synopsis {
  import opened Words
  import opened BlockIds

  datatype Result<T> = Ok(value: T) | IndexAssertion

  /** low += (high - low + 2) / 2 in 32-bit arithmetic. */
  function NextLow(low: uint32, high: uint32): uint32
  {
    (low + (high - low + 2) % 0x1_0000_0000 / 2) % 0x1_0000_0000
  }

  /** The 32-bit arithmetic of the loop does not wrap. */
  predicate Fits(low: uint32, high: uint32) { high < 0xFFFF_FFFF && (low > 0 || high < 0xFFFF_FFFE) }

  /** Without wrapping, the loop variable advances past half of the remaining distance. */
  lemma NextLowHalves(low: uint32, high: uint32)
    requires low <= high && Fits(low, high)
    ensures NextLow(low, high) == low + (high - low) / 2 + 1 <= high + 1
  {
    assert (high - low + 2) % 0x1_0000_0000 == high - low + 2;
  }

  ghost function Iterate(low: uint32, high: uint32, n: nat): uint32
  {
    if n == 0 then low else NextLow(Iterate(low, high, n - 1), high)
  }

  /** Where the arithmetic wraps, the loop never ends: the guard holds and the index is in range at every step. */
  lemma {:induction false} WrappingNeverEnds(low: uint32, first: uint32, size: nat, n: nat)
    requires size > 0 && first + size - 1 <= 0xFFFF_FFFF && low <= first + size - 1 && !Fits(low, first + size - 1)
    ensures var l := Iterate(low, first + size - 1, n); l <= first + size - 1 && (l >= first ==> l - first < size)
  {
    if n > 0 {
      WrappingNeverEnds(low, first, size, n - 1);
      StaysAtZero(low, first + size - 1, n);
    }
  }

  lemma {:induction false} StaysAtZero(low: uint32, high: uint32, n: nat)
    requires low <= high && !Fits(low, high)
    ensures high == 0xFFFF_FFFF || Iterate(low, high, n) == 0
  {
    if n > 0 && high != 0xFFFF_FFFF {
      StaysAtZero(low, high, n - 1);
      ZeroIsFixed();
    }
  }

  lemma ZeroIsFixed()
    ensures NextLow(0, 0xFFFF_FFFE) == 0
  {
  }

  /** The samples: blocks of the list at increasing places. */
  ghost predicate IsSample(ids: seq<Hash>, places: seq<nat>, sample: seq<Hash>)
  {
    && |sample| == |places|
    && (forall i :: 0 <= i < |places| ==> places[i] < |ids| && sample[i] == ids[places[i]])
    && (forall i, j :: 0 <= i < j < |places| ==> places[i] < places[j])
  }

  lemma SampleGrows(ids: seq<Hash>, places: seq<nat>, sample: seq<Hash>, place: nat)
    requires IsSample(ids, places, sample) && place < |ids| && (places != [] ==> places[|places| - 1] < place)
    ensures IsSample(ids, places + [place], sample + [ids[place]])
  {
  }

  /** The sampled blocks have strictly increasing numbers. */
  lemma SampleIncreases(num: Hash -> uint32, ids: seq<Hash>, places: seq<nat>, sample: seq<Hash>, i: nat, j: nat)
    requires ids != [] && Consecutive(num, ids) && num(ids[0]) + |ids| - 1 <= 0xFFFF_FFFF
    requires IsSample(ids, places, sample) && i < j < |sample|
    ensures num(sample[i]) < num(sample[j])
  {
    ConsecutiveAt(num, ids, places[i]);
    ConsecutiveAt(num, ids, places[j]);
    assert places[i] < places[j];
  }

  /** The block number the delegate started its own synopsis from. */
  function LowBlock(num: Hash -> uint32, synopsis: seq<Hash>): uint32
  {
    if synopsis == [] then 1 else num(synopsis[0])
  }

  /** The list goes past the last 32-bit block number. */
  predicate Crosses(first: uint32, size: nat) { first + size - 1 > 0xFFFF_FFFF }

  /** The highest block number of the list, truncated to 32 bits. */
  function HighBlock(first: uint32, size: nat): uint32
    requires size > 0
  {
    (first + size - 1) % 0x1_0000_0000
  }

  lemma HighBlockIs(first: uint32, size: nat)
    requires 0 < size <= 0xFFFF_FFFF
    ensures HighBlock(first, size) ==
      if Crosses(first, size) then first + size - 1 - 0x1_0000_0000 else first + size - 1
    ensures Crosses(first, size) ==> HighBlock(first, size) + 2 <= first
  {
    if Crosses(first, size) {
      DivModUnique(first + size - 1, 0x1_0000_0000, 1, first + size - 1 - 0x1_0000_0000);
    } else {
      SmallMod(first + size - 1, 0x1_0000_0000);
    }
  }

  /** The synopsis for a peer, given the delegate's part of it. The loop ends after logarithmically many steps with the
      last block of the list, unless the delegate's part starts beyond the list: then, and only then, the index
      assertion fails. If the list goes past the last block number, the loop always ends, but with at most one sample,
      which is not the last block. */
  method Create(num: Hash -> uint32, ids: seq<Hash>, delegate: seq<Hash>)
    returns (r: Result<seq<Hash>>, ghost places: seq<nat>, ghost steps: nat)
    requires |ids| <= 0xFFFF_FFFF
    requires ids != [] && !Crosses(num(ids[0]), |ids|) ==> Fits(LowBlock(num, delegate), num(ids[0]) + |ids| - 1)
    ensures ids == [] ==> r == Ok(delegate)
    ensures ids != [] && Crosses(num(ids[0]), |ids|) ==>
      r == Ok(delegate + CrossingSample(num(ids[0]), ids, LowBlock(num, delegate)))
    ensures ids != [] && !Crosses(num(ids[0]), |ids|) ==>
      (r.Ok? <==> LowBlock(num, delegate) <= num(ids[0]) + |ids| - 1)
    ensures ids != [] && !Crosses(num(ids[0]), |ids|) && r.Ok? ==>
      && |r.value| == |delegate| + |places| && delegate <= r.value && IsSample(ids, places, r.value[|delegate|..])
      && places != [] && r.value[|r.value| - 1] == ids[|ids| - 1]
      && Pow2(steps) <= 2 * (num(ids[0]) + |ids| - LowBlock(num, delegate))
  {
    if ids == [] {
      return Ok(delegate), [], 0;
    }
    var sample;
    sample, places, steps := Sample(num(ids[0]), ids, LowBlock(num, delegate));
    if sample.IndexAssertion? {
      return IndexAssertion, places, steps;
    }
    r := Ok(delegate + sample.value);
    assert r.value[|delegate|..] == sample.value;
  }

  /** What is sampled of a list that goes past the last block number: the block the loop starts at, if it is in the
      list. */
  function CrossingSample(first: uint32, ids: seq<Hash>, start: uint32): seq<Hash>
    requires Crosses(first, |ids|)
  {
    if start >= first then [ids[start - first]] else []
  }

  /** The loop variable, the samples so far and the steps spent. */
  ghost predicate LoopInv(ids: seq<Hash>, first: int, high: int, start: int, low: int, places: seq<nat>,
                          sample: seq<Hash>, steps: nat)
  {
    && IsSample(ids, places, sample) && (places != [] ==> places[|places| - 1] + first < low)
    && start <= low && (low <= high || (low == start && steps == 0))
    && (low <= high ==> Within(steps, high - low + 1, high - start + 1))
  }

  /** The same where the list goes past the last block number: after the first step the loop stays below the list. */
  ghost predicate CrossInv(ids: seq<Hash>, first: uint32, high: int, start: uint32, low: int, sample: seq<Hash>,
                           steps: nat)
  {
    && Crosses(first, |ids|) && high + 2 <= first
    && if steps == 0 then low == start && sample == [] else low <= high && sample == CrossingSample(first, ids, start)
  }

  /** One block more is sampled if the loop variable has reached the list. */
  ghost predicate Samples(ids: seq<Hash>, first: int, low: int, places: seq<nat>, sample: seq<Hash>, places': seq<nat>,
                          sample': seq<Hash>)
  {
    if low < first then places' == places && sample' == sample
    else low - first < |ids| && places' == places + [low - first] && sample' == sample + [ids[low - first]]
  }

  /** The list was sampled up to its end, in logarithmically many steps. */
  ghost predicate SampledAll(ids: seq<Hash>, first: int, start: int, places: seq<nat>, sample: seq<Hash>, steps: nat)
  {
    && IsSample(ids, places, sample) && places != [] && places[|places| - 1] == |ids| - 1
    && Pow2(steps) <= 2 * (first + |ids| - start)
  }

  lemma BodyWithin(ids: seq<Hash>, first: uint32, high: uint32, start: uint32, low: uint32, places: seq<nat>,
                   sample: seq<Hash>, steps: nat, places': seq<nat>, sample': seq<Hash>)
    requires ids != [] && high == first + |ids| - 1 && Fits(start, high) && low <= high
    requires LoopInv(ids, first, high, start, low, places, sample, steps)
    requires Samples(ids, first, low, places, sample, places', sample')
    ensures low < NextLow(low, high)
    ensures var next := NextLow(low, high);
      if next <= high then LoopInv(ids, first, high, start, next, places', sample', steps + 1)
      else SampledAll(ids, first, start, places', sample', steps + 1)
  {
    if low >= first {
      SampleGrows(ids, places, sample, low - first);
    }
    WithinStep(steps, low, high, high - start + 1);
    NextLowHalves(low, high);
  }

  lemma BodyCrossing(ids: seq<Hash>, first: uint32, high: uint32, start: uint32, low: uint32, places: seq<nat>,
                     sample: seq<Hash>, steps: nat, places': seq<nat>, sample': seq<Hash>)
    requires CrossInv(ids, first, high, start, low, sample, steps)
    requires Samples(ids, first, low, places, sample, places', sample')
    ensures low <= high ==> low < NextLow(low, high)
    ensures sample' == CrossingSample(first, ids, start)
  {
    if low <= high {
      NextLowHalves(low, high);
    }
  }

  method Sample(first: uint32, ids: seq<Hash>, start: uint32)
    returns (r: Result<seq<Hash>>, ghost places: seq<nat>, ghost steps: nat)
    requires 0 < |ids| <= 0xFFFF_FFFF && (Crosses(first, |ids|) || Fits(start, first + |ids| - 1))
    ensures Crosses(first, |ids|) ==> r == Ok(CrossingSample(first, ids, start))
    ensures !Crosses(first, |ids|) ==> (r.Ok? <==> start <= first + |ids| - 1)
    ensures !Crosses(first, |ids|) && r.Ok? ==> SampledAll(ids, first, start, places, r.value, steps)
  {
    HighBlockIs(first, |ids|);
    var high := HighBlock(first, |ids|);
    var low, sample := start, [];
    places, steps := [], 0;
    while true
      invariant 0 <= low <= 0xFFFF_FFFF
      invariant Crosses(first, |ids|) ==> CrossInv(ids, first, high, start, low, sample, steps)
      invariant !Crosses(first, |ids|) ==> LoopInv(ids, first, high, start, low, places, sample, steps)
      decreases if low <= high then high - low else 0x1_0000_0000
    {
      ghost var places0, sample0 := places, sample;
      if low >= first {
        var idx := low - first;
        if idx >= |ids| {
          return IndexAssertion, places, steps;
        }
        places, sample := places + [idx], sample + [ids[idx]];
      }
      if Crosses(first, |ids|) {
        BodyCrossing(ids, first, high, start, low, places0, sample0, steps, places, sample);
      } else {
        BodyWithin(ids, first, high, start, low, places0, sample0, steps, places, sample);
      }
      steps := steps + 1;
      var next := NextLow(low, high);
      if next > high {
        break;
      }
      low := next;
    }
    r := Ok(sample);
  }

  /** Doubling the distance left with every step made stays within the distance at the start. */
  ghost predicate Within(steps: nat, left: int, total: int) { Pow2(steps) * left <= total }

  lemma WithinStep(steps: nat, low: uint32, high: uint32, total: int)
    requires low <= high && Fits(low, high) && Within(steps, high - low + 1, total)
    ensures NextLow(low, high) <= high ==> Within(steps + 1, high - NextLow(low, high) + 1, total)
    ensures Pow2(steps + 1) <= 2 * total
  {
    NextLowHalves(low, high);
    var left := high - NextLow(low, high) + 1;
    StepCost(Pow2(steps), high - low + 1, left, total);
  }

  lemma StepCost(factor: int, left: int, left': int, total: int)
    requires factor > 0 && left >= 1 && factor * left <= total && 2 * left' <= left
    ensures (2 * factor) * left' <= total && factor <= total
  {
    MulMonotone(2 * left', left, factor);
    MulMonotone(1, left, factor);
    assert (2 * factor) * left' == (2 * left') * factor;
  }
}
