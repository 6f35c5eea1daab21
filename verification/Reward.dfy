/** Reward curves and payouts: the bit-trick square root, the four curves, and a comment's share of the fund. */
module Reward {
  import opened Collections
  import opened Words

  datatype Curve = Quadratic | QuadraticCuration | Linear | SquareRoot

  // ---------- approximate square root ----------

  /** Index of the most significant set bit. */
  function Msb(x: nat): nat
    requires x > 0
  {
    if x == 1 then 0 else 1 + Msb(x / 2)
  }

  function Hi(u: uint128): uint64 { u / 0x1_0000_0000_0000_0000 }

  function Lo(u: uint128): uint64 { u % 0x1_0000_0000_0000_0000 }

  /** find_msb: look at the high word if it is not zero, else at the low one; zero is treated as one. */
  function FindMsb(u: uint128): nat
  {
    var x := if Lo(u) != 0 then Lo(u) else 1;
    var places := if Hi(u) != 0 then 64 else 0;
    var x' := if Hi(u) != 0 then Hi(u) else x;
    Msb(x') + places
  }

  /** approx_sqrt: halve the exponent and shift the mantissa, as bit operations. */
  function ApproxSqrt(x: uint128): nat
  {
    if Lo(x) == 0 && Hi(x) == 0 then 0
    else
      var msbX := FindMsb(x);
      var msbZ := Shr(msbX, 1);
      ShlIsMul(1, msbX);
      var msbXBit := Shl(1, msbX);
      var msbZBit := Shl(1, msbZ);
      var mantissaMask := msbXBit - 1;
      var mantissaX := And(x, mantissaMask);
      var mantissaZHi := if And(msbX, 1) != 0 then msbZBit else 0;
      var mantissaZLo := Wrap64(Shr(mantissaX, msbX - msbZ));
      var mantissaZ := Shr(Or(mantissaZHi, mantissaZLo), 1);
      Or(msbZBit, mantissaZ)
  }

  lemma {:induction false} MsbBounds(x: nat)
    requires x > 0
    ensures Pow2(Msb(x)) <= x < 2 * Pow2(Msb(x))
  {
    if x != 1 {
      MsbBounds(x / 2);
    }
  }

  lemma {:induction false} MsbUnique(x: nat, e: nat)
    requires Pow2(e) <= x < 2 * Pow2(e)
    ensures x > 0 && Msb(x) == e
    decreases e
  {
    if e > 0 {
      MsbUnique(x / 2, e - 1);
    }
  }

  lemma {:induction false} FindMsbIsMsb(u: uint128)
    requires u > 0
    ensures FindMsb(u) == Msb(u) < 128
  {
    if Hi(u) != 0 {
      MsbBounds(Hi(u));
      Pow2Above(Msb(Hi(u)));
      MsbUnique(u, Msb(Hi(u)) + 64);
    }
    Pow2Words();
    MsbBounds(u);
    if Msb(u) >= 128 { Pow2Monotone(128, Msb(u)); }
  }

  /** The result as arithmetic. With p = 2^(e/2) and q = m / 2p for the mantissa m, it is p + q for an even
      exponent and p + (p + q) / 2 for an odd one. */
  ghost predicate IsApproxRoot(x: nat, p: nat, q: nat, r: nat)
  {
    p > 0 &&
    if x < 2 * (p * p) then
      r == p + q && p * p + 2 * (p * q) <= x < p * p + 2 * (p * q) + 2 * p && 2 * q < p
    else
      r == p + (p + q) / 2 && 2 * (p * p) + 2 * (p * q) <= x < 2 * (p * p) + 2 * (p * q) + 2 * p && q < p
  }

  /** The shifted mantissa fits in the low word it is cut to. */
  lemma {:induction false} MantissaFits(m: nat, e: nat, z: nat)
    requires m < Pow2(e) && z <= e && z < 64
    ensures Wrap64(Shr(m, e - z)) == Shr(m, e - z)
  {
    ShrIsDiv(m, e - z);
    Pow2Add(z, e - z);
    QuotientBelow(m, Pow2(z), Pow2(e - z));
    Pow2Monotone(z, 64);
    Pow2Words();
    Wrap64Small(Shr(m, e - z));
  }

  lemma QuotientBelow(m: nat, q: int, d: int)
    requires d > 0 && m < q * d
    ensures m / d < q
  {
    QuotientBounds(m, d);
    if m / d >= q {
      MulMonotone(q, m / d, d);
    }
  }

  /** The bit operations, with the powers of two named. */
  lemma {:induction false} ApproxSqrtBits(x: uint128, e: nat, z: nat, m: nat)
    requires x > 0 && e == Msb(x) && z == e / 2 && m == x - Pow2(e)
    ensures ApproxSqrt(x) == Or(Pow2(z), Or(if e % 2 == 1 then Pow2(z) else 0, Shr(m, e - z)) / 2)
  {
    FindMsbIsMsb(x);
    ShlIsMul(1, e);
    ShlIsMul(1, z);
    MantissaIs(x, e, m);
    MantissaFits(m, e, z);
    LowestBit(e);
    ShiftHalves();
  }

  lemma {:induction false} MantissaIs(x: uint128, e: nat, m: nat)
    requires x > 0 && e == Msb(x) && m == x - Pow2(e)
    ensures And(x, Pow2(e) - 1) == m < Pow2(e)
  {
    MsbBounds(x);
    AndLowMask(x, e);
    DivModUnique(x, Pow2(e), 1, m);
  }

  lemma {:induction false} LowestBit(e: nat)
    ensures And(e, 1) == e % 2
  {
    AndLowMask(e, 1);
    assert Pow2(1) == 2;
  }

  lemma {:induction false} ShiftHalves()
    ensures forall a: nat :: Shr(a, 1) == a / 2
  {
  }

  lemma {:induction false} ApproxSqrtForm(x: uint128) returns (p: nat, q: nat)
    requires x > 0
    ensures p == Pow2(Msb(x) / 2) && IsApproxRoot(x, p, q, ApproxSqrt(x))
    ensures p * p <= x < 4 * (p * p)
  {
    var e, z := Msb(x), Msb(x) / 2;
    MsbBounds(x);
    p := Pow2(z);
    var m := x - Pow2(e);
    ApproxSqrtBits(x, e, z, m);
    Pow2Add(z, z);
    if e % 2 == 0 {
      q := EvenForm(x, m, p, z, Shr(m, e - z));
    } else {
      assert Pow2(e) == 2 * Pow2(z + z);
      q := OddForm(x, m, p, z, Shr(m, e - z));
    }
  }

  lemma {:induction false} EvenForm(x: nat, m: nat, p: nat, z: nat, lo: nat) returns (q: nat)
    requires p == Pow2(z) && x == p * p + m && m < p * p && lo == Shr(m, z)
    ensures IsApproxRoot(x, p, q, Or(p, Or(0, lo) / 2))
  {
    ShrIsDiv(m, z);
    q := EvenQuotient(m, p);
    AddHalf(p, q, z);
  }

  lemma {:induction false} OddForm(x: nat, m: nat, p: nat, z: nat, lo: nat) returns (q: nat)
    requires p == Pow2(z) && x == 2 * (p * p) + m && m < 2 * (p * p) && lo == Shr(m, z + 1)
    ensures IsApproxRoot(x, p, q, Or(p, Or(p, lo) / 2))
  {
    ShrIsDiv(m, z + 1);
    q := OddQuotient(m, p, Pow2(z + 1));
    AddHalf(p, q, z);
    AddHalf(p, (p + q) / 2, z);
  }

  lemma AddHalf(p: nat, b: nat, z: nat)
    requires p == Pow2(z) && b < p
    ensures Or(p, b) == p + b
  {
  }

  lemma EvenQuotient(m: nat, p: nat) returns (q: nat)
    requires p > 0 && m < p * p
    ensures q == m / p / 2 && 2 * (p * q) <= m < 2 * (p * q) + 2 * p && 2 * q < p
  {
    var a := m / p;
    q := a / 2;
    QuotientBounds(m, p);
    MulDistributes(a, 1, p);
    TwiceProduct(p, q);
    MulMonotone(2 * q, a, p);
    MulMonotone(a + 1, 2 * q + 2, p);
    if 2 * q >= p { MulMonotone(p, 2 * q, p); }
  }

  lemma TwiceProduct(p: int, q: int)
    ensures (2 * q) * p == 2 * (p * q) && (2 * q + 2) * p == 2 * (p * q) + 2 * p
  {
  }

  lemma OddQuotient(m: nat, p: nat, d: nat) returns (q: nat)
    requires p > 0 && m < 2 * (p * p) && d == 2 * p
    ensures q == m / d && 2 * (p * q) <= m < 2 * (p * q) + 2 * p && q < p
  {
    QuotientBounds(m, d);
    q := m / d;
    assert q * d == 2 * (q * p);
    OddQuotientBound(m, p, q);
  }

  lemma OddQuotientBound(m: nat, p: nat, q: nat)
    requires m < 2 * (p * p) && 2 * (q * p) <= m
    ensures q < p && q * p == p * q
  {
  }

  lemma QuotientBounds(m: nat, d: int)
    requires d > 0
    ensures 0 <= m / d && m / d * d <= m < m / d * d + d
  {
  }

  /** The root is never below the integer square root, and its square is at most 9/8 of x. */
  lemma ApproxRootError(x: nat, p: nat, q: nat, r: nat)
    requires IsApproxRoot(x, p, q, r)
    ensures x < (r + 1) * (r + 1) && 8 * (r * r) <= 9 * x && p <= r < 2 * p
  {
    if x < 2 * (p * p) {
      EvenError(x, p, q);
    } else {
      OddError(x, p, q, r);
    }
  }

  lemma Binomial(a: int, b: int)
    ensures (a + b) * (a + b) == a * a + 2 * (a * b) + b * b
  {
  }

  lemma EvenError(x: nat, p: nat, q: nat)
    requires p * p + 2 * (p * q) <= x < p * p + 2 * (p * q) + 2 * p && 2 * q < p
    ensures x < (p + q + 1) * (p + q + 1) && 8 * ((p + q) * (p + q)) <= 9 * x
  {
    Binomial(p, q);
    Binomial(p + q, 1);
    MulMonotone(2 * q, p, q);
    MulMonotone(2 * q, p, p);
  }

  lemma OddError(x: nat, p: nat, q: nat, r: nat)
    requires 2 * (p * p) + 2 * (p * q) <= x < 2 * (p * p) + 2 * (p * q) + 2 * p && q < p
    requires r == p + (p + q) / 2
    ensures x < (r + 1) * (r + 1) && 8 * (r * r) <= 9 * x
  {
    OddUpper(x, p, q, r);
    OddLower(x, p, q, r);
  }

  lemma OddUpper(x: nat, p: nat, q: nat, r: nat)
    requires 2 * (p * p) + 2 * (p * q) <= x && q < p && 2 * r <= 3 * p + q
    ensures 8 * (r * r) <= 9 * x
  {
    Square(2 * r, 3 * p + q);
    OddSquare(p, q, 3 * p + q);
    MulMonotone(q, p, q);
  }

  /** (3p + s)^2 - 8p(p + s) = (p - s)^2 with s = q + 1. */
  lemma OddLower(x: nat, p: nat, q: nat, r: nat)
    requires x < 2 * (p * p) + 2 * (p * q) + 2 * p && 3 * p + q + 1 <= 2 * (r + 1)
    ensures x < (r + 1) * (r + 1)
  {
    var s := q + 1;
    HalfSquare(3 * p + s, r + 1);
    OddSquare(p, s, 3 * p + s);
    MulDistributes(q, 1, p);
    SquareOfDifference(p, s);
    BelowSquare(x, p, p * p, p * q, p * s, s * s, (3 * p + s) * (3 * p + s), (r + 1) * (r + 1));
  }

  lemma BelowSquare(x: int, p: int, pp: int, pq: int, ps: int, ss: int, tt: int, rr: int)
    requires x < 2 * pp + 2 * pq + 2 * p && ps == pq + p && pp - 2 * ps + ss >= 0
    requires tt == 9 * pp + 6 * ps + ss && tt <= 4 * rr
    ensures x < rr
  {
  }

  lemma HalfSquare(t: int, a: int)
    requires 0 <= t <= 2 * a
    ensures t * t <= 4 * (a * a)
  {
    Square(t, 2 * a);
    QuadrupleSquare(a);
  }

  lemma SquareOfDifference(a: int, b: int)
    ensures a * a - 2 * (a * b) + b * b >= 0
  {
    SquareNonNegative(a - b);
    assert (a - b) * (a - b) == a * a - 2 * (a * b) + b * b;
  }

  lemma QuadrupleSquare(a: int)
    ensures (2 * a) * (2 * a) == 4 * (a * a)
  {
  }

  lemma OddSquare(p: int, q: int, t: int)
    requires t == 3 * p + q
    ensures t * t == 9 * (p * p) + 6 * (p * q) + q * q
  {
  }

  lemma SquareNonNegative(a: int)
    ensures a * a >= 0
  {
  }

  lemma Square(a: int, b: int)
    requires 0 <= a <= b
    ensures a * a <= b * b
  {
  }

  /** For every 128-bit x: the result fits in 64 bits, is at least the integer square root, and its square is at
      most 9/8 of x. */
  lemma {:induction false} ApproxSqrtError(x: uint128)
    ensures var r := ApproxSqrt(x);
      r < 0x1_0000_0000_0000_0000 && x < (r + 1) * (r + 1) && 8 * (r * r) <= 9 * x
  {
    if x > 0 {
      var p, q := ApproxSqrtForm(x);
      ApproxRootError(x, p, q, ApproxSqrt(x));
      assert 2 * p <= 0x1_0000_0000_0000_0000 by {
        FindMsbIsMsb(x);
        Pow2Monotone(Msb(x) / 2, 63);
        Pow2Words();
        assert Pow2(64) == 2 * Pow2(63);
      }
    }
  }

  /** The approximation is monotone, also across a change of exponent. */
  lemma {:induction false} ApproxSqrtMonotone(x: uint128, y: uint128)
    requires x <= y
    ensures ApproxSqrt(x) <= ApproxSqrt(y)
  {
    if x > 0 {
      var p, q := ApproxSqrtForm(x);
      var p', q' := ApproxSqrtForm(y);
      ScalesOrdered(x, y);
      RootsOrdered(x, y, p, q, p', q', ApproxSqrt(x), ApproxSqrt(y));
    }
  }

  lemma {:induction false} ScalesOrdered(x: nat, y: nat)
    requires 0 < x <= y
    ensures var p, p' := Pow2(Msb(x) / 2), Pow2(Msb(y) / 2); p == p' || 2 * p <= p'
  {
    MsbMonotone(x, y);
    if Msb(x) / 2 != Msb(y) / 2 {
      Pow2Monotone(Msb(x) / 2 + 1, Msb(y) / 2);
    }
  }

  lemma RootsOrdered(x: nat, y: nat, p: nat, q: nat, p': nat, q': nat, r: nat, r': nat)
    requires x <= y && (p == p' || 2 * p <= p')
    ensures IsApproxRoot(x, p, q, r) && IsApproxRoot(y, p', q', r') ==> r <= r'
  {
    if IsApproxRoot(x, p, q, r) && IsApproxRoot(y, p', q', r') {
      ApproxRootError(x, p, q, r);
      ApproxRootError(y, p', q', r');
      if p == p' {
        SameScale(x, y, p, q, q');
      }
    }
  }

  lemma SameScale(x: nat, y: nat, p: nat, q: nat, q': nat)
    requires p > 0 && x <= y
    requires if x < 2 * (p * p) then p * p + 2 * (p * q) <= x && 2 * q < p else 2 * (p * p) + 2 * (p * q) <= x
    requires if y < 2 * (p * p) then y < p * p + 2 * (p * q') + 2 * p else y < 2 * (p * p) + 2 * (p * q') + 2 * p
    ensures x < 2 * (p * p) && y < 2 * (p * p) ==> q <= q'
    ensures x >= 2 * (p * p) ==> q <= q'
    ensures x < 2 * (p * p) <= y ==> q <= (p + q') / 2
  {
    if q > q' {
      MulMonotone(q' + 1, q, p);
    }
  }

  lemma {:induction false} MsbMonotone(x: nat, y: nat)
    requires 0 < x <= y
    ensures Msb(x) <= Msb(y)
  {
    if x != 1 {
      MsbMonotone(x / 2, y / 2);
    }
  }

  // ---------- reward curves ----------

  /** evaluate_reward_curve; only the curation curve can fail, by dividing by a divisor that wrapped to zero. */
  function EvaluateRewardCurve(rshares: uint128, curve: Curve, contentConstant: uint128): Option<uint128>
  {
    match curve
    case Quadratic =>
      var plus: int := Wrap128(rshares + contentConstant);
      var square: int := Wrap128(plus * plus);
      Some(Wrap128(square - Wrap128(contentConstant * contentConstant)))
    case QuadraticCuration =>
      var divisor := Wrap128(Wrap128(contentConstant * 2) + rshares);
      if divisor == 0 then None else
        CurationFits(Lo(rshares), divisor);
        Some(Join(Lo(rshares), 0) / divisor)
    case Linear => Some(rshares)
    case SquareRoot =>
      ApproxSqrtError(rshares);
      Some(ApproxSqrt(rshares))
  }

  lemma CurationFits(l: uint64, divisor: int)
    requires divisor > 0
    ensures 0 <= Join(l, 0) / divisor <= Join(l, 0)
  {
    QuotientBounds(Join(l, 0), divisor);
    MulMonotone(1, divisor, Join(l, 0) / divisor);
  }

  /** The quadratic curve is r^2 + 2rs modulo 2^128, although the squares may wrap on the way. */
  lemma QuadraticCurve(r: uint128, s: uint128)
    ensures EvaluateRewardCurve(r, Quadratic, s) == Some(Wrap128(r * r + 2 * (r * s)))
  {
    var t: int := r + s;
    var w: int := Wrap128(t);
    var ss: int := s * s;
    assert Wrap128(w * w) == Wrap128(t * t) by {
      Wrap128Mul(t, w);
      assert w * t == t * w;
      Wrap128Mul(t, t);
      assert w * t == t * w;
    }
    var c: int := Wrap128(ss);
    Wrap128Add(t * t, -c);
    Wrap128Sub(t * t, ss);
    Binomial(r, s);
  }

  /** What each curve is for: the quadratic curve is x^2 + 2xs modulo 2^128; the curation curve divides the low word of
      x, scaled by 2^64, by x + 2s, and fails where that wraps to zero; the linear curve is x; the square
      root is at most an eighth too large in its square, and less than one too small. */
  ghost predicate IsCurveValue(curve: Curve, x: uint128, s: uint128, value: Option<uint128>)
  {
    match curve
    case Quadratic => value == Some(Wrap128(x * x + 2 * (x * s)))
    case QuadraticCuration =>
      var d := Wrap128(2 * s + x);
      && (value.None? <==> d == 0)
      && (value.Some? ==>
            value.value * d <= x % 0x1_0000_0000_0000_0000 * 0x1_0000_0000_0000_0000 < (value.value + 1) * d)
    case Linear => value == Some(x)
    case SquareRoot =>
      && value.Some? && value.value < 0x1_0000_0000_0000_0000
      && x < (value.value + 1) * (value.value + 1) && 8 * (value.value * value.value) <= 9 * x
  }

  lemma CurveIsRight(x: uint128, curve: Curve, s: uint128)
    ensures IsCurveValue(curve, x, s, EvaluateRewardCurve(x, curve, s))
  {
    match curve
    case Quadratic => QuadraticCurve(x, s);
    case QuadraticCuration => CurationCurve(x, s);
    case Linear =>
    case SquareRoot => ApproxSqrtError(x);
  }

  lemma CurationCurve(x: uint128, s: uint128)
    ensures IsCurveValue(QuadraticCuration, x, s, EvaluateRewardCurve(x, QuadraticCuration, s))
  {
    Wrap128Add(2 * s, x);
    var d := Wrap128(2 * s + x);
    if d != 0 {
      var q := Join(Lo(x), 0) / d;
      QuotientBounds(Join(Lo(x), 0), d);
      MulDistributes(q, 1, d);
    }
  }

  lemma Wrap128Sub(x: int, y: int)
    ensures Wrap128(x - Wrap128(y)) == Wrap128(x - y)
  {
  }

  /** Hence exact whenever the true value fits, even if the intermediate square does not. */
  lemma QuadraticCurveExact(r: uint128, s: uint128)
    requires r * r + 2 * (r * s) < 0x1_0000_0000_0000_0000_0000_0000_0000_0000
    ensures EvaluateRewardCurve(r, Quadratic, s) == Some(r * r + 2 * (r * s))
  {
    QuadraticCurve(r, s);
    SquareNonNegative(r);
    MulMonotone(0, r, s);
    Wrap128Small(r * r + 2 * (r * s));
  }

  // ---------- payouts ----------

  type int64 = x: int | -0x8000_0000_0000_0000 <= x < 0x8000_0000_0000_0000

  /** What a payout depends on. The price feed is absent, or decides which payouts are dust and what the cap
      converts to. */
  datatype Feed = NoFeed | HasFeed(isDust: uint64 -> bool, maxPayout: int64)

  type uint16 = x: int | 0 <= x < 0x1_0000

  /** A fund is a non-negative signed 64-bit amount. */
  type Fund = x: int | 0 <= x < 0x8000_0000_0000_0000

  datatype RewardContext = RewardContext(rshares: int64, rewardWeight: uint16, totalRewardShares2: uint128,
                                         totalRewardFund: Fund, feed: Feed, curve: Curve, contentConstant: uint128)

  /** a * b / c, the form of both 256-bit divisions. */
  function Scale(a: nat, b: nat, c: nat): (r: nat)
    requires c > 0
  {
    MulMonotone(0, a, b);
    QuotientBounds(a * b, c);
    a * b / c
  }

  /** get_rshare_reward; None where one of its assertions fails. The 256-bit intermediates do not wrap. */
  function GetRshareReward(ctx: RewardContext): (payout: Option<uint64>)
  {
    if ctx.rshares <= 0 || ctx.totalRewardShares2 == 0 then None
    else
      match EvaluateRewardCurve(ctx.rshares, ctx.curve, ctx.contentConstant)
      case None => None
      case Some(value) =>
        var claim := Scale(value, ctx.rewardWeight, 10000);
        var payout := Scale(ctx.totalRewardFund, claim, ctx.totalRewardShares2);
        if payout >= 0x8000_0000_0000_0000 then None else Some(AfterFeed(payout, ctx.feed))
  }

  /** Dust is zeroed, then the payout is capped; the cap is read as unsigned. */
  function AfterFeed(payout: uint64, feed: Feed): (r: uint64)
    ensures r <= payout
    ensures feed.NoFeed? ==> r == payout
    ensures feed.HasFeed? ==> r <= Wrap64(feed.maxPayout) && (feed.isDust(payout) ==> r == 0)
    ensures feed.HasFeed? && !feed.isDust(payout) && r < payout ==> r == Wrap64(feed.maxPayout)
  {
    match feed
    case NoFeed => payout
    case HasFeed(isDust, maxPayout) =>
      var kept := if isDust(payout) then 0 else payout;
      var cap := Wrap64(maxPayout);
      if kept <= cap then kept else cap
  }

  ghost function CurveValue(ctx: RewardContext): nat
  {
    if ctx.rshares <= 0 then 0
    else match EvaluateRewardCurve(ctx.rshares, ctx.curve, ctx.contentConstant) case None => 0 case Some(v) => v
  }

  ghost function SumOfCurves(ctxs: seq<RewardContext>): nat
  {
    if ctxs == [] then 0 else SumOfCurves(ctxs[..|ctxs| - 1]) + CurveValue(ctxs[|ctxs| - 1])
  }

  ghost function Payout(ctx: RewardContext): nat
  {
    match GetRshareReward(ctx) case None => 0 case Some(p) => p
  }

  ghost function SumOfPayouts(ctxs: seq<RewardContext>): nat
  {
    if ctxs == [] then 0 else SumOfPayouts(ctxs[..|ctxs| - 1]) + Payout(ctxs[|ctxs| - 1])
  }

  lemma ShareBound(value: nat, weight: nat, fund: nat, total: nat, payout: nat)
    requires weight <= 10000 && total > 0 && payout <= Scale(fund, Scale(value, weight, 10000), total)
    ensures payout * total <= fund * value
  {
    var claim := Scale(value, weight, 10000);
    assert claim <= value by { MulMonotone(weight, 10000, value); assert value * weight == weight * value; }
    var share := Scale(fund, claim, total);
    assert share * total <= fund * claim by { QuotientBounds(fund * claim, total); }
    assert fund * claim <= fund * value by { MulMonotone(claim, value, fund); }
    MulMonotone(payout, share, total);
  }

  /** One payout is at most its curve value's share of the fund. */
  lemma PayoutWithinShare(ctx: RewardContext)
    requires ctx.rewardWeight <= 10000
    ensures Payout(ctx) * ctx.totalRewardShares2 <= ctx.totalRewardFund * CurveValue(ctx)
  {
    MulMonotone(0, CurveValue(ctx), ctx.totalRewardFund);
    if GetRshareReward(ctx).Some? {
      ShareBound(CurveValue(ctx), ctx.rewardWeight, ctx.totalRewardFund, ctx.totalRewardShares2, Payout(ctx));
    }
  }

  lemma ScaleBounds(a: nat, b: nat, c: nat)
    requires c > 0
    ensures Scale(a, b, c) * c <= a * b < (Scale(a, b, c) + 1) * c
  {
    MulMonotone(0, a, b);
    QuotientBounds(a * b, c);
    MulDistributes(Scale(a, b, c), 1, c);
  }

  /** Two roundings down: first to a whole claim, then to a whole payout. */
  lemma TwoFloors(vw: int, claim: int, fund: int, total: int, p: int)
    requires fund >= 0 && claim * 10000 <= vw < (claim + 1) * 10000 && p * total <= fund * claim < (p + 1) * total
    ensures 10000 * (p * total) <= fund * vw < 10000 * ((p + 1) * total + fund)
  {
    MulMonotone(claim * 10000, vw, fund);
    MulMonotone(vw, (claim + 1) * 10000, fund);
    assert (claim * 10000) * fund == 10000 * (fund * claim);
    assert ((claim + 1) * 10000) * fund == 10000 * (fund * claim + fund);
    assert fund * vw == vw * fund;
  }

  /** The context asks for nothing that can be evaluated: no reward shares, no claims on the fund, or a curation divisor
      that wraps to zero. */
  ghost predicate NothingToEvaluate(ctx: RewardContext)
  {
    || ctx.rshares <= 0 || ctx.totalRewardShares2 == 0
    || (ctx.curve == QuadraticCuration && Wrap128(2 * ctx.contentConstant + ctx.rshares) == 0)
  }

  /** The curve value, weighted by the reward weight in hundredths of a percent and rounded down, is the claim; the
      payout without a price feed is the claim's share of the fund, rounded down. The assertions fail exactly if there
      is nothing to evaluate or the share exceeds a signed 64-bit number. */
  lemma RewardIsShare(ctx: RewardContext) returns (value: uint128, claim: nat)
    ensures NothingToEvaluate(ctx) ==> GetRshareReward(ctx).None?
    ensures !NothingToEvaluate(ctx) ==>
      && IsCurveValue(ctx.curve, ctx.rshares, ctx.contentConstant, Some(value)) && value == CurveValue(ctx)
      && claim * 10000 <= value * ctx.rewardWeight < (claim + 1) * 10000
      && (GetRshareReward(ctx).None? <==>
            ctx.totalRewardFund * claim >= 0x8000_0000_0000_0000 * ctx.totalRewardShares2)
      && (ctx.feed == NoFeed && GetRshareReward(ctx).Some? ==>
            var p, total := Payout(ctx), ctx.totalRewardShares2;
            p * total <= ctx.totalRewardFund * claim < (p + 1) * total)
  {
    value, claim := 0, 0;
    if ctx.rshares > 0 {
      CurveIsRight(ctx.rshares, ctx.curve, ctx.contentConstant);
    }
    if !NothingToEvaluate(ctx) {
      var fund, total := ctx.totalRewardFund, ctx.totalRewardShares2;
      value := CurveValue(ctx);
      claim := Scale(value, ctx.rewardWeight, 10000);
      ScaleBounds(value, ctx.rewardWeight, 10000);
      ScaleBounds(fund, claim, total);
      ShareTooLarge(fund * claim, total, Scale(fund, claim, total));
    }
  }

  lemma ShareTooLarge(x: int, total: int, share: nat)
    requires total > 0 && share * total <= x < (share + 1) * total
    ensures share >= 0x8000_0000_0000_0000 <==> x >= 0x8000_0000_0000_0000 * total
  {
    if share >= 0x8000_0000_0000_0000 {
      MulMonotone(0x8000_0000_0000_0000, share, total);
    } else {
      MulMonotone(share + 1, 0x8000_0000_0000_0000, total);
    }
  }

  /** A price feed changes no failure; a payout that is dust becomes 0, any other is cut to the cap, read as
      unsigned. */
  lemma FeedOnlyLowers(ctx: RewardContext)
    requires ctx.feed.HasFeed?
    ensures var plain, r := GetRshareReward(ctx.(feed := NoFeed)), GetRshareReward(ctx);
      && (r.None? <==> plain.None?)
      && (plain.Some? ==>
            var max := ctx.feed.maxPayout;
            var cap := if max < 0 then max + 0x1_0000_0000_0000_0000 else max;
            && (ctx.feed.isDust(plain.value) ==> r.value == 0)
            && (!ctx.feed.isDust(plain.value) && plain.value <= cap ==> r.value == plain.value)
            && (!ctx.feed.isDust(plain.value) && plain.value > cap ==> r.value == cap))
  {
    if ctx.feed.maxPayout < 0 {
      DivModUnique(ctx.feed.maxPayout, 0x1_0000_0000_0000_0000, -1, ctx.feed.maxPayout + 0x1_0000_0000_0000_0000);
    } else {
      Wrap64Small(ctx.feed.maxPayout);
    }
  }

  /** Without a price feed a payout is the exact share of the fund, less than one unit and one unit of claim short. */
  lemma PayoutIsTight(ctx: RewardContext) returns (value: uint128)
    requires ctx.feed == NoFeed && GetRshareReward(ctx).Some?
    ensures IsCurveValue(ctx.curve, ctx.rshares, ctx.contentConstant, Some(value))
    ensures var p, total, fund := Payout(ctx), ctx.totalRewardShares2, ctx.totalRewardFund;
      10000 * (p * total) <= fund * (value * ctx.rewardWeight) < 10000 * ((p + 1) * total + fund)
  {
    var claim;
    value, claim := RewardIsShare(ctx);
    TwoFloors(value * ctx.rewardWeight, claim, ctx.totalRewardFund, ctx.totalRewardShares2, Payout(ctx));
  }

  lemma {:induction false} PayoutsWithinShares(ctxs: seq<RewardContext>, fund: Fund, total: uint128)
    requires forall i :: 0 <= i < |ctxs| ==>
      ctxs[i].rewardWeight <= 10000 && ctxs[i].totalRewardFund == fund && ctxs[i].totalRewardShares2 == total
    ensures SumOfPayouts(ctxs) * total <= fund * SumOfCurves(ctxs)
  {
    if ctxs != [] {
      var rest, last := ctxs[..|ctxs| - 1], ctxs[|ctxs| - 1];
      PayoutsWithinShares(rest, fund, total);
      PayoutWithinShare(last);
      MulDistributes(SumOfPayouts(rest), Payout(last), total);
      assert fund * (SumOfCurves(rest) + CurveValue(last)) == fund * SumOfCurves(rest) + fund * CurveValue(last);
    }
  }

  /** Conservation: whatever the curves, weights up to 100%, dust rules and caps, comments whose curve values sum
      to at most the recorded total are together paid at most the fund. */
  lemma PayoutsConserved(ctxs: seq<RewardContext>, fund: Fund, total: uint128)
    requires forall i :: 0 <= i < |ctxs| ==>
      ctxs[i].rewardWeight <= 10000 && ctxs[i].totalRewardFund == fund && ctxs[i].totalRewardShares2 == total
    requires SumOfCurves(ctxs) <= total
    ensures SumOfPayouts(ctxs) <= fund
  {
    if total == 0 {
      NothingToClaim(ctxs);
    } else {
      PayoutsWithinShares(ctxs, fund, total);
      CancelTotal(SumOfPayouts(ctxs), SumOfCurves(ctxs), fund, total);
    }
  }

  lemma CancelTotal(paid: nat, curves: nat, fund: nat, total: nat)
    requires total > 0 && curves <= total && paid * total <= fund * curves
    ensures paid <= fund
  {
  }

  lemma {:induction false} NothingToClaim(ctxs: seq<RewardContext>)
    requires forall i :: 0 <= i < |ctxs| ==> ctxs[i].totalRewardShares2 == 0
    ensures SumOfPayouts(ctxs) == 0
  {
    if ctxs != [] {
      NothingToClaim(ctxs[..|ctxs| - 1]);
    }
  }
}
