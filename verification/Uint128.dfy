/** The 128-bit unsigned integer of two 64-bit limbs: in-place operators, the shift-subtract division,
    the limb product and the 256-bit product, each tied to the number it denotes. */
module Uint128 {
  import opened Words

  datatype Outcome = Done | DivideByZero

  class U128 {
    var hi: uint64
    var lo: uint64

    /** The number the limbs denote. */
    ghost function Val(): (v: int)
      reads this
      ensures 0 <= v < 0x1_0000_0000_0000_0000_0000_0000_0000_0000
    {
      Join(hi, lo)
    }

    constructor (h: uint64, l: uint64)
      ensures hi == h && lo == l
    {
      hi, lo := h, l;
    }

    predicate Equals(o: U128)
      reads this, o
      ensures Equals(o) <==> Val() == o.Val()
    {
      hi == o.hi && lo == o.lo
    }

    predicate Less(o: U128)
      reads this, o
      ensures Less(o) <==> Val() < o.Val()
    {
      if hi == o.hi then lo < o.lo else hi < o.hi
    }

    predicate AtLeast(o: U128)
      reads this, o
      ensures AtLeast(o) <==> Val() >= o.Val()
    {
      Equals(o) || o.Less(this)
    }

    predicate IsZero()
      reads this
      ensures IsZero() <==> Val() == 0
    {
      hi == 0 && lo == 0
    }

    /** `+=`: the carry out of the low limb is detected by wrap-around. */
    method Add(u: U128)
      modifies this
      ensures Val() == Wrap128(old(Val()) + old(u.Val()))
    {
      var before, uhi := lo, u.hi;
      AddLimbs(hi, lo, u.hi, u.lo);
      lo := Wrap64(lo + u.lo);
      var carry := if lo < before then 1 else 0;
      hi := Wrap64(hi + uhi + carry);
    }

    /** Unary minus: complement both limbs and increment. */
    method Negated() returns (r: U128)
      ensures fresh(r)
      ensures r.Val() == Wrap128(-Val())
    {
      r := new U128(MAX64 - hi, MAX64 - lo);
      r.lo := Wrap64(r.lo + 1);
      r.hi := Wrap64(r.hi + (if r.lo == 0 then 1 else 0));
      WrapNegation(hi, lo, r.hi, r.lo);
    }

    /** `-=` adds the two's complement. */
    method Subtract(u: U128)
      modifies this
      ensures Val() == Wrap128(old(Val()) - old(u.Val()))
    {
      ghost var v, w := Val(), u.Val();
      var m := u.Negated();
      Add(m);
      Wrap128Add(-w, v);
    }

    /** `|=`, limb by limb. */
    method OrAssign(u: U128)
      modifies this
      ensures hi == Or(old(hi), old(u.hi)) && lo == Or(old(lo), old(u.lo))
    {
      Or64(hi, u.hi);
      Or64(lo, u.lo);
      hi, lo := Or(hi, u.hi), Or(lo, u.lo);
    }

    /** `<<=`: move the low limb up for shifts of 64 or more, then shift by what is left. */
    method ShiftLeft(rhs: U128)
      modifies this
      ensures old(rhs.Val()) >= 128 ==> Val() == 0
      ensures old(rhs.Val()) < 128 ==> Val() == Wrap128(Shl(old(Val()), old(rhs.Val())))
    {
      if rhs.hi != 0 || rhs.lo >= 128 {
        hi, lo := 0, 0;
      } else {
        var n := rhs.lo;
        if n >= 64 {
          n := n - 64;
          ShlWholeLimb(hi, lo, n);
          hi, lo := lo, 0;
        }
        ShiftLeftWithin(n);
      }
    }

    /** Shift both limbs and carry the masked top bits of the low limb into the high one. */
    method ShiftLeftWithin(n: nat)
      requires n < 64
      modifies this
      ensures Val() == Wrap128(Shl(old(Val()), n))
    {
      if n != 0 {
        var mask := MAX64 - Shr(MAX64, n);
        ShlLimbs(hi, lo, n, mask);
        hi := Wrap64(Shl(hi, n));
        hi := Or(hi, Shr(And(lo, mask), 64 - n));
        lo := Wrap64(Shl(lo, n));
      } else {
        Wrap128Small(Val());
      }
    }

    /** `>>=`, the mirror image. */
    method ShiftRight(rhs: U128)
      modifies this
      ensures old(rhs.Val()) >= 128 ==> Val() == 0
      ensures old(rhs.Val()) < 128 ==> Val() == Shr(old(Val()), old(rhs.Val()))
    {
      if rhs.hi != 0 || rhs.lo >= 128 {
        hi, lo := 0, 0;
      } else {
        var n := rhs.lo;
        if n >= 64 {
          n := n - 64;
          ShrWholeLimb(hi, lo, n);
          hi, lo := 0, hi;
        }
        ShiftRightWithin(n);
      }
    }

    method ShiftRightWithin(n: nat)
      requires n < 64
      modifies this
      ensures Val() == Shr(old(Val()), n)
    {
      if n != 0 {
        var mask := MAX64 - Wrap64(Shl(MAX64, n));
        ShrLimbs(hi, lo, n, mask);
        lo := Shr(lo, n);
        lo := Or(lo, Wrap64(Shl(And(hi, mask), 64 - n)));
        hi := Shr(hi, n);
      }
    }

    /** `*=`: the products of 32-bit limbs below 2^128. */
    method Multiply(b: U128)
      modifies this
      ensures Val() == Wrap128(old(Val()) * old(b.Val()))
    {
      var a0, a1, a2, a3 := lo % 0x1_0000_0000, lo / 0x1_0000_0000, hi % 0x1_0000_0000, hi / 0x1_0000_0000;
      var b0, b1, b2, b3 := b.lo % 0x1_0000_0000, b.lo / 0x1_0000_0000, b.hi % 0x1_0000_0000, b.hi / 0x1_0000_0000;
      Columns(Val(), b.Val(), a0, a1, a2, a3, b0, b1, b2, b3);
      LimbProductFits(a3, b0); LimbProductFits(a2, b1); LimbProductFits(a1, b2); LimbProductFits(a0, b3);
      LimbProductFits(a2, b0); LimbProductFits(a1, b1); LimbProductFits(a0, b2);
      LimbProductFits(a1, b0); LimbProductFits(a0, b1); LimbProductFits(a0, b0);
      AccumulateColumns(a3 * b0, a2 * b1, a1 * b2, a0 * b3, a2 * b0, a1 * b1, a0 * b2, a1 * b0, a0 * b1, a0 * b0);
    }

    /** The statements of `*=` after the limbs are split: the columns by Horner's rule, most significant first. */
    method AccumulateColumns(p30: uint64, p21: uint64, p12: uint64, p03: uint64,
                             p20: uint64, p11: uint64, p02: uint64, p10: uint64, p01: uint64, p00: uint64)
      modifies this
      ensures Val() == Wrap128(ColumnSum(p30, p21, p12, p03, p20, p11, p02, p10, p01, p00))
    {
      ghost var t := FirstColumns(p30, p21, p12, p03, p20, p11, p02);
      t := LastColumns(p10, p01, p00, t);
    }

    method FirstColumns(p30: uint64, p21: uint64, p12: uint64, p03: uint64, p20: uint64, p11: uint64, p02: uint64)
      returns (ghost t: int)
      modifies this
      ensures t == (p30 + p21 + p12 + p03) * 0x1_0000_0000 + (p20 + p11 + p02) && Val() == Wrap128(t)
    {
      hi := 0;
      lo := p30;
      Wrap128Small(p30);
      t := AddThree(p21, p12, p03, p30);
      t := ShiftLeftByLimb(t);
      t := AddThree(p20, p11, p02, t);
    }

    method LastColumns(p10: uint64, p01: uint64, p00: uint64, ghost t: int) returns (ghost t': int)
      requires Val() == Wrap128(t)
      modifies this
      ensures t' == (t * 0x1_0000_0000 + (p10 + p01)) * 0x1_0000_0000 + p00 && Val() == Wrap128(t')
    {
      t' := ShiftLeftByLimb(t);
      t' := AddWord(p10, t');
      t' := AddWord(p01, t');
      t' := ShiftLeftByLimb(t');
      t' := AddWord(p00, t');
    }

    method AddThree(x: uint64, y: uint64, z: uint64, ghost t: int) returns (ghost t': int)
      requires Val() == Wrap128(t)
      modifies this
      ensures t' == t + x + y + z && Val() == Wrap128(t')
    {
      t' := AddWord(x, t);
      t' := AddWord(y, t');
      t' := AddWord(z, t');
    }

    /** `+=` with the implicit conversion from a 64-bit word; t is the running total without wrap-around. */
    method AddWord(w: uint64, ghost t: int) returns (ghost t': int)
      requires Val() == Wrap128(t)
      modifies this
      ensures t' == t + w && Val() == Wrap128(t')
    {
      var u := new U128(0, w);
      Add(u);
      t' := t + w;
      Wrap128Add(t, w);
    }

    /** The same where nothing can wrap. */
    method AddExactly(w: uint64)
      requires Join(hi, lo) + w < 0x1_0000_0000_0000_0000_0000_0000_0000_0000
      modifies this
      ensures Val() == old(Val()) + w
    {
      Wrap128Small(Val() + w);
      var u := new U128(0, w);
      Add(u);
    }

    /** `<<= 0x20`. */
    method ShiftLeftByLimb(ghost t: int) returns (ghost t': int)
      requires Val() == Wrap128(t)
      modifies this
      ensures t' == t * 0x1_0000_0000 && Val() == Wrap128(t')
    {
      var n := new U128(0, 32);
      ShlIsMul(Val(), 32);
      Pow2Words();
      ShiftLeft(n);
      t' := t * 0x1_0000_0000;
      Wrap128Mul(t, 0x1_0000_0000);
    }
  }

  lemma AddLimbs(h: uint64, l: uint64, uh: uint64, ul: uint64)
    ensures var lo := Wrap64(l + ul); var hi := Wrap64(h + uh + (if lo < l then 1 else 0));
      Join(hi, lo) == Wrap128(Join(h, l) + Join(uh, ul))
  {
    Wrap64Add(l, ul, 0);
    var lo := Wrap64(l + ul);
    var carry := if lo < l then 1 else 0;
    Wrap64Add(h, uh, carry);
    WrapOnce(Join(Wrap64(h + uh + carry), lo), Join(h, l) + Join(uh, ul));
  }

  lemma WrapOnce(v: uint128, sum: int)
    requires v == sum || Join128(1, v) == sum
    ensures v == Wrap128(sum)
  {
  }

  lemma WrapNegation(hi: uint64, lo: uint64, rh: uint64, rl: uint64)
    requires rl == Wrap64(MAX64 - lo + 1) && rh == Wrap64(MAX64 - hi + (if rl == 0 then 1 else 0))
    ensures Join(rh, rl) == Wrap128(-Join(hi, lo))
  {
  }

  lemma Or64(a: uint64, b: uint64)
    ensures Or(a, b) < 0x1_0000_0000_0000_0000
  {
    Pow2Words();
    OrBound(a, b, 64);
  }

  // ---------- the limb product ----------

  lemma LimbProductFits(x: uint32, y: uint32)
    ensures 0 <= x * y < 0x1_0000_0000_0000_0000
  {
    MulMonotone(x, 0xFFFF_FFFF, y);
    MulMonotone(0, x, y);
  }

  /** The ten limb products below 2^128, weighted by their columns. */
  ghost function ColumnSum(p30: int, p21: int, p12: int, p03: int,
                           p20: int, p11: int, p02: int, p10: int, p01: int, p00: int): int
  {
    (((p30 + p21 + p12 + p03) * 0x1_0000_0000 + (p20 + p11 + p02)) * 0x1_0000_0000 + (p10 + p01)) * 0x1_0000_0000 + p00
  }

  lemma TwoDigitProduct(x1: int, x0: int, y1: int, y0: int, base: int)
    ensures (x1 * base + x0) * (y1 * base + y0) == (x1 * y1) * (base * base) + (x1 * y0 + x0 * y1) * base + x0 * y0
  {
  }

  /** The columns that were kept are the whole product modulo 2^128. */
  lemma Columns(a: int, b: int, a0: int, a1: int, a2: int, a3: int, b0: int, b1: int, b2: int, b3: int)
    requires a == Join(a3 * 0x1_0000_0000 + a2, a1 * 0x1_0000_0000 + a0)
    requires b == Join(b3 * 0x1_0000_0000 + b2, b1 * 0x1_0000_0000 + b0)
    ensures Wrap128(a * b)
         == Wrap128(ColumnSum(a3 * b0, a2 * b1, a1 * b2, a0 * b3, a2 * b0, a1 * b1, a0 * b2, a1 * b0, a0 * b1, a0 * b0))
  {
    var ah, al := a3 * 0x1_0000_0000 + a2, a1 * 0x1_0000_0000 + a0;
    var bh, bl := b3 * 0x1_0000_0000 + b2, b1 * 0x1_0000_0000 + b0;
    TwoDigitProduct(ah, al, bh, bl, 0x1_0000_0000_0000_0000);
    TwoDigitProduct(a1, a0, b1, b0, 0x1_0000_0000);
    TwoDigitProduct(a3, a2, b1, b0, 0x1_0000_0000);
    TwoDigitProduct(a1, a0, b3, b2, 0x1_0000_0000);
    KeptColumns(a * b, ah * bh, al * bl, ah * bl, al * bh, a3 * b1, a1 * b3,
                a3 * b0, a2 * b1, a1 * b2, a0 * b3, a2 * b0, a1 * b1, a0 * b2, a1 * b0, a0 * b1, a0 * b0);
  }

  lemma KeptColumns(ab: int, hh: int, ll: int, hl: int, lh: int, p31: int, p13: int,
                    p30: int, p21: int, p12: int, p03: int,
                    p20: int, p11: int, p02: int, p10: int, p01: int, p00: int)
    requires ab == Join128(hh, Join(hl + lh, ll))
    requires ll == Join(p11, (p10 + p01) * 0x1_0000_0000 + p00)
    requires hl == Join(p31, (p30 + p21) * 0x1_0000_0000 + p20)
    requires lh == Join(p13, (p12 + p03) * 0x1_0000_0000 + p02)
    ensures Wrap128(ab) == Wrap128(ColumnSum(p30, p21, p12, p03, p20, p11, p02, p10, p01, p00))
  {
    Wrap128Multiple(ColumnSum(p30, p21, p12, p03, p20, p11, p02, p10, p01, p00), hh + p31 + p13);
  }

  // ---------- the 256-bit product ----------

  method FullProduct(a: U128, b: U128, resultHi: U128, resultLo: U128)
    requires resultHi != resultLo
    modifies resultHi, resultLo
    ensures Join128(resultHi.Val(), resultLo.Val()) == old(a.Val()) * old(b.Val())
  {
    var ah, al, bh, bl := a.hi, a.lo, b.hi, b.lo;
    var s := WordProduct(al, bl);
    var r := WordProduct(ah, bl);
    var q := WordProduct(al, bh);
    var p := WordProduct(ah, bh);
    ghost var ab := a.Val() * b.Val();
    FourPartials(ah, al, bh, bl, ab, p.Val(), q.Val(), r.Val(), s.Val());
    var y3, y2, y1, y0 := SumPartials(p, q, r, s);
    assert Join128(Join(y3, y2), Join(y1, y0)) == ab;
    resultHi.hi, resultHi.lo := y3, y2;
    resultLo.hi, resultLo.lo := y1, y0;
  }

  method WordProduct(x: uint64, y: uint64) returns (r: U128)
    ensures fresh(r) && r.Val() == x * y
  {
    r := new U128(0, x);
    var f := new U128(0, y);
    r.Multiply(f);
    MulMonotone(x, MAX64, y);
    MulMonotone(0, x, y);
    Wrap128Small(x * y);
  }

  lemma FourPartials(ah: uint64, al: uint64, bh: uint64, bl: uint64, ab: int, p: int, q: int, r: int, s: int)
    requires ab == Join(ah, al) * Join(bh, bl)
    requires p == ah * bh && q == al * bh && r == ah * bl && s == al * bl
    ensures ab == Join128(p, Join(r + q, s)) < Join128(0x1_0000_0000_0000_0000_0000_0000_0000_0000, 0)
  {
    TwoDigitProduct(ah, al, bh, bl, 0x1_0000_0000_0000_0000);
    MulMonotone(Join(ah, al), 0xFFFF_FFFF_FFFF_FFFF_FFFF_FFFF_FFFF_FFFF, Join(bh, bl));
  }

  /** Accumulates the four partial products word by word. The top word is added without a carry check. */
  method SumPartials(p: U128, q: U128, r: U128, s: U128) returns (y3: uint64, y2: uint64, y1: uint64, y0: uint64)
    requires Join128(p.Val(), Join(r.Val() + q.Val(), s.Val()))
           < Join128(0x1_0000_0000_0000_0000_0000_0000_0000_0000, 0)
    ensures Join128(Join(y3, y2), Join(y1, y0)) == Join128(p.Val(), Join(r.Val() + q.Val(), s.Val()))
  {
    y0 := s.lo;
    var acc := SumWords(s.hi, q.lo, r.lo);
    y1 := acc.lo;
    var carry := acc.hi;
    acc := SumWords(carry, q.hi, r.hi);
    acc.AddExactly(p.lo);
    y2 := acc.lo;
    NoCarryLost(p.hi, p.lo, q.hi, q.lo, r.hi, r.lo, s.hi, acc.hi + p.hi, y2, carry, y1, y0);
    Wrap64Small(acc.hi + p.hi);
    y3 := Wrap64(acc.hi + p.hi);
  }

  method SumWords(x: uint64, y: uint64, z: uint64) returns (acc: U128)
    ensures fresh(acc) && acc.Val() == x + y + z
  {
    acc := new U128(0, x);
    acc.AddExactly(y);
    acc.AddExactly(z);
  }

  /** No carry is lost in the top word. */
  lemma NoCarryLost(ph: int, pl: int, qh: int, ql: int, rh: int, rl: int, sh: int,
                    y3: int, y2: int, carry: int, y1: int, y0: int)
    requires 0 <= y2 && 0 <= y1 && 0 <= y0
    requires sh + ql + rl == Join(carry, y1)
    requires carry + qh + rh + Join(ph, pl) == Join(y3, y2)
    ensures
      var total := Join128(Join(ph, pl), Join(Join(rh, rl) + Join(qh, ql), Join(sh, y0)));
      && Join128(Join(y3, y2), Join(y1, y0)) == total
      && (total < Join128(0x1_0000_0000_0000_0000_0000_0000_0000_0000, 0) ==> y3 < 0x1_0000_0000_0000_0000)
  {
  }

  // ---------- shift-subtract division ----------

  /** Normalises the divisor, then subtracts and shifts back one bit at a time. All objects may alias:
      the operands are copied before the outputs are written, the remainder last. */
  method Divide(numerator: U128, denominator: U128, quotient: U128, remainder: U128) returns (outcome: Outcome)
    modifies quotient, remainder
    ensures old(denominator.Val()) == 0 ==>
      outcome == DivideByZero && unchanged(quotient) && unchanged(remainder)
    ensures old(denominator.Val()) != 0 ==>
      && outcome == Done
      && remainder.Val() == old(numerator.Val()) % old(denominator.Val())
      && (quotient != remainder ==> quotient.Val() == old(numerator.Val()) / old(denominator.Val()))
  {
    if denominator.IsZero() {
      return DivideByZero;
    }
    var n := new U128(numerator.hi, numerator.lo);
    var d := new U128(denominator.hi, denominator.lo);
    var x := new U128(0, 1);
    var answer := new U128(0, 0);
    ghost var N, D := n.Val(), d.Val();
    ghost var k := Normalise(n, d, x);
    Reduce(n, d, x, answer, N, D, k);
    DivModUnique(N, D, answer.Val(), n.Val());
    quotient.hi, quotient.lo := answer.hi, answer.lo;
    remainder.hi, remainder.lo := n.hi, n.lo;
    outcome := Done;
  }

  /** The remainder overwrites the numerator it was computed from. */
  method Modulo(a: U128, b: U128) returns (outcome: Outcome)
    modifies a
    ensures old(b.Val()) == 0 ==> outcome == DivideByZero && unchanged(a)
    ensures old(b.Val()) != 0 ==> outcome == Done && a.Val() == old(a.Val()) % old(b.Val())
  {
    var quotient := new U128(0, 0);
    outcome := Divide(a, b, quotient, a);
  }

  /** First loop: double the divisor and the bit until the divisor exceeds n or has its top bit set. */
  method Normalise(n: U128, d: U128, x: U128) returns (ghost k: nat)
    requires n != d && d != x && n != x && d.Val() != 0 && x.Val() == 1
    modifies d, x
    ensures Reducing(n.Val(), old(d.Val()), k, 0, n.Val(), d.Val(), x.Val(), 0) && x.Val() != 0
  {
    k := 0;
    ghost var D := d.Val();
    var top := TopBitSet(d);
    while n.AtLeast(d) && !top
      invariant Normalising(D, k, d.Val(), x.Val())
      invariant top <==> d.Val() >= TOP_BIT
      decreases 128 - k
    {
      DoubleBoth(d, x, D, k);
      k := k + 1;
      top := TopBitSet(d);
    }
    NormalisingDone(n.Val(), D, k, d.Val(), x.Val());
  }

  /** `x <<= 1; d <<= 1;` */
  method DoubleBoth(d: U128, x: U128, ghost D: int, ghost k: nat)
    requires d != x && Normalising(D, k, d.Val(), x.Val()) && d.Val() < TOP_BIT
    modifies d, x
    ensures k < 127 && Normalising(D, k + 1, d.Val(), x.Val())
  {
    NormalisingStep(D, k, d.Val(), x.Val());
    var one := new U128(0, 1);
    x.ShiftLeft(one);
    d.ShiftLeft(one);
  }

  ghost predicate Normalising(D: int, k: nat, d: int, x: int)
  {
    D > 0 && x == Pow2(k) && d == D * Pow2(k)
  }

  lemma NormalisingStep(D: int, k: nat, d: int, x: int)
    requires Normalising(D, k, d, x) && d < TOP_BIT && 0 <= x && 0 <= d
    ensures k < 127 && Normalising(D, k + 1, Wrap128(Shl(d, 1)), Wrap128(Shl(x, 1)))
  {
    BelowTopBit(D, k);
    DoubleFits(x, 1, k);
    DoubleFits(d, D, k);
  }

  lemma NormalisingDone(n: uint128, D: int, k: nat, d: int, x: int)
    requires Normalising(D, k, d, x) && (n < d || d >= TOP_BIT)
    ensures Reducing(n, D, k, 0, n, d, x, 0)
  {
  }

  /** The invariant of the second loop, on the values: the quotient found so far accounts for what has been
      subtracted, the divisor is D shifted by the current bit, and all lower quotient bits are clear. */
  ghost predicate Reducing(N: int, D: int, k: nat, m: int, n: int, d: int, x: int, answer: int)
  {
    && D > 0 && m >= 0
    && answer * D + n == N
    && (x == 0 ==> n < D)
    && (x != 0 ==> x == Pow2(k) && d == D * Pow2(k) && n < 2 * d && answer == m * Pow2(k + 1))
  }

  lemma {:induction false} ReducingStep(N: int, D: int, k: nat, m: int, n: int, d: int, x: int, answer: int)
    requires Reducing(N, D, k, m, n, d, x, answer) && x > 0 && 0 <= d
    ensures n >= d ==>
      Reducing(N, D, if k == 0 then 0 else k - 1, 2 * m + 1, n - d, Shr(d, 1), Shr(x, 1), answer + x)
    ensures n < d ==>
      Reducing(N, D, if k == 0 then 0 else k - 1, 2 * m, n, Shr(d, 1), Shr(x, 1), answer)
    ensures Shr(x, 1) < x
  {
    Halve(x, 1, k);
    Halve(d, D, k);
    BitAccounted(answer, D, Pow2(k), n);
    var p := Pow2(k);
    MulDouble(m, p);
    MulDistributes(2 * m, 1, p);
    assert (2 * m) * p == 2 * (m * p);
  }

  /** Second loop. */
  method Reduce(n: U128, d: U128, x: U128, answer: U128, ghost N: int, ghost D: int, ghost k0: nat)
    requires n != d && n != x && n != answer && d != x && d != answer && x != answer
    requires Reducing(N, D, k0, 0, n.Val(), d.Val(), x.Val(), answer.Val())
    modifies n, d, x, answer
    ensures x.Val() == 0 && exists k, m :: Reducing(N, D, k, m, n.Val(), d.Val(), x.Val(), answer.Val())
  {
    ghost var k, m := k0, 0;
    while !x.IsZero()
      invariant Reducing(N, D, k, m, n.Val(), d.Val(), x.Val(), answer.Val())
      decreases x.Val()
    {
      k, m := ReduceOneBit(n, d, x, answer, N, D, k, m);
    }
  }

  method ReduceOneBit(n: U128, d: U128, x: U128, answer: U128, ghost N: int, ghost D: int, ghost k: nat, ghost m: int)
    returns (ghost k': nat, ghost m': int)
    requires n != d && n != x && n != answer && d != x && d != answer && x != answer
    requires Reducing(N, D, k, m, n.Val(), d.Val(), x.Val(), answer.Val()) && x.Val() != 0
    modifies n, d, x, answer
    ensures Reducing(N, D, k', m', n.Val(), d.Val(), x.Val(), answer.Val()) && x.Val() < old(x.Val())
  {
    ReducingStep(N, D, k, m, n.Val(), d.Val(), x.Val(), answer.Val());
    k' := if k == 0 then 0 else k - 1;
    m' := if n.AtLeast(d) then 2 * m + 1 else 2 * m;
    if n.AtLeast(d) {
      SubtractAndSet(n, d, x, answer, m, k);
    }
    HalveBoth(d, x);
  }

  /** `x >>= 1; d >>= 1;` */
  method HalveBoth(d: U128, x: U128)
    requires d != x
    modifies d, x
    ensures d.Val() == Shr(old(d.Val()), 1) && x.Val() == Shr(old(x.Val()), 1)
  {
    var one := new U128(0, 1);
    x.ShiftRight(one);
    d.ShiftRight(one);
  }

  /** `n -= d; answer |= x;` */
  method SubtractAndSet(n: U128, d: U128, x: U128, answer: U128, ghost m: nat, ghost k: nat)
    requires n != d && n != x && n != answer && d != answer && x != answer
    requires n.Val() >= d.Val() && x.Val() == Pow2(k) && answer.Val() == m * Pow2(k + 1)
    modifies n, answer
    ensures n.Val() == old(n.Val()) - d.Val() && answer.Val() == old(answer.Val()) + x.Val()
  {
    Wrap128Small(n.Val() - d.Val());
    OrBit(answer.hi, answer.lo, x.hi, x.lo, m, k);
    n.Subtract(d);
    answer.OrAssign(x);
  }

  const TOP_BIT: int := 0x8000_0000_0000_0000_0000_0000_0000_0000

  /** `((d >> (bits - 1)) & 1) != 0`. */
  method TopBitSet(d: U128) returns (b: bool)
    ensures b <==> d.Val() >= TOP_BIT
  {
    var t := new U128(d.hi, d.lo);
    var last := new U128(0, 127);
    t.ShiftRight(last);
    TopBit(d.Val());
    assert t.Val() == if d.Val() >= TOP_BIT then 1 else 0;
    b := And(t.lo, 1) != 0;
  }

  lemma TopBit(v: uint128)
    ensures Shr(v, 127) == if v >= TOP_BIT then 1 else 0
  {
    Pow2Words();
    assert Pow2(128) == 2 * Pow2(127);
    ShrIsDiv(v, 127);
    DivModUnique(v, Pow2(127), if v >= TOP_BIT then 1 else 0, if v >= TOP_BIT then v - TOP_BIT else v);
  }

  /** While the divisor has its top bit clear, the shift count is below 127. */
  lemma BelowTopBit(D: int, k: nat)
    requires D > 0 && D * Pow2(k) < TOP_BIT
    ensures k < 127 && Pow2(k) < TOP_BIT
  {
    MulMonotone(1, D, Pow2(k));
    Pow2Words();
    assert Pow2(128) == 2 * Pow2(127);
    if k >= 127 { Pow2Monotone(127, k); }
  }

  lemma DoubleFits(v: int, c: int, k: nat)
    requires v == c * Pow2(k) && 0 <= v < TOP_BIT
    ensures Wrap128(Shl(v, 1)) == c * Pow2(k + 1)
  {
  }

  lemma Halve(v: int, c: int, k: nat)
    requires v == c * Pow2(k) && 0 <= v
    ensures k > 0 ==> Shr(v, 1) == c * Pow2(k - 1) && v == 2 * (c * Pow2(k - 1))
    ensures k == 0 ==> Shr(v, 1) == c / 2
  {
  }

  lemma BitAccounted(answer: int, D: int, p: int, n: int)
    ensures (answer + p) * D + (n - D * p) == answer * D + n
  {
  }

  /** Setting bit k of a number whose low k + 1 bits are clear adds 2^k, whichever limb it falls in. */
  lemma OrBit(h: uint64, l: uint64, xh: uint64, xl: uint64, m: nat, k: nat)
    requires Join(xh, xl) == Pow2(k) && Join(h, l) == m * Pow2(k + 1)
    ensures Join(Or(h, xh), Or(l, xl)) == Join(h, l) + Pow2(k)
  {
    if k < 64 {
      OrBitLow(h, l, xh, xl, m, k);
    } else {
      OrBitHigh(h, l, xh, xl, m, k);
    }
  }

  lemma OrBitLow(h: uint64, l: uint64, xh: uint64, xl: uint64, m: nat, k: nat)
    requires k < 64 && Join(xh, xl) == Pow2(k) && Join(h, l) == m * Pow2(k + 1)
    ensures xh == 0 && xl == Pow2(k) && Or(l, xl) == l + Pow2(k)
  {
    var p, w := Pow2(k + 1), Pow2(63 - k);
    assert xh == 0 && xl == Pow2(k) by { Pow2Complement(k); }
    assert l == (m - h * w) * p by {
      Pow2Complement(k + 1);
      LowPart(h, l, m, w, p);
    }
    OrLowBit(l, m - h * w, k);
  }

  lemma LowPart(h: int, l: int, m: int, w: int, p: int)
    requires p * w == 0x1_0000_0000_0000_0000 && Join(h, l) == m * p
    ensures l == (m - h * w) * p
  {
  }

  lemma {:induction false} OrBitHigh(h: uint64, l: uint64, xh: uint64, xl: uint64, m: nat, k: nat)
    requires k >= 64 && Join(xh, xl) == Pow2(k) && Join(h, l) == m * Pow2(k + 1)
    ensures l == xl == 0 && Join(xh, 0) == Pow2(k) && Or(h, xh) == h + xh
  {
    var p := Pow2(k - 64);
    Pow2Above(k - 64);
    assert xl == 0 && xh == p;
    HighOnly(h, l, m, 2 * p);
    OrLowBit(h, m, k - 64);
  }

  lemma HighOnly(h: uint64, l: uint64, m: int, p: int)
    requires Join(h, l) == m * Join(p, 0)
    ensures l == 0 && h == m * p
  {
    assert m * Join(p, 0) == Join(m * p, 0);
  }

  lemma OrLowBit(l: nat, m: int, k: nat)
    requires l == m * Pow2(k + 1)
    ensures Or(l, Pow2(k)) == l + Pow2(k)
  {
  }

  // ---------- the split shifts ----------

  lemma ShlWholeLimb(hi: uint64, lo: uint64, n: nat)
    ensures Wrap128(Shl(Join(hi, lo), n + 64)) == Wrap128(Shl(Join(lo, 0), n))
  {
    ShlIsMul(Join(hi, lo), n + 64);
    ShlIsMul(Join(lo, 0), n);
    Pow2Above(n);
    DropHighLimb(hi, lo, Pow2(n));
  }

  lemma DropHighLimb(h: int, lo: int, p: int)
    ensures Wrap128(Join(h, lo) * Join(p, 0)) == Wrap128(Join(lo, 0) * p)
  {
    assert Join(h, lo) * Join(p, 0) == Join128(h * p, Join(lo, 0) * p);
    Wrap128Multiple(Join(lo, 0) * p, h * p);
  }

  /** Multiplying a limb by p, where p * q is the limb size, moves its top part x / q out. */
  lemma ScaleLimb(x: uint64, p: nat, q: nat)
    requires p > 0 && q > 0 && p * q == 0x1_0000_0000_0000_0000
    ensures x * p == Join(x / q, x % q * p) && Wrap64(x * p) == x % q * p
    ensures x / q < p && x % q * p + p <= 0x1_0000_0000_0000_0000
  {
    var a, b := x / q, x % q;
    assert x * p == Join(a, b * p) by {
      assert x == a * q + b;
      assert (a * q + b) * p == a * (p * q) + b * p;
    }
    assert b * p + p <= 0x1_0000_0000_0000_0000 by {
      MulMonotone(b + 1, q, p);
      assert (b + 1) * p == b * p + p && q * p == p * q;
    }
    DivModUnique(x * p, 0x1_0000_0000_0000_0000, a, b * p);
    if a >= p { MulMonotone(p, a, q); }
  }

  /** `(lo & ~(-1 >> n)) >> (64 - n)` is the part of lo that overflows. */
  lemma {:induction false} ShlMask(lo: uint64, n: nat, mask: int)
    requires 0 < n < 64 && mask == MAX64 - Shr(MAX64, n)
    ensures 0 <= mask && Shr(And(lo, mask), 64 - n) == lo / Pow2(64 - n)
  {
    var p, q := Pow2(n), Pow2(64 - n);
    Pow2Complement(n);
    assert Shr(MAX64, n) == q - 1 by {
      assert (q - 1) * p + (p - 1) == p * q - 1;
      DivModUnique(MAX64, p, q - 1, p - 1);
      ShrIsDiv(MAX64, n);
    }
    assert And(lo, mask) == Shr(lo, 64 - n) * q by {
      Pow2Words();
      AndHighMask(lo, 64 - n, n);
    }
    ShrIsDiv(lo, 64 - n);
    ShrIsDiv(And(lo, mask), 64 - n);
    DivModUnique(lo / q * q, q, lo / q, 0);
  }

  lemma MultiplyLimbs(hi: uint64, lo: uint64, p: nat, q: nat)
    requires p > 0 && q > 0 && p * q == 0x1_0000_0000_0000_0000
    ensures Wrap128(Join(hi, lo) * p) == Join(Wrap64(hi * p) + lo / q, Wrap64(lo * p))
  {
    ScaleLimb(hi, p, q);
    ScaleLimb(lo, p, q);
    var h, l := hi % q * p + lo / q, lo % q * p;
    MulDistributes(Join(hi, 0), lo, p);
    assert Join(hi, 0) * p == Join(hi * p, 0);
    assert Join(hi, lo) * p == Join128(hi / q, Join(h, l));
    Wrap128Multiple(Join(h, l), hi / q);
    Wrap128Small(Join(h, l));
  }

  lemma {:induction false} ShlLimbs(hi: uint64, lo: uint64, n: nat, mask: int)
    requires 0 < n < 64 && mask == MAX64 - Shr(MAX64, n)
    ensures 0 <= mask
    ensures Or(Wrap64(Shl(hi, n)), Shr(And(lo, mask), 64 - n)) < 0x1_0000_0000_0000_0000
    ensures Join(Or(Wrap64(Shl(hi, n)), Shr(And(lo, mask), 64 - n)), Wrap64(Shl(lo, n)))
         == Wrap128(Shl(Join(hi, lo), n))
  {
    var p, q := Pow2(n), Pow2(64 - n);
    Pow2Complement(n);
    ShlMask(lo, n, mask);
    ShlIsMul(hi, n);
    ShlIsMul(lo, n);
    ShlIsMul(Join(hi, lo), n);
    MultiplyLimbs(hi, lo, p, q);
    ScaleLimb(hi, p, q);
    ScaleLimb(lo, p, q);
    OrDisjoint(hi % q, lo / q, n);
  }

  lemma ShrWholeLimb(hi: uint64, lo: uint64, n: nat)
    ensures Shr(Join(hi, lo), n + 64) == Shr(hi, n)
  {
    ShrIsDiv(Join(hi, lo), n + 64);
    ShrIsDiv(hi, n);
    Pow2Above(n);
    DivideWholeLimb(hi, lo, Pow2(n));
  }

  lemma DivideWholeLimb(hi: uint64, lo: uint64, p: nat)
    requires p > 0
    ensures Join(hi, lo) / Join(p, 0) == hi / p
  {
    var a, b := hi / p, hi % p;
    assert a * Join(p, 0) == Join(a * p, 0);
    DivModUnique(Join(hi, lo), Join(p, 0), a, Join(b, lo));
  }

  /** `hi & ~(-1 << n)` is the part of hi that moves down. */
  lemma {:induction false} ShrMask(hi: uint64, n: nat, mask: int)
    requires 0 < n < 64 && mask == MAX64 - Wrap64(Shl(MAX64, n))
    ensures 0 <= mask && And(hi, mask) == hi % Pow2(n)
  {
    var p := Pow2(n);
    Pow2Complement(n);
    ShlIsMul(MAX64, n);
    assert MAX64 * p == Join(p - 1, 0x1_0000_0000_0000_0000 - p);
    DivModUnique(MAX64 * p, 0x1_0000_0000_0000_0000, p - 1, 0x1_0000_0000_0000_0000 - p);
    AndLowMask(hi, n);
  }

  /** Dividing a two-limb value by p: the low part of hi lands at the top of the low limb. */
  lemma DivideLimbs(hi: uint64, lo: uint64, p: nat, q: nat)
    requires p > 0 && q > 0 && p * q == 0x1_0000_0000_0000_0000
    ensures Join(hi, lo) / p == Join(hi / p, hi % p * q + lo / p)
    ensures lo / p < q && hi % p * q + q <= 0x1_0000_0000_0000_0000
  {
    var a, b, c, r := hi / p, hi % p, lo / p, lo % p;
    BelowFactor(lo, p, q);
    ScaledBelow(b, p, q);
    LimbsTimes(a, b, c, r, p, q);
    DivModUnique(Join(hi, lo), p, Join(a, b * q + c), r);
  }

  lemma BelowFactor(lo: uint64, p: nat, q: nat)
    requires p > 0 && p * q == 0x1_0000_0000_0000_0000
    ensures lo / p < q
  {
    if lo / p >= q { MulMonotone(q, lo / p, p); }
  }

  lemma ScaledBelow(b: int, p: nat, q: nat)
    requires b < p && p * q == 0x1_0000_0000_0000_0000
    ensures b * q + q <= 0x1_0000_0000_0000_0000
  {
    MulMonotone(b + 1, p, q);
    MulDistributes(b, 1, q);
  }

  lemma LimbsTimes(a: int, b: int, c: int, r: int, p: int, q: int)
    requires p * q == 0x1_0000_0000_0000_0000
    ensures Join(a, b * q + c) * p + r == Join(a * p + b, c * p + r)
  {
    MulDistributes(Join(a, 0), b * q + c, p);
    MulDistributes(b * q, c, p);
    assert Join(a, 0) * p == Join(a * p, 0);
    assert b * q * p == b * (p * q);
  }

  lemma OrShl(b: nat, c: nat, k: nat)
    requires c < Pow2(k)
    ensures Or(c, Shl(b, k)) == c + Shl(b, k)
  {
    ShlIsMul(b, k);
    OrCommutes(c, b * Pow2(k));
    OrDisjoint(b, c, k);
  }

  lemma {:induction false} ShrParts(hi: uint64, lo: uint64, n: nat)
    requires 0 < n < 64
    ensures Shr(hi, n) <= hi && Shr(lo, n) <= lo && Shr(lo, n) < Pow2(64 - n)
    ensures Shr(lo, n) + Shl(hi % Pow2(n), 64 - n) < 0x1_0000_0000_0000_0000
    ensures Shr(Join(hi, lo), n) == Join(Shr(hi, n), Shr(lo, n) + Shl(hi % Pow2(n), 64 - n))
  {
    Pow2Complement(n);
    ShrIsDiv(hi, n);
    ShrIsDiv(lo, n);
    ShrIsDiv(Join(hi, lo), n);
    ShlIsMul(hi % Pow2(n), 64 - n);
    DivideLimbs(hi, lo, Pow2(n), Pow2(64 - n));
  }

  lemma {:induction false} ShrLimbs(hi: uint64, lo: uint64, n: nat, mask: int)
    requires 0 < n < 64 && mask == MAX64 - Wrap64(Shl(MAX64, n))
    ensures 0 <= mask && Shr(lo, n) <= lo && Shr(hi, n) <= hi
    ensures Or(Shr(lo, n), Wrap64(Shl(And(hi, mask), 64 - n))) < 0x1_0000_0000_0000_0000
    ensures Join(Shr(hi, n), Or(Shr(lo, n), Wrap64(Shl(And(hi, mask), 64 - n)))) == Shr(Join(hi, lo), n)
  {
    ShrMask(hi, n, mask);
    ShrParts(hi, lo, n);
    var c, d := Shr(lo, n), Shl(And(hi, mask), 64 - n);
    Wrap64Small(d);
    OrShl(And(hi, mask), c, 64 - n);
    assert Or(c, Wrap64(d)) == c + d;
  }
}
