/** Machine words: powers of two, truncation to 64 and 128 bits, and the bitwise operators that the
    128-bit and square-root code is written with. */
module Words {
  type uint32 = x: int | 0 <= x < 0x1_0000_0000
  type uint64 = x: int | 0 <= x < 0x1_0000_0000_0000_0000
  type uint128 = x: int | 0 <= x < 0x1_0000_0000_0000_0000_0000_0000_0000_0000

  /** The value of a high and a low 64-bit part. */
  function Join(h: int, l: int): int { h * 0x1_0000_0000_0000_0000 + l }

  /** The value of a high and a low 128-bit part. */
  function Join128(h: int, l: int): int { h * 0x1_0000_0000_0000_0000_0000_0000_0000_0000 + l }

  function Wrap64(x: int): uint64 { x % 0x1_0000_0000_0000_0000 }

  function Wrap128(x: int): uint128 { x % 0x1_0000_0000_0000_0000_0000_0000_0000_0000 }

  const MAX64: uint64 := 0xFFFF_FFFF_FFFF_FFFF

  // ---------- division and remainder ----------

  lemma MulMonotone(a: int, b: int, m: int)
    requires a <= b && m >= 0
    ensures a * m <= b * m
  {
  }

  lemma MulDistributes(a: int, b: int, m: int)
    ensures (a + b) * m == a * m + b * m
  {
  }

  lemma MulDouble(a: int, m: int)
    ensures a * (2 * m) == 2 * (a * m)
  {
  }

  /** Division is determined by the quotient-remainder equation. */
  lemma DivModUnique(x: int, m: int, q: int, r: int)
    requires m > 0 && x == q * m + r && 0 <= r < m
    ensures x / m == q && x % m == r
  {
    var q' := x / m;
    assert x == q' * m + x % m;
    if q > q' {
      MulMonotone(q' + 1, q, m);
    } else if q < q' {
      MulMonotone(q + 1, q', m);
    }
  }

  lemma SmallMod(x: int, m: int)
    requires 0 <= x < m
    ensures x % m == x
  {
    DivModUnique(x, m, 0, x);
  }

  lemma ModMultiple(x: int, k: int, m: int)
    requires m > 0
    ensures (x + k * m) % m == x % m
  {
    DivModUnique(x + k * m, m, x / m + k, x % m);
  }

  lemma Wrap64Small(x: int)
    requires 0 <= x < 0x1_0000_0000_0000_0000
    ensures Wrap64(x) == x
  {
  }

  lemma Wrap128Small(x: int)
    requires 0 <= x < 0x1_0000_0000_0000_0000_0000_0000_0000_0000
    ensures Wrap128(x) == x
  {
  }

  /** Values that differ by a multiple of 2^128 wrap to the same word. */
  lemma Wrap128Multiple(x: int, k: int)
    ensures Wrap128(Join128(k, x)) == Wrap128(x)
  {
    ModMultiple(x, k, 0x1_0000_0000_0000_0000_0000_0000_0000_0000);
  }

  lemma Wrap128Add(x: int, y: int)
    ensures Wrap128(Wrap128(x) + y) == Wrap128(x + y)
  {
    Wrap128Multiple(Wrap128(x) + y, x / 0x1_0000_0000_0000_0000_0000_0000_0000_0000);
  }

  lemma Wrap128Mul(x: int, y: int)
    ensures Wrap128(Wrap128(x) * y) == Wrap128(x * y)
  {
    var q := x / 0x1_0000_0000_0000_0000_0000_0000_0000_0000;
    assert x == Join128(q, Wrap128(x));
    MulDistributes(q * 0x1_0000_0000_0000_0000_0000_0000_0000_0000, Wrap128(x), y);
    assert x * y == Join128(q * y, Wrap128(x) * y);
    Wrap128Multiple(Wrap128(x) * y, q * y);
  }

  /** Addition of two words with a carry wraps at most once. */
  lemma Wrap64Add(x: uint64, y: uint64, c: int)
    requires 0 <= c <= 1
    ensures Wrap64(x + y + c)
         == if x + y + c < 0x1_0000_0000_0000_0000 then x + y + c else x + y + c - 0x1_0000_0000_0000_0000
  {
  }

  // ---------- powers of two ----------

  function Pow2(n: nat): (p: int)
    ensures p > 0
  {
    if n == 0 then 1 else 2 * Pow2(n - 1)
  }

  lemma {:induction false} Pow2Add(m: nat, n: nat)
    ensures Pow2(m + n) == Pow2(m) * Pow2(n)
  {
    if m != 0 {
      Pow2Add(m - 1, n);
      assert Pow2(m + n) == 2 * (Pow2(m - 1) * Pow2(n));
    }
  }

  lemma {:induction false} Pow2Monotone(m: nat, n: nat)
    requires m <= n
    ensures Pow2(m) <= Pow2(n)
    decreases n - m
  {
    if m < n {
      Pow2Monotone(m, n - 1);
    }
  }

  lemma Pow2Square(n: nat, v: int, w: int)
    requires Pow2(n) == v && v * v == w
    ensures Pow2(2 * n) == w
  {
    Pow2Add(n, n);
  }

  lemma Pow2Words()
    ensures Pow2(32) == 0x1_0000_0000 && Pow2(64) == 0x1_0000_0000_0000_0000
    ensures Pow2(128) == 0x1_0000_0000_0000_0000_0000_0000_0000_0000
  {
    assert Pow2(2) == 4;
    Pow2Square(2, 4, 16);
    Pow2Square(4, 16, 256);
    Pow2Square(8, 256, 65536);
    Pow2Square(16, 65536, 0x1_0000_0000);
    Pow2Square(32, 0x1_0000_0000, 0x1_0000_0000_0000_0000);
    Pow2Square(64, 0x1_0000_0000_0000_0000, 0x1_0000_0000_0000_0000_0000_0000_0000_0000);
  }

  /** The two factors that split a 64-bit word at bit n. */
  lemma Pow2Complement(n: nat)
    requires n <= 64
    ensures Pow2(n) * Pow2(64 - n) == 0x1_0000_0000_0000_0000
    ensures n < 64 ==> Pow2(n) < 0x1_0000_0000_0000_0000
  {
    Pow2Words();
    Pow2Add(n, 64 - n);
    if n < 64 {
      Pow2Monotone(n, 63);
      assert Pow2(64) == 2 * Pow2(63);
    }
  }

  lemma Pow2Above(n: nat)
    ensures Pow2(n + 64) == Pow2(n) * 0x1_0000_0000_0000_0000
  {
    Pow2Words();
    Pow2Add(n, 64);
  }

  // ---------- bitwise operators ----------

  function And(a: nat, b: nat): nat
  {
    if a == 0 then 0 else 2 * And(a / 2, b / 2) + (if a % 2 == 1 && b % 2 == 1 then 1 else 0)
  }

  function Or(a: nat, b: nat): nat
    decreases a + b
  {
    if a == 0 then b
    else if b == 0 then a
    else 2 * Or(a / 2, b / 2) + (if a % 2 == 1 || b % 2 == 1 then 1 else 0)
  }

  function Xor(a: nat, b: nat): nat
    decreases a + b
  {
    if a == 0 then b
    else if b == 0 then a
    else 2 * Xor(a / 2, b / 2) + (if a % 2 != b % 2 then 1 else 0)
  }

  function Shl(x: nat, n: nat): nat
    decreases n
  {
    if n == 0 then x else Shl(2 * x, n - 1)
  }

  function Shr(x: nat, n: nat): nat
    decreases n
  {
    if n == 0 then x else Shr(x / 2, n - 1)
  }

  lemma ShrStep(x: nat, n: nat)
    requires n > 0
    ensures x / Pow2(n) == (x / 2) / Pow2(n - 1)
    ensures x % Pow2(n) == 2 * ((x / 2) % Pow2(n - 1)) + x % 2
  {
    var p := Pow2(n - 1);
    var q, r := (x / 2) / p, (x / 2) % p;
    assert x == 2 * (q * p + r) + x % 2 == q * (2 * p) + (2 * r + x % 2);
    DivModUnique(x, 2 * p, q, 2 * r + x % 2);
  }

  /** A left shift is a multiplication by a power of two. */
  lemma {:induction false} ShlIsMul(x: nat, n: nat)
    ensures Shl(x, n) == x * Pow2(n)
    decreases n
  {
    if n != 0 {
      ShlIsMul(2 * x, n - 1);
    }
  }

  /** A right shift is a division by a power of two. */
  lemma {:induction false} ShrIsDiv(x: nat, n: nat)
    ensures Shr(x, n) == x / Pow2(n) <= x
  {
    if n != 0 {
      ShrIsDiv(x / 2, n - 1);
      ShrStep(x, n);
    }
  }

  /** Masking with n ones keeps the low n bits. */
  lemma {:induction false} AndLowMask(x: nat, n: nat)
    ensures And(x, Pow2(n) - 1) == x % Pow2(n)
  {
    if x == 0 {
      SmallMod(0, Pow2(n));
    } else if n == 0 {
      AndZero(x);
    } else {
      AndLowMask(x / 2, n - 1);
      LowMaskStep(x, n);
    }
  }

  lemma {:induction false} LowMaskStep(x: nat, n: nat)
    requires n > 0 && And(x / 2, Pow2(n - 1) - 1) == x / 2 % Pow2(n - 1)
    ensures And(x, Pow2(n) - 1) == x % Pow2(n)
  {
    ShrStep(x, n);
    AndOdd(x, Pow2(n) - 1, Pow2(n - 1) - 1);
  }

  lemma {:induction false} AndOdd(x: nat, m: nat, b: nat)
    requires m == 2 * b + 1
    ensures And(x, m) == 2 * And(x / 2, b) + x % 2
  {
    assert m / 2 == b && m % 2 == 1;
  }

  lemma {:induction false} AndEven(x: nat, m: nat, b: nat)
    requires m == 2 * b
    ensures And(x, m) == 2 * And(x / 2, b)
  {
    assert m / 2 == b && m % 2 == 0;
  }

  lemma {:induction false} AndZero(x: nat)
    ensures And(x, 0) == 0
  {
    if x != 0 {
      AndZero(x / 2);
    }
  }

  /** Masking with k ones above n zeros clears the low n bits of a word of n + k bits. */
  lemma {:induction false} AndHighMask(x: nat, n: nat, k: nat)
    requires x < Pow2(n + k)
    ensures Pow2(n) <= Pow2(n + k)
    ensures And(x, Pow2(n + k) - Pow2(n)) == Shr(x, n) * Pow2(n)
  {
    Pow2Monotone(n, n + k);
    if n == 0 {
      AndLowMask(x, k);
      SmallMod(x, Pow2(k));
    } else {
      AndHighMask(x / 2, n - 1, k);
      AndEven(x, Pow2(n + k) - Pow2(n), Pow2(n - 1 + k) - Pow2(n - 1));
      MulDouble(Shr(x / 2, n - 1), Pow2(n - 1));
    }
  }

  /** Or of words with no common bits is their sum. */
  lemma {:induction false} OrDisjoint(a: nat, b: nat, n: nat)
    requires b < Pow2(n)
    ensures Or(a * Pow2(n), b) == a * Pow2(n) + b
    decreases n
  {
    var x := a * Pow2(n);
    if x != 0 && b != 0 {
      assert n > 0;
      assert x == 2 * (a * Pow2(n - 1));
      OrDisjoint(a, b / 2, n - 1);
    }
  }

  lemma {:induction false} OrCommutes(a: nat, b: nat)
    ensures Or(a, b) == Or(b, a)
    decreases a + b
  {
    if a != 0 && b != 0 {
      OrCommutes(a / 2, b / 2);
    }
  }

  lemma {:induction false} OrBound(a: nat, b: nat, n: nat)
    requires a < Pow2(n) && b < Pow2(n)
    ensures Or(a, b) < Pow2(n)
    decreases n
  {
    if a != 0 && b != 0 {
      OrBound(a / 2, b / 2, n - 1);
    }
  }

  // ---------- single bits ----------

  predicate Bit(x: nat, n: nat)
    decreases n
  {
    if n == 0 then x % 2 == 1 else Bit(x / 2, n - 1)
  }

  lemma {:induction false} NoBits(n: nat)
    ensures !Bit(0, n)
  {
    if n > 0 {
      NoBits(n - 1);
    }
  }

  lemma {:induction false} XorBit(a: nat, b: nat, n: nat)
    ensures Bit(Xor(a, b), n) <==> Bit(a, n) != Bit(b, n)
    decreases n
  {
    if a == 0 || b == 0 {
      NoBits(n);
    } else if n > 0 {
      XorHalves(a, b);
      XorBit(a / 2, b / 2, n - 1);
    }
  }

  lemma {:induction false} XorHalves(a: nat, b: nat)
    requires a != 0 && b != 0
    ensures Xor(a, b) / 2 == Xor(a / 2, b / 2)
  {
  }

  lemma {:induction false} ShrBit(x: nat, k: nat, n: nat)
    ensures Bit(Shr(x, k), n) <==> Bit(x, n + k)
    decreases k
  {
    if k > 0 {
      ShrBit(x / 2, k - 1, n);
    }
  }

  lemma {:induction false} ShlBit(x: nat, k: nat, n: nat)
    ensures Bit(Shl(x, k), n) <==> n >= k && Bit(x, n - k)
    decreases k
  {
    if k > 0 {
      ShlBit(2 * x, k - 1, n);
      if n > k - 1 {
        assert 2 * x / 2 == x;
      }
    }
  }

  lemma {:induction false} LowBits(x: nat, m: nat, n: nat)
    ensures Bit(x % Pow2(m), n) <==> n < m && Bit(x, n)
    decreases n
  {
    if m == 0 {
      assert x % Pow2(0) == 0;
      NoBits(n);
    } else {
      ShrStep(x, m);
      var low := x / 2 % Pow2(m - 1);
      assert (2 * low + x % 2) / 2 == low && (2 * low + x % 2) % 2 == x % 2;
      if n > 0 {
        LowBits(x / 2, m - 1, n - 1);
      }
    }
  }

  /** A number is determined by its bits. */
  lemma {:induction false} SameBits(a: nat, b: nat, m: nat)
    requires a < Pow2(m) && b < Pow2(m) && forall n :: 0 <= n < m ==> (Bit(a, n) <==> Bit(b, n))
    ensures a == b
    decreases m
  {
    if m > 0 {
      assert Bit(a, 0) <==> Bit(b, 0);
      forall n | 0 <= n < m - 1
        ensures Bit(a / 2, n) <==> Bit(b / 2, n)
      {
        assert Bit(a, n + 1) <==> Bit(b, n + 1);
      }
      SameBits(a / 2, b / 2, m - 1);
    }
  }

  lemma {:induction false} XorBound(a: nat, b: nat, n: nat)
    requires a < Pow2(n) && b < Pow2(n)
    ensures Xor(a, b) < Pow2(n)
    decreases n
  {
    if a != 0 && b != 0 {
      XorBound(a / 2, b / 2, n - 1);
    }
  }
}
