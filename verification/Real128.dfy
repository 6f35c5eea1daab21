/** Decimal fixed-point numbers with 18 places on a 128-bit integer. */
module Real128 {
  import opened Words
  import opened Decimal
  import Uint128
  import Uint128Text

  datatype ParseOutcome =
    | Parsed(fixed: uint128)
    | NotANumber       // the leading-character assertion fails
    | SignedOverflow   // more than 18 fraction digits overflow the signed 64-bit magnitude

  /** Assignment from an arbitrary-precision integer. */
  function FromBigint(n: nat): uint128 { Wrap128(n) }

  /** The assignment is written as parsing the integer's decimal text. */
  lemma FromBigintIsByText(n: nat)
    ensures FromBigint(n) == Uint128Text.TextValue(Text(n))
  {
    Uint128Text.ParseText(n);
  }

  class Real {
    var fixed: uint128

    constructor (integer: uint64)
      ensures fixed == integer * 1_000_000_000_000_000_000
    {
      fixed := integer * 1_000_000_000_000_000_000;
    }

    method Add(o: Real)
      modifies this
      ensures fixed == Wrap128(old(fixed) + old(o.fixed))
    {
      fixed := Wrap128(fixed + o.fixed);
    }

    /** `*=`: the exact product, truncated to 18 places, reduced modulo 2^128 only by the final conversion. */
    method Multiply(o: Real)
      modifies this
      ensures fixed == Wrap128(old(fixed) * old(o.fixed) / 1_000_000_000_000_000_000)
    {
      MulMonotone(0, fixed, o.fixed);
      var self := fixed * o.fixed;
      self := self / 1_000_000_000_000_000_000;
      fixed := FromBigint(self);
    }

    /** `/=`: the exact quotient, truncated to 18 places; dividing by zero is reported. */
    method Divide(o: Real) returns (ok: bool)
      modifies this
      ensures ok <==> old(o.fixed) != 0
      ensures ok ==> fixed == Wrap128(old(fixed) * 1_000_000_000_000_000_000 / old(o.fixed))
      ensures !ok ==> unchanged(this)
    {
      if o.fixed == 0 {
        return false;
      }
      var self := fixed * 1_000_000_000_000_000_000;
      self := self / o.fixed;
      fixed := FromBigint(self);
      ok := true;
    }

    /** The string operator: integer part, point, and the fraction printed with a guard digit that is cut
        off; trailing zeros are popped. */
    method Print() returns (number: string)
      ensures number == RealText(fixed)
    {
      var whole := PrintInteger(fixed / 1_000_000_000_000_000_000);
      var digits := PrintFraction(fixed % 1_000_000_000_000_000_000);
      number := PopZeros(whole + ".", digits);
    }
  }

  /** All eighteen digits of the fraction: the text after a leading one. */
  method PrintFraction(n: nat) returns (digits: string)
    requires n < 1_000_000_000_000_000_000
    ensures digits == Padded(n, 18)
  {
    var guarded := PrintInteger(n + 1_000_000_000_000_000_000);
    GuardDigit(n);
    digits := guarded[1..];
  }

  method PrintInteger(n: uint128) returns (s: string)
    ensures s == Text(n)
  {
    var v := new Uint128.U128(n / 0x1_0000_0000_0000_0000, n % 0x1_0000_0000_0000_0000);
    var sz := new char[129](_ => '\0');
    s := Uint128Text.Print(v, sz);
  }

  /** `while( number.back() == '0' ) number.pop_back();` on a head that does not end in a zero. */
  method PopZeros(head: string, digits: string) returns (number: string)
    requires head != [] && head[|head| - 1] != '0'
    ensures number == head + TrimZeros(digits)
  {
    number := head + digits;
    ghost var t := digits;
    while number[|number| - 1] == '0'
      invariant number == head + t && TrimZeros(t) == TrimZeros(digits)
      decreases |number|
    {
      number := number[..|number| - 1];
      t := t[..|t| - 1];
    }
  }

  // ---------- the printed form ----------

  /** The last k decimal digits of n, with leading zeros. */
  ghost function Padded(n: nat, k: nat): (s: string)
    ensures |s| == k
  {
    if k == 0 then [] else Padded(n / 10, k - 1) + [Digit(n % 10)]
  }

  ghost function TrimZeros(s: string): string
  {
    if s != [] && s[|s| - 1] == '0' then TrimZeros(s[..|s| - 1]) else s
  }

  ghost function RealText(f: uint128): string
  {
    Text(f / 1_000_000_000_000_000_000) + "." + TrimZeros(Padded(f % 1_000_000_000_000_000_000, 18))
  }

  /** Adding a leading one prints all the leading zeros of the fraction. */
  lemma GuardDigit(n: nat)
    requires n < 1_000_000_000_000_000_000
    ensures Text(n + 1_000_000_000_000_000_000) == ['1'] + Padded(n, 18)
  {
    Pow10Exceeds128();
    GuardedText(n, 18);
  }

  lemma {:induction false} GuardedText(n: nat, k: nat)
    requires n < Pow10(k)
    ensures Text(n + Pow10(k)) == ['1'] + Padded(n, k)
    decreases k
  {
    if k == 0 {
      assert Text(1) == ['1'];
    } else {
      GuardedText(n / 10, k - 1);
      GuardedStep(n + Pow10(k), n / 10 + Pow10(k - 1), n % 10, Padded(n / 10, k - 1));
    }
  }

  lemma GuardedStep(n: nat, q: nat, r: nat, rest: string)
    requires q > 0 && r < 10 && n == q * 10 + r && Text(q) == ['1'] + rest
    ensures Text(n) == ['1'] + (rest + [Digit(r)])
  {
    TextStep(n, q, r);
  }

  lemma TextStep(n: nat, q: nat, r: nat)
    requires q > 0 && r < 10 && n == q * 10 + r
    ensures Text(n) == Text(q) + [Digit(r)]
  {
    assert n / 10 == q && n % 10 == r;
  }

  lemma {:induction false} PaddedDenotes(n: nat, k: nat)
    requires n < Pow10(k)
    ensures AllDigits(Padded(n, k), 10) && BaseValue(Padded(n, k), 10) == n
    decreases k
  {
    if k > 0 {
      PaddedDenotes(n / 10, k - 1);
      DigitRoundTrip(n % 10);
      var s, c := Padded(n / 10, k - 1), Digit(n % 10);
      assert (s + [c])[..|s|] == s;
    }
  }

  lemma TenTimes(b: int, p: int)
    ensures b * (10 * p) == b * p * 10
  {
  }

  /** Trimming j zeros divides the value by 10^j. */
  lemma {:induction false} TrimZerosDenotes(s: string)
    requires AllDigits(s, 10)
    ensures var t := TrimZeros(s);
      t <= s && AllDigits(t, 10) && BaseValue(s, 10) == BaseValue(t, 10) * Pow10(|s| - |t|)
  {
    if s != [] && s[|s| - 1] == '0' {
      var r, t := s[..|s| - 1], TrimZeros(s);
      TrimZerosDenotes(r);
      assert BaseValue(s, 10) == BaseValue(r, 10) * 10;
      TenTimes(BaseValue(t, 10), Pow10(|r| - |t|));
    }
  }

  // ---------- parsing ----------

  /** What the string constructor computes. */
  ghost function RealValue(s: string): ParseOutcome
  {
    var whole := IntegerDigits(s);
    if whole == [] && (s == [] || s[0] != '.') then NotANumber
    else
      var frac := FractionDigits(s);
      if |frac| > 18 then SignedOverflow
      else Parsed(Wrap128(Wrap64(BaseValue(whole, 10)) * 1_000_000_000_000_000_000 + FractionValue(frac)))
  }

  ghost function IntegerDigits(s: string): (p: string)
    ensures AllDigits(p, 10) && p <= s
  {
    DigitPrefixIsLongest(s, 10);
    DigitPrefix(s, 10)
  }

  ghost function FractionDigits(s: string): (p: string)
    ensures AllDigits(p, 10)
  {
    var k := |IntegerDigits(s)|;
    if k < |s| && s[k] == '.' then IntegerDigits(s[k + 1..]) else []
  }

  /** `real128( frac_part ) / real128( frac_magnitude )`. */
  ghost function FractionValue(frac: string): nat
    requires AllDigits(frac, 10)
  {
    if frac == [] then 0
    else
      var self, other := BaseValue(frac, 10) * 1_000_000_000_000_000_000, Pow10(|frac|) * 1_000_000_000_000_000_000;
      QuotientNonNegative(self * 1_000_000_000_000_000_000, other);
      self * 1_000_000_000_000_000_000 / other
  }

  lemma QuotientNonNegative(x: nat, m: int)
    requires m > 0
    ensures x / m >= 0
  {
  }

  /** The fixed-point division is exact: 10^k divides 10^18. */
  lemma FractionIsExact(frac: string)
    requires AllDigits(frac, 10) && |frac| <= 18
    ensures FractionValue(frac) == BaseValue(frac, 10) * Pow10(18 - |frac|)
  {
    var b, p, q := BaseValue(frac, 10), Pow10(|frac|), Pow10(18 - |frac|);
    assert p * q == 1_000_000_000_000_000_000 by { Pow10Exceeds128(); Pow10Add(|frac|, 18 - |frac|); }
    if frac != [] {
      CancelPrecision(b, p, q);
    }
  }

  lemma CancelPrecision(b: nat, p: int, q: int)
    requires p > 0 && p * q == 1_000_000_000_000_000_000
    ensures (b * 1_000_000_000_000_000_000) * 1_000_000_000_000_000_000 / (p * 1_000_000_000_000_000_000) == b * q
  {
    var d := p * 1_000_000_000_000_000_000;
    calc {
      (b * q) * d;
      { assert (b * q) * (p * 1_000_000_000_000_000_000) == b * (p * q) * 1_000_000_000_000_000_000; }
      (b * 1_000_000_000_000_000_000) * 1_000_000_000_000_000_000;
    }
    DivModUnique((b * 1_000_000_000_000_000_000) * 1_000_000_000_000_000_000, d, b * q, 0);
  }

  /** The parts of a number text are found again: everything before the point, everything after it. */
  lemma PartsFound(whole: string, t: string)
    requires AllDigits(whole, 10) && AllDigits(t, 10)
    ensures IntegerDigits(whole + "." + t) == whole && FractionDigits(whole + "." + t) == t
  {
    var s := whole + "." + t;
    assert s == whole + (['.'] + t);
    DigitPrefixOfDigits(whole, ['.'] + t, 10);
    assert s[|whole| + 1..] == t == t + [];
    DigitPrefixOfDigits(t, [], 10);
  }

  lemma FractionReadBack(n: nat)
    requires n < 1_000_000_000_000_000_000
    ensures var t := TrimZeros(Padded(n, 18));
      |t| <= 18 && AllDigits(t, 10) && FractionValue(t) == n
  {
    assert Pow10(18) == 1_000_000_000_000_000_000 by { Pow10Exceeds128(); }
    PaddedDenotes(n, 18);
    TrimZerosDenotes(Padded(n, 18));
    FractionIsExact(TrimZeros(Padded(n, 18)));
  }

  /** The value read back from a printed number: only the integer part can be lost, by wrapping at 2^64. */
  lemma ReadBack(whole: nat, n: nat)
    requires n < 1_000_000_000_000_000_000
    ensures RealValue(Text(whole) + "." + TrimZeros(Padded(n, 18)))
         == Parsed(Wrap128(Wrap64(whole) * 1_000_000_000_000_000_000 + n))
  {
    TextDenotes(whole);
    FractionReadBack(n);
    ReadParts(Text(whole), TrimZeros(Padded(n, 18)), whole, n);
  }

  lemma ReadParts(text: string, t: string, whole: int, n: int)
    requires text != [] && AllDigits(text, 10) && BaseValue(text, 10) == whole
    requires |t| <= 18 && AllDigits(t, 10) && FractionValue(t) == n
    ensures RealValue(text + "." + t) == Parsed(Wrap128(Wrap64(whole) * 1_000_000_000_000_000_000 + n))
  {
    PartsFound(text, t);
  }

  /** Printing then parsing returns the number if and only if its integer part fits in 64 bits. */
  lemma PrintParse(f: uint128)
    ensures RealValue(RealText(f)) == Parsed(f) <==> f / 1_000_000_000_000_000_000 < 0x1_0000_0000_0000_0000
  {
    var whole, n := f / 1_000_000_000_000_000_000, f % 1_000_000_000_000_000_000;
    ReadBack(whole, n);
    Wrap128Small(Wrap64(whole) * 1_000_000_000_000_000_000 + n);
    if whole < 0x1_0000_0000_0000_0000 {
      Wrap64Small(whole);
    }
  }

  /** The character at a C-string position; reading one past the end yields NUL. */
  function At(s: string, i: nat): char { if i < |s| then s[i] else '\0' }

  /** `int_part = int_part * 10 + digit` over the leading digits, in 64 bits. */
  method ReadInteger(s: string) returns (c: nat, part: uint64)
    ensures c == |IntegerDigits(s)| && part == Wrap64(BaseValue(IntegerDigits(s), 10))
  {
    c, part := 0, 0;
    ghost var p := IntegerDigits(s);
    DigitPrefixIsLongest(s, 10);
    while DigitValue(At(s, c), 10) >= 0
      invariant c <= |p| && AllDigits(p[..c], 10) && part == Wrap64(BaseValue(p[..c], 10))
      decreases |s| - c
    {
      BaseValueStep(p, c, 10);
      Wrap64Digit(BaseValue(p[..c], 10), DigitValue(p[c], 10));
      part := Wrap64(part * 10 + DigitValue(s[c], 10));
      c := c + 1;
    }
    assert p[..c] == p;
  }

  lemma Wrap64Digit(x: int, d: int)
    ensures Wrap64(Wrap64(x) * 10 + d) == Wrap64(x * 10 + d)
  {
    ModMultiple(Wrap64(x) * 10 + d, x / 0x1_0000_0000_0000_0000 * 10, 0x1_0000_0000_0000_0000);
  }

  /** The fraction loop, whose two accumulators are signed 64-bit: `frac_magnitude` overflows at the 19th digit. */
  method ReadFraction(s: string) returns (overflow: bool, part: int, magnitude: int)
    ensures overflow <==> |IntegerDigits(s)| > 18
    ensures !overflow ==> part == BaseValue(IntegerDigits(s), 10) && magnitude == Pow10(|IntegerDigits(s)|)
    ensures !overflow ==> 0 <= part < magnitude < 0x8000_0000_0000_0000
  {
    var c := 0;
    overflow, part, magnitude := false, 0, 1;
    ghost var p := IntegerDigits(s);
    DigitPrefixIsLongest(s, 10);
    while DigitValue(At(s, c), 10) >= 0
      invariant c <= |p| && c <= 18 && AllDigits(p[..c], 10)
      invariant part == BaseValue(p[..c], 10) && magnitude == Pow10(c) && 0 <= part < magnitude
      decreases |s| - c
    {
      BaseValueStep(p, c, 10);
      SignedMagnitude(c + 1);
      var digit := DigitValue(s[c], 10);
      if part * 10 + digit >= 0x8000_0000_0000_0000 || magnitude * 10 >= 0x8000_0000_0000_0000 {
        overflow := true;
        return;
      }
      part, magnitude, c := part * 10 + digit, magnitude * 10, c + 1;
    }
    assert p[..c] == p;
    SignedMagnitude(c);
  }

  lemma SignedMagnitude(k: nat)
    requires k <= 19
    ensures Pow10(k) < 0x8000_0000_0000_0000 <==> k <= 18
  {
    Pow10Exceeds128();
    if k <= 18 {
      Pow10Add(k, 18 - k);
      MulMonotone(1, Pow10(18 - k), Pow10(k));
    }
  }

  /** The string constructor. */
  method Parse(ratio: string) returns (r: ParseOutcome)
    ensures r == RealValue(ratio)
  {
    var c, whole := ReadInteger(ratio);
    if c == 0 && At(ratio, c) != '.' {
      return NotANumber;
    }
    var result := new Real(whole);
    if At(ratio, c) == '.' {
      var frac := ratio[c + 1..];
      var overflow, part, magnitude := ReadFraction(frac);
      if overflow {
        return SignedOverflow;
      }
      if DigitValue(At(frac, 0), 10) >= 0 {
        var f := new Real(part);
        var m := new Real(magnitude);
        var ok := f.Divide(m);
        FractionFits(IntegerDigits(frac));
        result.Add(f);
      } else {
        Wrap128Small(result.fixed);
      }
    } else {
      Wrap128Small(result.fixed);
    }
    r := Parsed(result.fixed);
  }

  lemma FractionFits(frac: string)
    requires AllDigits(frac, 10) && |frac| <= 18
    ensures Wrap128(FractionValue(frac)) == FractionValue(frac)
  {
    var b, p, q := BaseValue(frac, 10), Pow10(|frac|), Pow10(18 - |frac|);
    FractionIsExact(frac);
    BaseValueBound(frac);
    assert p * q == 1_000_000_000_000_000_000 by { Pow10Exceeds128(); Pow10Add(|frac|, 18 - |frac|); }
    MulMonotone(b, p, q);
    Wrap128Small(b * q);
  }

  lemma {:induction false} BaseValueBound(s: string)
    requires AllDigits(s, 10)
    ensures BaseValue(s, 10) < Pow10(|s|)
  {
    if s != [] {
      BaseValueBound(s[..|s| - 1]);
    }
  }
}
