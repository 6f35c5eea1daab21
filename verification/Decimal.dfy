/** Positional notation: the text of a number and the number of a text. */
module Decimal {
  import opened Words

  /** The d-th of the digits 0 to 9 and letters a to z. */
  function Digit(d: nat): char
    requires d < 36
  {
    if d < 10 then ('0' as int + d) as char else ('a' as int + d - 10) as char
  }

  /** The value of a character as a digit below the radix, as the parsers test it; -1 if it is not one. */
  function DigitValue(ch: char, radix: nat): (d: int)
    ensures -1 <= d < radix || radix == 0
  {
    if 'A' <= ch <= 'Z' then (if ch as int - 'A' as int + 10 < radix then ch as int - 'A' as int + 10 else -1)
    else if 'a' <= ch <= 'z' then (if ch as int - 'a' as int + 10 < radix then ch as int - 'a' as int + 10 else -1)
    else if '0' <= ch <= '9' then (if ch as int - '0' as int < radix then ch as int - '0' as int else -1)
    else -1
  }

  /** The longest prefix made of digits below the radix. */
  function DigitPrefix(s: string, radix: nat): string
  {
    if s == [] || DigitValue(s[0], radix) < 0 then [] else [s[0]] + DigitPrefix(s[1..], radix)
  }

  ghost predicate AllDigits(s: string, radix: nat)
  {
    forall i :: 0 <= i < |s| ==> DigitValue(s[i], radix) >= 0
  }

  /** The number a string of digits denotes. */
  ghost function BaseValue(s: string, radix: nat): (v: int)
    requires AllDigits(s, radix)
    ensures v >= 0
  {
    if s == [] then 0
    else
      NotNegative(BaseValue(s[..|s| - 1], radix), radix);
      BaseValue(s[..|s| - 1], radix) * radix + DigitValue(s[|s| - 1], radix)
  }

  lemma NotNegative(a: nat, b: nat)
    ensures a * b >= 0
  {
  }

  lemma BaseValueStep(s: string, k: nat, radix: nat)
    requires AllDigits(s, radix) && k < |s|
    ensures AllDigits(s[..k], radix) && AllDigits(s[..k + 1], radix)
    ensures BaseValue(s[..k + 1], radix) == BaseValue(s[..k], radix) * radix + DigitValue(s[k], radix)
  {
    assert s[..k + 1][..k] == s[..k];
  }

  /** Decimal text, without leading zeros. */
  ghost function Text(n: nat): (s: string)
    ensures |s| >= 1
  {
    if n < 10 then [Digit(n)] else Text(n / 10) + [Digit(n % 10)]
  }

  lemma DigitRoundTrip(d: nat)
    requires d < 10
    ensures DigitValue(Digit(d), 10) == d && '0' <= Digit(d) <= '9' && (Digit(d) == '0' <==> d == 0)
  {
  }

  /** Letters are digits from ten on, in either case, below the radix. */
  lemma LetterDigits(k: nat, radix: nat)
    requires k < 26
    ensures DigitValue(('a' as int + k) as char, radix) == (if 10 + k < radix then 10 + k else -1)
    ensures DigitValue(('A' as int + k) as char, radix) == (if 10 + k < radix then 10 + k else -1)
  {
  }

  /** Decimal text consists of digits, starts with a zero only for zero, and denotes its number. */
  lemma {:induction false} TextDenotes(n: nat)
    ensures AllDigits(Text(n), 10) && BaseValue(Text(n), 10) == n
    ensures forall i :: 0 <= i < |Text(n)| ==> '0' <= Text(n)[i] <= '9'
    ensures Text(n)[0] == '0' <==> n == 0
  {
    if n < 10 {
      DigitRoundTrip(n);
      assert Text(n)[..0] == [];
    } else {
      var s, c := Text(n / 10), Digit(n % 10);
      TextDenotes(n / 10);
      DigitRoundTrip(n % 10);
      assert (s + [c])[..|s|] == s;
    }
  }

  lemma TextHasNoNul(n: nat)
    ensures '\0' !in Text(n)
  {
  }

  lemma FitsIn39Digits(n: uint128)
    ensures n < Pow10(39)
  {
    Pow10Exceeds128();
  }

  lemma {:induction false} DigitPrefixOfDigits(s: string, rest: string, radix: nat)
    requires AllDigits(s, radix)
    requires rest == [] || DigitValue(rest[0], radix) < 0
    ensures DigitPrefix(s + rest, radix) == s
  {
    if s == [] {
      assert s + rest == rest;
    } else {
      assert (s + rest)[1..] == s[1..] + rest;
      DigitPrefixOfDigits(s[1..], rest, radix);
    }
  }

  /** The prefix stops exactly at the first character that is not a digit. */
  lemma {:induction false} DigitPrefixIsLongest(s: string, radix: nat)
    ensures var p := DigitPrefix(s, radix);
      p <= s && AllDigits(p, radix) && (|p| < |s| ==> DigitValue(s[|p|], radix) < 0)
  {
    if s != [] && DigitValue(s[0], radix) >= 0 {
      DigitPrefixIsLongest(s[1..], radix);
    }
  }

  function Pow10(n: nat): (p: int)
    ensures p > 0
  {
    if n == 0 then 1 else 10 * Pow10(n - 1)
  }

  lemma {:induction false} Pow10Add(m: nat, n: nat)
    ensures Pow10(m + n) == Pow10(m) * Pow10(n)
  {
    if m != 0 {
      Pow10Add(m - 1, n);
      assert Pow10(m + n) == 10 * (Pow10(m - 1) * Pow10(n));
    }
  }

  /** A 128-bit number has at most 39 decimal digits. */
  lemma Pow10Exceeds128()
    ensures Pow10(18) == 1_000_000_000_000_000_000
    ensures Pow10(39) > 0x1_0000_0000_0000_0000_0000_0000_0000_0000
  {
    assert Pow10(3) == 1000;
    Pow10Add(3, 3);
    assert Pow10(6) == 1_000_000;
    Pow10Add(6, 6);
    Pow10Add(12, 6);
    Pow10Add(18, 18);
    Pow10Add(36, 3);
  }
}
