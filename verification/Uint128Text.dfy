/** Conversion of 128-bit numbers to and from text. */
module Uint128Text {
  import opened Words
  import opened Uint128
  import opened Decimal

  // ---------- printing ----------

  /** What a C string read from a buffer holds: the characters before the first NUL. */
  function UntilNul(s: string): string
  {
    if s == [] || s[0] == '\0' then [] else [s[0]] + UntilNul(s[1..])
  }

  lemma {:induction false} UntilNulStops(s: string, rest: string)
    requires '\0' !in s
    requires rest != [] && rest[0] == '\0'
    ensures UntilNul(s + rest) == s
  {
    if s == [] {
      assert s + rest == rest;
    } else {
      assert (s + rest)[1..] == s[1..] + rest;
      UntilNulStops(s[1..], rest);
    }
  }

  /** The string operator. The buffer is static: it starts out zeroed, index 127 is never written, and
      digits are filled in backwards from index 126. */
  method Print(v: U128, sz: array<char>) returns (s: string)
    requires sz.Length == 129 && sz[127] == '\0'
    modifies sz
    ensures sz[127] == '\0'
    ensures s == Text(old(v.Val()))
  {
    if v.IsZero() {
      TextZero();
      s := "0";
    } else {
      s := PrintNonZero(v, sz);
    }
  }

  lemma TextZero()
    ensures Text(0) == "0"
  {
  }

  method PrintNonZero(v: U128, sz: array<char>) returns (s: string)
    requires sz.Length == 129 && sz[127] == '\0' && v.Val() > 0
    modifies sz
    ensures sz[127] == '\0'
    ensures s == Text(old(v.Val()))
  {
    ghost var n := v.Val();
    sz[128] := '\0';
    var ii := new U128(v.hi, v.lo);
    var i := 127;
    FitsIn39Digits(n);
    assert Text(n) + sz[127..127] == Text(n);
    while !ii.IsZero() && i != 0
      invariant Printing(sz, ii, i, n)
      decreases i
    {
      i := WriteDigit(sz, ii, i, n);
    }
    s := FromBuffer(sz, i, n);
  }

  /** The digits of n are those still to be taken from ii, followed by the ones in the buffer, and there is
      room for the rest. */
  ghost predicate Printing(sz: array<char>, ii: U128, i: nat, n: nat)
    reads sz, ii
  {
    && sz.Length == 129 && 88 <= i <= 127 && sz[127] == '\0'
    && ii.Val() < Pow10(i - 88)
    && Printed(n, ii.Val(), sz[i..127])
  }

  method WriteDigit(sz: array<char>, ii: U128, i: nat, ghost n: nat) returns (i': nat)
    requires Printing(sz, ii, i, n) && ii.Val() != 0
    modifies sz, ii
    ensures i' < i && Printing(sz, ii, i', n)
  {
    ghost var m, before := ii.Val(), sz[i..127];
    var d := TakeDigit(ii);
    PrintedStep(n, m, before, ii.Val(), d);
    RoomStep(m, i - 88, ii.Val());
    i' := PlaceBefore(sz, i, Digit(d));
  }

  method PlaceBefore(sz: array<char>, i: nat, c: char) returns (i': nat)
    requires sz.Length == 129 && 0 < i <= 127
    modifies sz
    ensures i' == i - 1 && sz[127] == old(sz[127]) && sz[i'..127] == [c] + old(sz[i..127])
  {
    i' := i - 1;
    sz[i'] := c;
  }

  /** `return &sz[i];` */
  method FromBuffer(sz: array<char>, i: nat, ghost n: nat) returns (s: string)
    requires sz.Length == 129 && i <= 127 && sz[127] == '\0' && Printed(n, 0, sz[i..127])
    ensures s == Text(n)
  {
    s := UntilNul(sz[i..]);
    AllWritten(n, sz[i..127], sz[127..]);
    assert sz[i..] == sz[i..127] + sz[127..];
  }

  lemma AllWritten(n: nat, written: string, rest: string)
    requires Printed(n, 0, written) && rest != [] && rest[0] == '\0'
    ensures UntilNul(written + rest) == Text(n)
  {
    assert [] + written == written;
    TextHasNoNul(n);
    UntilNulStops(written, rest);
  }

  /** The digits of n are those still to be taken from m, followed by the ones written. */
  ghost predicate Printed(n: nat, m: nat, written: string)
  {
    Remaining(m) + written == Text(n)
  }

  lemma RemainingStep(m: nat)
    requires m > 0
    ensures Remaining(m) == Remaining(m / 10) + [Digit(m % 10)]
  {
  }

  lemma PrintedStep(n: nat, m: nat, written: string, q: nat, d: nat)
    requires Printed(n, m, written) && m > 0 && q == m / 10 && d == m % 10
    ensures Printed(n, q, [Digit(d)] + written)
  {
    RemainingStep(m);
    Regrouped(Remaining(q), [Digit(d)], written);
  }

  lemma Regrouped(a: string, b: string, c: string)
    ensures a + b + c == a + (b + c)
  {
  }

  lemma RoomStep(m: nat, room: nat, q: nat)
    requires 0 < m < Pow10(room) && q == m / 10
    ensures room > 0 && q < Pow10(room - 1)
  {
    assert room > 0;
  }

  /** The digits not yet written. */
  ghost function Remaining(m: nat): string { if m == 0 then [] else Text(m) }

  /** `divide(ii, uint128(10), ii, remainder)`: the numerator is also the quotient. */
  method TakeDigit(ii: U128) returns (d: nat)
    modifies ii
    ensures ii.Val() == old(ii.Val()) / 10 && d == old(ii.Val()) % 10
  {
    var remainder := new U128(0, 0);
    var ten := new U128(0, 10);
    var outcome := Divide(ii, ten, ii, remainder);
    d := remainder.lo;
  }

  // ---------- parsing ----------

  /** The number a text denotes, modulo 2^128: an optional minus sign before an unsigned number. */
  ghost function TextValue(s: string): uint128
  {
    if s != [] && s[0] == '-' then Wrap128(-UnsignedValue(s[1..])) else UnsignedValue(s)
  }

  /** A radix prefix (0x, or 0 for octal) and the longest run of digits. */
  ghost function UnsignedValue(body: string): (v: int)
    ensures 0 <= v < 0x1_0000_0000_0000_0000_0000_0000_0000_0000
  {
    Wrap128(BaseValue(DigitsOf(body), RadixOf(body)))
  }

  function RadixOf(body: string): nat
  {
    if body == [] || body[0] != '0' then 10 else if |body| > 1 && body[1] == 'x' then 16 else 8
  }

  function PrefixLength(body: string): (k: nat)
    ensures k <= |body|
  {
    if body == [] || body[0] != '0' then 0 else if |body| > 1 && body[1] == 'x' then 2 else 1
  }

  ghost function DigitsOf(body: string): (p: string)
    ensures AllDigits(p, RadixOf(body))
  {
    DigitPrefixIsLongest(body[PrefixLength(body)..], RadixOf(body));
    DigitPrefix(body[PrefixLength(body)..], RadixOf(body))
  }

  /** The string constructor. */
  method Parse(sz: string) returns (r: U128)
    ensures fresh(r)
    ensures r.Val() == TextValue(sz)
  {
    r := new U128(0, 0);
    if sz != [] {
      var minus := false;
      var i := 0;
      if sz[i] == '-' {
        i := i + 1;
        minus := true;
      }
      ReadUnsigned(sz, i, r);
      assert sz[0..] == sz;
      if minus {
        r := r.Negated();
      }
    }
  }

  method ReadUnsigned(sz: string, start: nat, r: U128)
    requires start <= |sz| && r.Val() == 0
    modifies r
    ensures r.Val() == UnsignedValue(sz[start..])
  {
    var i, radix := start, 10;
    ghost var body := sz[start..];
    if i != |sz| {
      if sz[i] == '0' {
        radix := 8;
        i := i + 1;
        if i != |sz| && sz[i] == 'x' {
          radix := 16;
          i := i + 1;
        }
      }
      assert sz[i..] == body[PrefixLength(body)..] && radix == RadixOf(body);
      ReadDigits(sz, i, radix, r);
    }
  }

  /** `*this *= radix; *this += n;` for each digit. */
  method ReadDigits(sz: string, start: nat, radix: nat, r: U128)
    requires start <= |sz| && 2 <= radix <= 16 && r.Val() == 0
    modifies r
    ensures AllDigits(DigitPrefix(sz[start..], radix), radix)
    ensures r.Val() == Wrap128(BaseValue(DigitPrefix(sz[start..], radix), radix))
  {
    var i := start;
    ghost var p := DigitPrefix(sz[start..], radix);
    DigitPrefixIsLongest(sz[start..], radix);
    while i != |sz|
      invariant start <= i <= |sz| && |p| <= |sz| - start && ReadUpTo(p, i - start, radix, r.Val())
      decreases |sz| - i
    {
      var n := DigitValue(sz[i], radix);
      PrefixGoesOn(sz[start..], radix, i - start);
      if n < 0 { break; }
      ReadDigit(r, p, i - start, radix, n);
      i := i + 1;
    }
    assert p[..i - start] == p;
  }

  /** The number holds the first k digits. */
  ghost predicate ReadUpTo(p: string, k: nat, radix: nat, v: nat)
  {
    k <= |p| && AllDigits(p, radix) && AllDigits(p[..k], radix) && v == Wrap128(BaseValue(p[..k], radix))
  }

  lemma PrefixGoesOn(s: string, radix: nat, k: nat)
    requires k < |s| && k <= |DigitPrefix(s, radix)|
    ensures DigitValue(s[k], radix) >= 0 <==> k < |DigitPrefix(s, radix)|
    ensures k < |DigitPrefix(s, radix)| ==> DigitPrefix(s, radix)[k] == s[k]
  {
    DigitPrefixIsLongest(s, radix);
  }

  method ReadDigit(r: U128, ghost p: string, ghost k: nat, radix: nat, n: nat)
    requires radix <= 16 && k < |p| && ReadUpTo(p, k, radix, r.Val()) && n == DigitValue(p[k], radix) < 16
    modifies r
    ensures ReadUpTo(p, k + 1, radix, r.Val())
  {
    BaseValueStep(p, k, radix);
    AppendDigit(r, radix, n, BaseValue(p[..k], radix));
  }

  method AppendDigit(r: U128, radix: nat, n: nat, ghost t: int)
    requires radix <= 16 && n < 16 && r.Val() == Wrap128(t)
    modifies r
    ensures r.Val() == Wrap128(t * radix + n)
  {
    var f := new U128(0, radix);
    r.Multiply(f);
    Wrap128Mul(t, radix);
    ghost var t' := r.AddWord(n, t * radix);
  }

  /** Parsing decimal text reduces the number modulo 2^128; no printed number is mistaken for octal. */
  lemma ParseText(n: nat)
    ensures TextValue(Text(n)) == Wrap128(n)
  {
    TextDenotes(n);
    var s := Text(n);
    if n == 0 {
      assert s == "0" && s[1..] == [];
      assert DigitsOf(s) == [];
    } else {
      assert s[0] != '-' && s[0] != '0';
      assert s[0..] == s + [] == s;
      DigitPrefixOfDigits(s, [], 10);
    }
  }

  /** Digits after a leading 0x are read as hexadecimal. */
  lemma HexPrefix(p: string)
    requires AllDigits(p, 16)
    ensures TextValue("0x" + p) == Wrap128(BaseValue(p, 16))
  {
    var s := "0x" + p;
    assert s[2..] == p == p + [];
    DigitPrefixOfDigits(p, [], 16);
  }

  /** Digits after a leading 0 are read as octal. */
  lemma OctalPrefix(p: string)
    requires AllDigits(p, 8)
    ensures TextValue("0" + p) == Wrap128(BaseValue(p, 8))
  {
    var s := "0" + p;
    assert s[1..] == p == p + [] && (p != [] ==> s[1] == p[0]);
    DigitPrefixOfDigits(p, [], 8);
  }

  /** A minus sign before a text gives the two's complement of its number. */
  lemma MinusNegates(n: int)
    requires n >= 0
    ensures TextValue("-" + Text(n)) == Wrap128(-n)
  {
    TextDenotes(n);
    ParseText(n);
    assert ("-" + Text(n))[1..] == Text(n);
    NegationWraps(n, Wrap128(n));
  }

  lemma NegationWraps(n: int, w: int)
    requires w == Wrap128(n)
    ensures Wrap128(-w) == Wrap128(-n)
  {
    Wrap128Mul(n, -1);
    assert w * -1 == -w;
  }

  /** Printing then parsing is the identity on every 128-bit number. */
  lemma PrintParse(n: uint128)
    ensures TextValue(Text(n)) == n
  {
    ParseText(n);
    Wrap128Small(n);
  }
}
