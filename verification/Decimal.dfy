/** Bytes, and the decimal text of an integer as printf("%lld") and mpz_get_str write it. */
module Decimal {
  import opened Util

  type byte = b: int | 0 <= b < 256

  const MINUS: byte := 45
  const ZERO: byte := 48

  predicate IsDigit(b: byte) {
    48 <= b <= 57
  }

  ghost predicate AllDigits(s: seq<byte>) {
    forall k :: 0 <= k < |s| ==> IsDigit(s[k])
  }

  function Digits(n: nat): (r: seq<byte>)
    ensures |r| >= 1 && AllDigits(r)
    ensures r[0] == ZERO ==> n == 0 && |r| == 1
  {
    if n < 10 then [ZERO + n] else Digits(n / 10) + [ZERO + n % 10]
  }

  function DecimalText(n: int): (r: seq<byte>)
    ensures |r| >= 1
  {
    if n < 0 then [MINUS] + Digits(-n) else Digits(n)
  }

  function DigitsValue(s: seq<byte>): nat
    requires forall k :: 0 <= k < |s| ==> IsDigit(s[k])
  {
    if s == [] then 0
    else
      assert IsDigit(s[|s| - 1]);
      10 * DigitsValue(s[..|s| - 1]) + (s[|s| - 1] - ZERO)
  }

  lemma {:induction false} DigitsRoundTrip(n: nat)
    ensures DigitsValue(Digits(n)) == n
  {
    if n >= 10 {
      DigitsRoundTrip(n / 10);
      assert Digits(n)[..|Digits(n)| - 1] == Digits(n / 10);
    }
  }

  // An optional minus sign and one or more digits, and nothing else.
  function ParseInteger(s: seq<byte>): Option<int> {
    if s != [] && s[0] == MINUS then
      if |s| > 1 && forall k :: 1 <= k < |s| ==> IsDigit(s[k]) then Some(0 - DigitsValue(s[1..])) else None
    else
      if s != [] && forall k :: 0 <= k < |s| ==> IsDigit(s[k]) then Some(DigitsValue(s)) else None
  }

  lemma IntegerRoundTrip(n: int)
    ensures ParseInteger(DecimalText(n)) == Some(n)
  {
    DigitsRoundTrip(if n < 0 then -n else n);
    if n < 0 {
      assert DecimalText(n)[1..] == Digits(-n);
      forall k | 1 <= k < |DecimalText(n)| ensures IsDigit(DecimalText(n)[k]) {
        assert IsDigit(Digits(-n)[k - 1]);
      }
    } else {
      assert IsDigit(Digits(n)[0]);
    }
  }

  // No superfluous zero in front, and no minus sign before a zero.
  predicate PlainNumeral(s: seq<byte>) {
    && s != []
    && (s[0] == ZERO ==> |s| == 1)
    && (s[0] == MINUS ==> |s| > 1 && s[1] != ZERO)
  }

  lemma {:induction false} LeadingDigit(s: seq<byte>)
    requires AllDigits(s) && s != [] && s[0] != ZERO
    ensures DigitsValue(s) > 0
  {
    if |s| > 1 {
      LeadingDigit(s[..|s| - 1]);
    }
  }

  lemma {:induction false} DigitsOfValue(s: seq<byte>)
    requires AllDigits(s) && s != [] && (s[0] == ZERO ==> |s| == 1)
    ensures Digits(DigitsValue(s)) == s
  {
    var n := |s| - 1;
    var d := s[n] - ZERO;
    assert IsDigit(s[n]) && AllDigits(s[..n]) && s == s[..n] + [s[n]];
    assert DigitsValue(s) == 10 * DigitsValue(s[..n]) + d;
    if n == 0 {
      assert DigitsValue(s[..0]) == 0 && s[..0] == [];
      assert Digits(d) == [ZERO + d];
    } else {
      DigitsOfValue(s[..n]);
      LeadingDigit(s[..n]);
      hide Digits, DigitsValue;
      OneMoreDigit(DigitsValue(s[..n]), d);
    }
  }

  lemma OneMoreDigit(a: nat, d: nat)
    requires a > 0 && d < 10
    ensures Digits(10 * a + d) == Digits(a) + [ZERO + d]
  {
    assert (10 * a + d) / 10 == a && (10 * a + d) % 10 == d;
  }

  lemma DecimalTextIsPlain(n: int)
    ensures PlainNumeral(DecimalText(n))
  {
    hide Digits;
    if n < 0 {
      assert DecimalText(n)[1] == Digits(-n)[0];
    }
  }

  lemma PlainIsDecimalText(s: seq<byte>)
    requires PlainNumeral(s) && ParseInteger(s).Some?
    ensures s == DecimalText(ParseInteger(s).value)
  {
    hide DigitsValue, Digits;
    if s[0] == MINUS {
      assert AllDigits(s[1..]) && s == [MINUS] + s[1..];
      LeadingDigit(s[1..]);
      DigitsOfValue(s[1..]);
    } else {
      DigitsOfValue(s);
    }
  }

  // The text of an integer is the one plain numeral that stands for it.
  lemma PlainNumeralIs(s: seq<byte>, n: int)
    ensures ParseInteger(s) == Some(n) && PlainNumeral(s) <==> s == DecimalText(n)
  {
    IntegerRoundTrip(n);
    DecimalTextIsPlain(n);
    hide *;
    if ParseInteger(s) == Some(n) && PlainNumeral(s) {
      PlainIsDecimalText(s);
    }
  }

  // How many digits a text starts with.
  function CountDigits(s: seq<byte>): (n: nat)
    ensures n <= |s|
  {
    if s != [] && IsDigit(s[0]) then 1 + CountDigits(s[1..]) else 0
  }

  lemma {:induction false} DigitsCounted(s: seq<byte>)
    ensures AllDigits(s[..CountDigits(s)])
  {
    if s != [] && IsDigit(s[0]) {
      DigitsCounted(s[1..]);
      assert s[..CountDigits(s)] == [s[0]] + s[1..][..CountDigits(s[1..])];
    }
  }

  lemma {:induction false} CountExactly(digits: seq<byte>, rest: seq<byte>)
    requires AllDigits(digits) && (rest == [] || !IsDigit(rest[0]))
    ensures CountDigits(digits + rest) == |digits|
  {
    if digits != [] {
      assert (digits + rest)[1..] == digits[1..] + rest;
      CountExactly(digits[1..], rest);
    } else {
      assert digits + rest == rest;
    }
  }

  // The bytes of a text in ASCII.
  function Ascii(s: string): (r: seq<byte>)
    requires forall k :: 0 <= k < |s| ==> s[k] < 128 as char
    ensures |r| == |s| && forall k :: 0 <= k < |r| ==> r[k] == s[k] as int
  {
    seq(|s|, k requires 0 <= k < |s| => s[k] as int)
  }

  lemma Signs()
    ensures [MINUS] == Ascii("-") && [ZERO] == Ascii("0")
    ensures forall b: byte :: IsDigit(b) <==> b in Ascii("0123456789")
  {
    var row := Ascii("0123456789");
    assert forall b: byte :: IsDigit(b) ==> row[b - 48] == b;
  }

  // ---- hex digits, by their place in the row of all of them

  const LOWER_HEX: seq<byte> := [48, 49, 50, 51, 52, 53, 54, 55, 56, 57, 97, 98, 99, 100, 101, 102]
  const UPPER_HEX: seq<byte> := [48, 49, 50, 51, 52, 53, 54, 55, 56, 57, 65, 66, 67, 68, 69, 70]

  predicate IsHex(h: byte, d: nat) {
    d < 16 && (LOWER_HEX[d] == h || UPPER_HEX[d] == h)
  }

  // ---- little-endian words

  function LittleEndian(n: nat, width: nat): (r: seq<byte>)
    ensures |r| == width
  {
    if width == 0 then [] else [n % 256] + LittleEndian(n / 256, width - 1)
  }

  function Unsigned(s: seq<byte>): nat {
    if s == [] then 0 else s[0] + 256 * Unsigned(s[1..])
  }

  function Pow256(n: nat): (r: nat)
    ensures r > 0
  {
    if n == 0 then 1 else 256 * Pow256(n - 1)
  }

  lemma {:induction false} LittleEndianRoundTrip(n: nat, width: nat)
    requires n < Pow256(width)
    ensures Unsigned(LittleEndian(n, width)) == n
  {
    if width > 0 {
      LittleEndianRoundTrip(n / 256, width - 1);
      assert LittleEndian(n, width)[1..] == LittleEndian(n / 256, width - 1);
    }
  }

  // The last byte counts most.
  lemma {:induction false} HighByteLast(s: seq<byte>)
    requires s != []
    ensures Unsigned(s) == Unsigned(s[..|s| - 1]) + Pow256(|s| - 1) * s[|s| - 1]
  {
    if |s| == 1 {
      assert s[1..] == [] && s[..0] == [] && Unsigned([]) == 0 && Pow256(0) == 1;
    } else {
      var t, n := s[1..], |s| - 1;
      HighByteLast(t);
      assert t[..n - 1] == s[..n][1..];
      MovedPlace(Pow256(n - 1), s[n]);
    }
  }

  lemma MovedPlace(p: nat, b: nat)
    ensures 256 * (p * b) == (256 * p) * b
  {
  }

  lemma Pow256Values()
    ensures Pow256(3) == 0x100_0000 && Pow256(4) == 0x1_0000_0000 && Pow256(8) == 0x1_0000_0000_0000_0000
  {
    assert Pow256(2) == 0x1_0000;
    assert Pow256(4) == 0x1_0000_0000;
    assert Pow256(6) == 0x1_0000_0000_0000;
  }

  // Two's complement.
  function Signed(s: seq<byte>): int {
    var u := Unsigned(s);
    if u < Pow256(|s|) / 2 then u else u - Pow256(|s|)
  }

  function SignedLittleEndian(n: int, width: nat): (r: seq<byte>)
    requires 0 - Pow256(width) <= n < Pow256(width)
    ensures |r| == width
  {
    LittleEndian(if n < 0 then n + Pow256(width) else n, width)
  }

  lemma SignedRoundTrip(n: int, width: nat)
    requires width > 0 && 0 - Pow256(width) / 2 <= n < Pow256(width) / 2
    ensures Signed(SignedLittleEndian(n, width)) == n
  {
    LittleEndianRoundTrip(if n < 0 then n + Pow256(width) else n, width);
  }
}
