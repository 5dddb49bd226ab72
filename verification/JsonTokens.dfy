/** The characters and numbers of JSON texts, sections 6 and 7 of RFC 8259 as icecreme/json.c reads them. */
module JsonTokens {
  import opened Util
  import opened Decimal
  import opened SchemeValue
  import opened TextReading
  import opened Json

  // ---- characters

  // A byte that stands for itself, a short escape by its letter, or four hex digits.
  datatype Chr = Plain(b: byte) | Short(letter: byte) | Code(hex: seq<byte>)

  // Quote, backslash, slash, backspace, form feed, line feed, carriage return and tab by their letters.
  const ESCAPES: map<byte, byte> :=
    map[34 := 34, 92 := 92, 47 := 47, 98 := 8, 102 := 12, 110 := 10, 114 := 13, 116 := 9]

  // The hex digits stand for this number.
  ghost predicate HexStandsFor(hex: seq<byte>, cp: nat) {
    && |hex| == 4
    && exists a: nat, b: nat, c: nat, d: nat ::
         IsHex(hex[0], a) && IsHex(hex[1], b) && IsHex(hex[2], c) && IsHex(hex[3], d)
         && cp == a * 0x1000 + b * 0x100 + c * 0x10 + d
  }

  // UTF-8 as section 3 of RFC 3629 defines it, up to three bytes.
  function DecodeUtf8(s: seq<byte>): Option<nat> {
    if |s| == 1 && s[0] < 0x80 then Some(s[0])
    else if |s| == 2 && 0xC0 <= s[0] < 0xE0 && 0x80 <= s[1] < 0xC0 then
      Some((s[0] as int - 0xC0) * 0x40 + (s[1] as int - 0x80))
    else if |s| == 3 && 0xE0 <= s[0] < 0xF0 && 0x80 <= s[1] < 0xC0 && 0x80 <= s[2] < 0xC0 then
      Some((s[0] as int - 0xE0) * 0x1000 + (s[1] as int - 0x80) * 0x40 + (s[2] as int - 0x80))
    else None
  }

  // The bytes decode to the code point, and no fewer bytes do.
  ghost predicate Encodes(s: seq<byte>, cp: nat) {
    DecodeUtf8(s) == Some(cp) && forall t :: DecodeUtf8(t) == Some(cp) ==> |t| >= |s|
  }

  lemma Utf8Encodes(cp: nat)
    requires cp < 0x10000
    ensures Encodes(Utf8(cp), cp)
  {
    var s := Utf8(cp);
    assert cp / 64 % 64 * 64 + cp % 64 + cp / 4096 * 4096 == cp;
    forall t | DecodeUtf8(t) == Some(cp) ensures |t| >= |s| {
    }
  }

  lemma OneEncoding(s: seq<byte>, t: seq<byte>, cp: nat)
    requires Encodes(s, cp) && Encodes(t, cp)
    ensures s == t
  {
    assert |s| == |t|;
    hide Encodes;
    OneDecoding(s, t);
  }

  lemma OneDecoding(s: seq<byte>, t: seq<byte>)
    requires DecodeUtf8(s).Some? && DecodeUtf8(t) == DecodeUtf8(s) && |s| == |t|
    ensures s == t
  {
  }

  ghost predicate ChrOk(c: Chr) {
    match c
    case Plain(b) => b != QUOTE && b != BACKSLASH
    case Short(letter) => letter in ESCAPES
    case Code(hex) => exists cp :: HexStandsFor(hex, cp)
  }

  function ChrText(c: Chr): seq<byte> {
    match c
    case Plain(b) => [b]
    case Short(letter) => [BACKSLASH, letter]
    case Code(hex) => [BACKSLASH, LOWER_U] + hex
  }

  // The bytes that a character stands for.
  ghost predicate ChrMeans(c: Chr, bytes: seq<byte>) {
    match c
    case Plain(b) => bytes == [b]
    case Short(letter) => letter in ESCAPES && bytes == [ESCAPES[letter]]
    case Code(hex) => exists cp :: HexStandsFor(hex, cp) && Encodes(bytes, cp)
  }

  function CharsText(chars: seq<Chr>): seq<byte> {
    if chars == [] then [] else ChrText(chars[0]) + CharsText(chars[1..])
  }

  ghost predicate CharsOk(chars: seq<Chr>) {
    forall k :: 0 <= k < |chars| ==> ChrOk(chars[k])
  }

  lemma HexDigitIs(h: byte, d: nat)
    ensures IsHex(h, d) <==> HexValue(h) == Some(d)
  {
  }

  lemma FourHexDigits(hex: seq<byte>, a: nat, b: nat, c: nat, d: nat)
    requires |hex| == 4 && HexValue(hex[0]) == Some(a) && HexValue(hex[1]) == Some(b)
    requires HexValue(hex[2]) == Some(c) && HexValue(hex[3]) == Some(d)
    ensures CodePoint(hex) == Some(a * 0x1000 + b * 0x100 + c * 0x10 + d)
  {
    hide HexValue;
  }

  lemma HexRead(hex: seq<byte>, cp: nat)
    requires HexStandsFor(hex, cp)
    ensures CodePoint(hex) == Some(cp)
  {
    hide IsHex, HexValue, CodePoint;
    var a: nat, b: nat, c: nat, d: nat :| IsHex(hex[0], a) && IsHex(hex[1], b) && IsHex(hex[2], c) && IsHex(hex[3], d)
      && cp == a * 0x1000 + b * 0x100 + c * 0x10 + d;
    HexDigitIs(hex[0], a);
    HexDigitIs(hex[1], b);
    HexDigitIs(hex[2], c);
    HexDigitIs(hex[3], d);
    FourHexDigits(hex, a, b, c, d);
  }

  lemma HexOf(s: seq<byte>, cp: nat)
    requires |s| >= 4 && CodePoint(s) == Some(cp)
    ensures HexStandsFor(s[..4], cp)
  {
    hide HexValue, IsHex;
    HexDigitIs(s[0], HexValue(s[0]).value);
    HexDigitIs(s[1], HexValue(s[1]).value);
    HexDigitIs(s[2], HexValue(s[2]).value);
    HexDigitIs(s[3], HexValue(s[3]).value);
    var hex := s[..4];
    assert hex[0] == s[0] && hex[1] == s[1] && hex[2] == s[2] && hex[3] == s[3];
  }

  // What a character is read as.
  function ChrBytes(c: Chr): (r: seq<byte>)
    requires ChrOk(c)
    ensures ChrMeans(c, r)
  {
    match c
    case Plain(b) => [b]
    case Short(letter) => [ESCAPES[letter]]
    case Code(hex) =>
      CodeMeans(hex);
      Utf8(CodePoint(hex).value)
  }

  lemma CodeMeans(hex: seq<byte>)
    requires ChrOk(Code(hex))
    ensures |hex| == 4 && CodePoint(hex).Some? && CodePoint(hex).value < 0x10000
    ensures HexStandsFor(hex, CodePoint(hex).value)
    ensures Encodes(Utf8(CodePoint(hex).value), CodePoint(hex).value)
  {
    var cp :| HexStandsFor(hex, cp);
    HexRead(hex, cp);
    CodePointBound(hex);
    Utf8Encodes(cp);
    hide Encodes, Utf8, CodePoint, HexStandsFor;
  }

  function CharsBytes(chars: seq<Chr>): seq<byte>
    requires CharsOk(chars)
  {
    if chars == [] then [] else ChrBytes(chars[0]) + CharsBytes(chars[1..])
  }

  // ---- strings are read as what their characters stand for

  lemma ShortRead(letter: byte, after: seq<byte>)
    requires letter in ESCAPES
    ensures Unescape([letter] + after) == Ok(([ESCAPES[letter]], 1))
  {
  }

  lemma CodeRead(hex: seq<byte>, after: seq<byte>)
    requires |hex| == 4 && CodePoint(hex).Some? && CodePoint(hex).value < 0x10000
    ensures Unescape([LOWER_U] + hex + after) == Ok((Utf8(CodePoint(hex).value), 5))
  {
    var s := [LOWER_U] + hex + after;
    assert s[1..][0] == hex[0] && s[1..][1] == hex[1] && s[1..][2] == hex[2] && s[1..][3] == hex[3];
    assert CodePoint(s[1..]) == CodePoint(hex);
    hide CodePoint, Utf8;
  }

  lemma ChrRead(c: Chr, after: seq<byte>)
    requires ChrOk(c)
    ensures ParseChars(ChrText(c) + after) == After(ChrBytes(c), ParseChars(after))
    ensures ChrText(c) != [] && (ChrText(c) + after)[0] != QUOTE
  {
    var s := ChrText(c) + after;
    CharsStep(s);
    hide ParseChars, Unescape, Utf8, CodePoint, HexStandsFor, Encodes;
    match c
    case Plain(_) =>
      assert s[1..] == after;
    case Short(letter) =>
      ShortRead(letter, after);
      assert s[1..] == [letter] + after && s[2..] == after;
    case Code(hex) =>
      CodeMeans(hex);
      CodeRead(hex, after);
      assert s[1..] == [LOWER_U] + hex + after && s[6..] == after;
  }

  lemma NoChars(rest: seq<byte>)
    ensures ParseChars(CharsText([]) + [QUOTE] + rest) == Ok((CharsBytes([]), rest))
    ensures CharsOk([]) && CharsBytes([]) == [] && CharsText([]) + [QUOTE] + rest == [QUOTE] + rest
  {
    assert CharsText([]) + [QUOTE] + rest == [QUOTE] + rest;
    CharsStep([QUOTE] + rest);
    hide ParseChars;
  }

  // Characters taken apart after the first one.
  lemma CharsParts(chars: seq<Chr>, rest: seq<byte>)
    requires chars != []
    ensures CharsOk(chars) <==> ChrOk(chars[0]) && CharsOk(chars[1..])
    ensures CharsText(chars) + [QUOTE] + rest == ChrText(chars[0]) + (CharsText(chars[1..]) + [QUOTE] + rest)
    ensures CharsOk(chars) ==> CharsBytes(chars) == ChrBytes(chars[0]) + CharsBytes(chars[1..])
  {
    assert CharsText(chars) == ChrText(chars[0]) + CharsText(chars[1..]);
    assert CharsOk(chars[1..]) ==> forall k :: 0 < k < |chars| ==> chars[k] == chars[1..][k - 1] && ChrOk(chars[k]);
    hide CharsText, ChrText, ChrBytes, ChrOk;
    Regroup(ChrText(chars[0]), CharsText(chars[1..]), [QUOTE], rest);
  }

  lemma {:induction false} CharsRead(chars: seq<Chr>, rest: seq<byte>)
    requires CharsOk(chars)
    ensures ParseChars(CharsText(chars) + [QUOTE] + rest) == Ok((CharsBytes(chars), rest))
  {
    hide *;
    if chars == [] {
      NoChars(rest);
    } else {
      CharsParts(chars, rest);
      CharsRead(chars[1..], rest);
      ChrRead(chars[0], CharsText(chars[1..]) + [QUOTE] + rest);
      AfterEnd(ChrBytes(chars[0]), ParseChars(CharsText(chars[1..]) + [QUOTE] + rest));
    }
  }

  // The first character of a text that is read as one.
  lemma FirstChr(s: seq<byte>) returns (c: Chr)
    requires s != [] && s[0] != QUOTE && (s[0] == BACKSLASH ==> Unescape(s[1..]).Ok?)
    ensures ChrOk(c) && |ChrText(c)| <= |s| && ChrText(c) == s[..|ChrText(c)|]
  {
    if s[0] != BACKSLASH {
      c := Plain(s[0]);
    } else if s[1] == LOWER_U {
      var hex := s[2..6];
      c := Code(hex);
      assert s[1..][1..][..4] == hex;
      HexOf(s[1..][1..], CodePoint(s[1..][1..]).value);
      hide CodePoint, HexStandsFor;
      assert ChrText(c) == s[..6];
    } else {
      c := Short(s[1]);
      assert ChrText(c) == s[..2];
    }
  }

  // What is read as characters is characters.
  lemma {:induction false} CharsOf(s: seq<byte>) returns (chars: seq<Chr>)
    requires ParseChars(s).Ok?
    ensures CharsOk(chars) && s == CharsText(chars) + [QUOTE] + ParseChars(s).value.1
    ensures CharsBytes(chars) == ParseChars(s).value.0
    decreases |s|
  {
    hide *;
    CharsStep(s);
    if s[0] == QUOTE {
      chars := [];
      NoChars(s[1..]);
      assert s == [QUOTE] + s[1..];
    } else {
      var c := FirstChr(s);
      var n := |ChrText(c)|;
      assert s == ChrText(c) + s[n..];
      ChrRead(c, s[n..]);
      AfterEnd(ChrBytes(c), ParseChars(s[n..]));
      var more := CharsOf(s[n..]);
      chars := [c] + more;
      assert chars[1..] == more;
      CharsParts(chars, ParseChars(s).value.1);
    }
  }

  // ---- numbers

  datatype Exponent = Exponent(mark: byte, sign: seq<byte>, digits: seq<byte>)

  // Wider than section 6 of RFC 8259: zeros in front are accepted, and each run of digits may be empty, but not the
  // whole number.
  datatype Number = Number(negative: bool, whole: seq<byte>, fraction: Option<seq<byte>>, exponent: Option<Exponent>)

  ghost predicate ExponentOk(e: Exponent) {
    && (e.mark == 101 || e.mark == 69) && (e.sign == [] || e.sign == [43] || e.sign == [MINUS]) && AllDigits(e.digits)
  }

  ghost predicate NumberOk(n: Number) {
    && AllDigits(n.whole) && (n.fraction.Some? ==> AllDigits(n.fraction.value))
    && (n.exponent.Some? ==> ExponentOk(n.exponent.value))
    && (n.whole == [] ==> n.negative && (n.fraction.Some? || n.exponent.Some?))
  }

  function SignText(negative: bool): seq<byte> {
    if negative then [MINUS] else []
  }

  function FractionText(f: Option<seq<byte>>): seq<byte> {
    if f.Some? then [DOT] + f.value else []
  }

  function ExponentText(e: Option<Exponent>): seq<byte> {
    if e.Some? then [e.value.mark] + e.value.sign + e.value.digits else []
  }

  function NumberText(n: Number): seq<byte> {
    SignText(n.negative) + n.whole + FractionText(n.fraction) + ExponentText(n.exponent)
  }

  // An integer that fits 64 bits, or the text that strtod is given.
  ghost function NumberValue(n: Number): Option<Value>
    requires NumberOk(n)
  {
    if n.fraction.Some? || n.exponent.Some? then Some(Float(NumberText(n)))
    else
      var i := if n.negative then 0 - (DigitsValue(n.whole) as int) else DigitsValue(n.whole);
      if -0x8000_0000_0000_0000 <= i < 0x8000_0000_0000_0000 then Some(Value.Int(i)) else None
  }

  // What may follow a number without becoming part of it.
  predicate Delimits(rest: seq<byte>) {
    rest == [] || IsSpace(rest[0]) || rest[0] == COMMA || rest[0] == CLOSE_BRACKET || rest[0] == CLOSE_BRACE
  }

  lemma IntegerPart(n: Number, rest: seq<byte>)
    requires NumberOk(n) && (rest == [] || !IsDigit(rest[0]))
    ensures IntegerLength(SignText(n.negative) + n.whole + rest) == |SignText(n.negative) + n.whole|
  {
    CountExactly(n.whole, rest);
    var s := SignText(n.negative) + n.whole + rest;
    hide CountDigits;
    if n.negative {
      assert s[1..] == n.whole + rest;
    } else {
      assert s == n.whole + rest && s[0] == n.whole[0];
    }
  }

  lemma FractionPart(f: Option<seq<byte>>, rest: seq<byte>)
    requires f.Some? ==> AllDigits(f.value)
    requires rest == [] || (!IsDigit(rest[0]) && rest[0] != DOT)
    ensures FractionLength(FractionText(f) + rest) == |FractionText(f)|
  {
    if f.Some? {
      CountExactly(f.value, rest);
      assert ([DOT] + f.value + rest)[1..] == f.value + rest;
    } else {
      assert [] + rest == rest;
    }
    hide CountDigits;
  }

  lemma SignedExponent(mark: byte, sign: seq<byte>, digits: seq<byte>, rest: seq<byte>)
    requires ExponentOk(Exponent(mark, sign, digits)) && (rest == [] || !IsDigit(rest[0]))
    requires digits + rest == [] || ((digits + rest)[0] != 43 && (digits + rest)[0] != MINUS)
    ensures ExponentLength([mark] + (sign + (digits + rest))) == 1 + |sign| + |digits|
  {
    CountExactly(digits, rest);
    var t := digits + rest;
    var s := [mark] + (sign + t);
    hide CountDigits;
    if sign == [] {
      assert [] + t == t && s[1..] == t;
    } else {
      assert s[1] == sign[0] && s[2..] == t;
    }
  }

  lemma ExponentForms(e: Option<Exponent>, rest: seq<byte>)
    requires (e.Some? ==> ExponentOk(e.value)) && Delimits(rest)
    ensures e.None? ==> ExponentText(e) + rest == rest && ExponentText(e) == [] && ExponentLength(rest) == 0
    ensures e.Some? ==>
      var x := e.value;
      && ExponentText(e) + rest == [x.mark] + (x.sign + (x.digits + rest))
      && |ExponentText(e)| == 1 + |x.sign| + |x.digits|
      && ExponentOk(Exponent(x.mark, x.sign, x.digits))
  {
    if e.Some? {
      var x := e.value;
      assert [x.mark] + x.sign + x.digits + rest == [x.mark] + (x.sign + (x.digits + rest));
    } else {
      assert [] + rest == rest;
    }
    hide ExponentLength;
  }

  lemma DigitsThen(digits: seq<byte>, rest: seq<byte>)
    requires AllDigits(digits) && Delimits(rest)
    ensures digits + rest == [] || ((digits + rest)[0] != 43 && (digits + rest)[0] != MINUS)
    ensures rest == [] || !IsDigit(rest[0])
  {
    if digits == [] {
      assert digits + rest == rest;
    } else {
      assert (digits + rest)[0] == digits[0] && IsDigit(digits[0]);
    }
  }

  lemma ExponentPart(e: Option<Exponent>, rest: seq<byte>)
    requires (e.Some? ==> ExponentOk(e.value)) && Delimits(rest)
    ensures ExponentLength(ExponentText(e) + rest) == |ExponentText(e)|
  {
    ExponentForms(e, rest);
    if e.Some? {
      assert AllDigits(e.value.digits);
      hide *;
      DigitsThen(e.value.digits, rest);
      SignedExponent(e.value.mark, e.value.sign, e.value.digits, rest);
    } else {
      hide *;
    }
  }

  lemma NumberParts(n: Number, rest: seq<byte>)
    ensures var a, f, e := SignText(n.negative) + n.whole, FractionText(n.fraction), ExponentText(n.exponent);
      var s := NumberText(n) + rest;
      && s == a + (f + (e + rest)) && s[|a|..] == f + (e + rest) && s[|a| + |f|..] == e + rest
      && |NumberText(n)| == |a| + |f| + |e|
  {
    var a, f, e := SignText(n.negative) + n.whole, FractionText(n.fraction), ExponentText(n.exponent);
    assert NumberText(n) == a + f + e;
    hide *;
    assert a + f + e + rest == a + (f + (e + rest));
  }

  lemma PartStarts(f: seq<byte>, e: seq<byte>, rest: seq<byte>)
    requires (f == [] || f[0] == DOT) && (e == [] || e[0] == 101 || e[0] == 69) && Delimits(rest)
    ensures e + rest == [] || (!IsDigit((e + rest)[0]) && (e + rest)[0] != DOT)
    ensures f + (e + rest) == [] || !IsDigit((f + (e + rest))[0])
  {
    assert e == [] ==> e + rest == rest;
    assert f == [] ==> f + (e + rest) == e + rest;
  }

  lemma NumberExtends(n: Number, rest: seq<byte>)
    requires NumberOk(n) && Delimits(rest)
    ensures NumberLength(NumberText(n) + rest) == (|NumberText(n)|, n.fraction.Some? || n.exponent.Some?)
  {
    hide *;
    var a, f, e := SignText(n.negative) + n.whole, FractionText(n.fraction), ExponentText(n.exponent);
    PartShapes(n);
    PartStarts(f, e, rest);
    NumberParts(n, rest);
    IntegerPart(n, f + (e + rest));
    FractionPart(n.fraction, e + rest);
    ExponentPart(n.exponent, rest);
    LengthIs(NumberText(n) + rest, |a|, |f|, |e|);
  }

  lemma LengthIs(s: seq<byte>, n: nat, f: nat, e: nat)
    requires IntegerLength(s) == n <= n + f <= |s| && FractionLength(s[n..]) == f && ExponentLength(s[n + f..]) == e
    ensures NumberLength(s) == (n + f + e, f + e > 0)
  {
    hide IntegerLength, FractionLength, ExponentLength;
  }

  lemma PartShapes(n: Number)
    requires NumberOk(n)
    ensures n.fraction.Some? ==> AllDigits(n.fraction.value)
    ensures n.exponent.Some? ==> ExponentOk(n.exponent.value)
    ensures var f, e := FractionText(n.fraction), ExponentText(n.exponent);
      && (if n.fraction.Some? then f != [] && f[0] == DOT else f == [])
      && (if n.exponent.Some? then e != [] && (e[0] == 101 || e[0] == 69) else e == [])
  {
  }

  lemma IntegerMeans(n: Number)
    requires NumberOk(n) && n.fraction.None? && n.exponent.None?
    ensures ParseInteger(NumberText(n))
      == Some(if n.negative then 0 - (DigitsValue(n.whole) as int) else DigitsValue(n.whole))
  {
    var s := SignText(n.negative) + n.whole;
    assert NumberText(n) == s;
    if n.negative {
      assert s[1..] == n.whole && forall k :: 1 <= k < |s| ==> s[k] == n.whole[k - 1];
    } else {
      assert s == n.whole && IsDigit(s[0]);
    }
    hide DigitsValue;
  }

  lemma NumberRead(n: Number, rest: seq<byte>)
    requires NumberOk(n) && Delimits(rest)
    ensures ParseNumber(NumberText(n) + rest)
      == match NumberValue(n) {
        case None => Abort
        case Some(v) => Ok((v, rest))
      }
  {
    var text := NumberText(n);
    var s := text + rest;
    NumberExtends(n, rest);
    assert s[..|text|] == text && s[|text|..] == rest;
    assert text != [] && text != [MINUS];
    if n.fraction.None? && n.exponent.None? {
      IntegerMeans(n);
    }
    hide NumberLength, NumberText, ParseInteger, DigitsValue;
  }

  lemma NumberStarts(n: Number)
    requires NumberOk(n)
    ensures NumberText(n) != [] && (NumberText(n)[0] == MINUS || IsDigit(NumberText(n)[0]))
  {
  }

  // What is read as a number is one.

  lemma IntegerOf(s: seq<byte>) returns (negative: bool, whole: seq<byte>)
    ensures SignText(negative) + whole == s[..IntegerLength(s)] && AllDigits(whole)
    ensures s != [] && IsDigit(s[0]) ==> whole != []
    ensures s != [] && s[0] == MINUS ==> negative
  {
    negative := s != [] && s[0] == MINUS;
    var t := if negative then s[1..] else s;
    DigitsCounted(t);
    whole := t[..CountDigits(t)];
    assert negative ==> s[..IntegerLength(s)] == [MINUS] + whole;
    assert !negative ==> [] + whole == whole;
  }

  lemma FractionOf(s: seq<byte>) returns (f: Option<seq<byte>>)
    ensures FractionText(f) == s[..FractionLength(s)] && (f.Some? ==> AllDigits(f.value))
    ensures f.Some? <==> FractionLength(s) > 0
  {
    if s != [] && s[0] == DOT {
      DigitsCounted(s[1..]);
      f := Some(s[1..][..CountDigits(s[1..])]);
    } else {
      f := None;
    }
  }

  lemma ExponentSplit(s: seq<byte>) returns (sign: seq<byte>, t: seq<byte>)
    requires s != [] && (s[0] == 101 || s[0] == 69)
    ensures s == [s[0]] + sign + t && ExponentLength(s) == 1 + |sign| + CountDigits(t)
    ensures sign == [] || sign == [43] || sign == [MINUS]
  {
    hide CountDigits;
    if |s| > 1 && (s[1] == 43 || s[1] == MINUS) {
      sign, t := [s[1]], s[2..];
    } else {
      sign, t := [], s[1..];
    }
  }

  lemma ExponentOf(s: seq<byte>) returns (e: Option<Exponent>)
    ensures ExponentText(e) == s[..ExponentLength(s)] && (e.Some? ==> ExponentOk(e.value))
    ensures e.Some? <==> ExponentLength(s) > 0
  {
    if s != [] && (s[0] == 101 || s[0] == 69) {
      hide CountDigits, ExponentLength, AllDigits;
      var sign, t := ExponentSplit(s);
      DigitsCounted(t);
      var digits := t[..CountDigits(t)];
      e := Some(Exponent(s[0], sign, digits));
      PrefixOf([s[0]] + sign, t, CountDigits(t));
    } else {
      e := None;
    }
  }

  lemma PrefixOf(a: seq<byte>, t: seq<byte>, k: nat)
    requires k <= |t|
    ensures (a + t)[..|a| + k] == a + t[..k]
  {
  }

  lemma TextOfParts(n: Number, s: seq<byte>, i: nat, f: nat, e: nat)
    requires i + f + e <= |s|
    requires SignText(n.negative) + n.whole == s[..i] && FractionText(n.fraction) == s[i..][..f]
    requires ExponentText(n.exponent) == s[i + f..][..e]
    ensures NumberText(n) == s[..i + f + e]
  {
    assert NumberText(n) == s[..i] + s[i..][..f] + s[i + f..][..e];
    hide *;
    assert s[..i] + s[i..][..f] + s[i + f..][..e] == s[..i + f + e];
  }

  lemma TokenOf(s: seq<byte>) returns (n: Number)
    requires s != [] && (s[0] == MINUS || IsDigit(s[0])) && s[..NumberLength(s).0] != [MINUS]
    ensures NumberOk(n) && NumberText(n) == s[..NumberLength(s).0]
    ensures NumberLength(s).1 <==> n.fraction.Some? || n.exponent.Some?
  {
    hide *;
    var i := IntegerLength(s);
    var f := FractionLength(s[i..]);
    var e := ExponentLength(s[i + f..]);
    LengthIs(s, i, f, e);
    var negative, whole := IntegerOf(s);
    var fraction := FractionOf(s[i..]);
    var exponent := ExponentOf(s[i + f..]);
    n := Number(negative, whole, fraction, exponent);
    TextOfParts(n, s, i, f, e);
    PartsOk(n, s[0]);
  }

  lemma PartsOk(n: Number, first: byte)
    requires AllDigits(n.whole) && (n.fraction.Some? ==> AllDigits(n.fraction.value))
    requires n.exponent.Some? ==> ExponentOk(n.exponent.value)
    requires first == MINUS || IsDigit(first)
    requires NumberText(n) != [MINUS] && (IsDigit(first) ==> n.whole != []) && (first == MINUS ==> n.negative)
    ensures NumberOk(n)
  {
    OnlySign(n);
    hide ExponentOk, NumberText;
  }

  lemma OnlySign(n: Number)
    ensures n.whole == [] && n.fraction.None? && n.exponent.None? ==> NumberText(n) == SignText(n.negative)
  {
  }

  lemma ParsedToken(s: seq<byte>)
    requires s != [] && ParseNumber(s).Ok?
    ensures var (n, isFloat) := NumberLength(s);
      var (v, rest) := ParseNumber(s).value;
      && s[..n] != [MINUS] && rest == s[n..]
      && (isFloat ==> v == Float(s[..n]))
      && (!isFloat ==>
            ParseInteger(s[..n]).Some?
            && var i := ParseInteger(s[..n]).value;
               -0x8000_0000_0000_0000 <= i < 0x8000_0000_0000_0000 && v == Value.Int(i))
  {
    hide NumberLength, ParseInteger;
  }

  lemma NumberOf(s: seq<byte>) returns (n: Number)
    requires s != [] && (s[0] == MINUS || IsDigit(s[0])) && ParseNumber(s).Ok?
    ensures NumberOk(n) && s == NumberText(n) + ParseNumber(s).value.1
    ensures NumberValue(n) == Some(ParseNumber(s).value.0)
  {
    ParsedToken(s);
    n := TokenOf(s);
    if n.fraction.None? && n.exponent.None? {
      IntegerMeans(n);
    }
    hide NumberLength, NumberText, NumberOk, ParseNumber, ParseInteger, DigitsValue;
  }
}
