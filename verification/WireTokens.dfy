/** Which tokens of a message are numbers: what strtoll and strtod (sections 7.22.1.3 and 7.22.1.4 of ISO C11) take
    whole. */
module WireTokens {
  import opened Util
  import opened Decimal
  import opened SchemeValue
  import opened Wire

  // ---- the grammar

  datatype Mantissa = Mantissa(whole: Bytes, pointed: bool, fraction: Bytes)

  datatype Scale = Scale(mark: byte, sign: Bytes, digits: Bytes)

  // Digits with an optional point and an optional exponent, in base ten or, after 0x, in base sixteen; or one of the
  // words inf, infinity and nan.
  datatype Numeral =
    | InTens(m: Mantissa, scale: Option<Scale>)
    | InHex(x: byte, m: Mantissa, scale: Option<Scale>)
    | Word(letters: Bytes)

  function MantissaText(m: Mantissa): Bytes {
    m.whole + if m.pointed then [DOT] + m.fraction else []
  }

  function ScaleText(e: Option<Scale>): Bytes {
    if e.Some? then [e.value.mark] + (e.value.sign + e.value.digits) else []
  }

  function NumeralText(n: Numeral): Bytes {
    match n
    case InTens(m, scale) => MantissaText(m) + ScaleText(scale)
    case InHex(x, m, scale) => [ZERO, x] + (MantissaText(m) + ScaleText(scale))
    case Word(letters) => letters
  }

  predicate IsSign(sign: Bytes) {
    sign == [] || sign == [43] || sign == [MINUS]
  }

  // A letter in either case.
  predicate SameLetter(c: byte, lower: byte) {
    c == lower || (97 <= lower <= 122 && c == lower - 32)
  }

  predicate Spells(s: Bytes, word: Bytes) {
    |s| == |word| && forall k :: 0 <= k < |s| ==> SameLetter(s[k], word[k])
  }

  predicate DigitsIn(s: Bytes, base: nat) {
    forall k :: 0 <= k < |s| ==> IsDigitIn(s[k], base)
  }

  predicate MantissaOk(m: Mantissa, base: nat) {
    && DigitsIn(m.whole, base) && DigitsIn(m.fraction, base)
    && (!m.pointed ==> m.fraction == []) && !(m.whole == [] && m.fraction == [])
  }

  predicate ScaleOk(e: Option<Scale>, mark: byte) {
    e.Some? ==> SameLetter(e.value.mark, mark) && IsSign(e.value.sign) && IsNumeral(e.value.digits)
  }

  predicate NumeralOk(n: Numeral) {
    match n
    case InTens(m, scale) => MantissaOk(m, 10) && ScaleOk(scale, 101)
    case InHex(x, m, scale) => (x == 120 || x == 88) && MantissaOk(m, 16) && ScaleOk(scale, 112)
    case Word(letters) => Spells(letters, INF) || Spells(letters, INFINITY) || Spells(letters, NAN)
  }

  // C's white space, a sign, and a numeral.
  ghost predicate NumberToken(tok: Bytes) {
    exists gap, sign, n :: CSpaces(gap) && IsSign(sign) && NumeralOk(n) && tok == gap + (sign + NumeralText(n))
  }

  predicate CSpaces(s: Bytes) {
    forall k :: 0 <= k < |s| ==> IsCSpace(s[k])
  }

  // ---- lower case

  lemma LowerAt(s: Bytes)
    ensures |Lower(s)| == |s| && forall k :: 0 <= k < |s| ==> SameLetter(s[k], Lower(s)[k])
    ensures forall k :: 0 <= k < |s| && !(65 <= s[k] <= 90) ==> Lower(s)[k] == s[k]
  {
  }

  lemma LowerOf(s: Bytes, word: Bytes)
    requires forall k :: 0 <= k < |word| ==> 97 <= word[k] <= 122
    ensures Spells(s, word) <==> Lower(s) == word
  {
  }

  lemma LowerApart(a: Bytes, b: Bytes)
    ensures Lower(a + b) == Lower(a) + Lower(b)
  {
  }

  lemma LowerDigit(c: byte, base: nat)
    ensures IsDigitIn(if 65 <= c <= 90 then c + 32 else c, base) <==> IsDigitIn(c, base)
  {
  }

  lemma LowerDigits(s: Bytes, base: nat)
    ensures DigitsIn(Lower(s), base) <==> DigitsIn(s, base)
  {
    forall k | 0 <= k < |s| ensures IsDigitIn(Lower(s)[k], base) <==> IsDigitIn(s[k], base) {
      LowerDigit(s[k], base);
    }
    hide IsDigitIn;
    assert |Lower(s)| == |s|;
  }

  // ---- mantissas and exponents

  // A mantissa of digits, as it lies in a text.
  lemma MantissaLies(m: Mantissa, base: nat, rest: Bytes)
    requires MantissaOk(m, base)
    ensures var s, i, e := Lower(MantissaText(m)) + rest, |m.whole|, |MantissaText(m)|;
      IsMantissa(s, i, e, base) && s[e..] == rest
  {
    var l := Lower(MantissaText(m));
    var s, i, e := l + rest, |m.whole|, |MantissaText(m)|;
    assert s[e..] == rest;
    forall k | 0 <= k < e && k != i ensures IsDigitIn(s[k], base) {
      var c := MantissaText(m)[k];
      assert c == if k < i then m.whole[k] else m.fraction[k - i - 1];
      LowerDigit(c, base);
    }
    hide IsDigitIn;
  }

  lemma MantissaOf(u: Bytes, i: nat, e: nat, base: nat) returns (m: Mantissa)
    requires IsMantissa(Lower(u), i, e, base)
    ensures MantissaOk(m, base) && MantissaText(m) == u[..e]
  {
    m := if i < e then Mantissa(u[..i], true, u[i + 1..e]) else Mantissa(u[..e], false, []);
    forall k | 0 <= k < e && k != i ensures IsDigitIn(u[k], base) {
      LowerDigit(u[k], base);
      assert IsDigitIn(Lower(u)[k], base);
    }
    hide IsDigitIn;
    if i < e {
      assert u[i] == DOT by {
        LowerAt(u);
      }
      assert u[..e] == u[..i] + ([DOT] + u[i + 1..e]);
    } else {
      assert u[..e] + [] == u[..e];
    }
  }

  lemma LowerNumeral(s: Bytes)
    ensures IsNumeral(Lower(s)) <==> IsNumeral(s)
    ensures IsNumeral(s) ==> Lower(s) == s
  {
    assert forall k :: 0 <= k < |s| ==> (IsDigit(Lower(s)[k]) <==> IsDigit(s[k]));
  }

  lemma ScaleLies(e: Option<Scale>, mark: byte)
    requires ScaleOk(e, mark) && 97 <= mark <= 122
    ensures IsExponent(Lower(ScaleText(e)), mark)
  {
    if e.Some? {
      var t := e.value.sign + e.value.digits;
      SignedDigits(e.value.sign, e.value.digits);
      LowerApart([e.value.mark], t);
      assert Lower([e.value.mark]) == [mark];
      hide Lower, IsNumeral;
      assert ([mark] + t)[1..] == t;
    } else {
      assert Lower([]) == [];
    }
  }

  lemma SignedDigits(sign: Bytes, digits: Bytes)
    requires IsSign(sign) && IsNumeral(digits)
    ensures Lower(sign + digits) == sign + digits && Wire.Unsigned(sign + digits) == digits
  {
    LowerNumeral(digits);
    LowerApart(sign, digits);
    assert Lower(sign) == sign;
    hide Lower;
    assert sign == [] ==> sign + digits == digits;
    assert sign != [] ==> (sign + digits)[1..] == digits;
  }

  lemma ScaleOf(s: Bytes, mark: byte) returns (e: Option<Scale>)
    requires IsExponent(Lower(s), mark) && 97 <= mark <= 122
    ensures ScaleOk(e, mark) && ScaleText(e) == s
  {
    if s == [] {
      e := None;
    } else {
      var t := s[1..];
      LowerAt(s);
      LowerTail(s);
      SignStays(t);
      hide Lower, IsNumeral;
      var sign := if HasSign(t) then t[..1] else [];
      var digits := Wire.Unsigned(t);
      LowerNumeral(digits);
      e := Some(Scale(s[0], sign, digits));
      assert t == sign + digits && s == [s[0]] + t;
    }
  }

  lemma LowerTail(s: Bytes)
    requires s != []
    ensures |Lower(s)| == |s| && Lower(s)[1..] == Lower(s[1..])
  {
  }

  lemma SignStays(t: Bytes)
    ensures Wire.Unsigned(Lower(t)) == Lower(Wire.Unsigned(t))
  {
    assert HasSign(Lower(t)) <==> HasSign(t);
  }

  // ---- the numerals are what strtod takes

  // strtod from the first byte on that is neither white space nor the sign.
  predicate FloatBody(u: Bytes) {
    var l := Lower(u);
    l == INF || l == INFINITY || l == NAN || IsDecimalFloat(l) || IsHexFloat(l)
  }

  lemma MantissaAndScale(m: Mantissa, scale: Option<Scale>, base: nat, mark: byte)
    requires MantissaOk(m, base) && ScaleOk(scale, mark) && 97 <= mark <= 122
    ensures var l := Lower(MantissaText(m) + ScaleText(scale));
      exists i, e :: 0 <= i <= e <= |l| && IsMantissa(l, i, e, base) && IsExponent(l[e..], mark)
  {
    MantissaLies(m, base, Lower(ScaleText(scale)));
    ScaleLies(scale, mark);
    LowerApart(MantissaText(m), ScaleText(scale));
    hide IsMantissa, IsExponent, MantissaText, ScaleText, MantissaOk, ScaleOk;
    var i, e := |m.whole|, |MantissaText(m)|;
    assert i <= e by {
      WholeFits(m);
    }
  }

  lemma WholeFits(m: Mantissa)
    ensures |m.whole| <= |MantissaText(m)|
  {
  }

  lemma NumeralIsFloat(n: Numeral)
    requires NumeralOk(n)
    ensures FloatBody(NumeralText(n))
  {
    hide IsMantissa, IsExponent, MantissaText, ScaleText, MantissaOk, ScaleOk;
    match n
    case InTens(m, scale) =>
      MantissaAndScale(m, scale, 10, 101);
      hide Lower;
    case InHex(x, m, scale) =>
      MantissaAndScale(m, scale, 16, 112);
      var t := MantissaText(m) + ScaleText(scale);
      LowerApart([ZERO, x], t);
      assert Lower([ZERO, x]) == [ZERO, 120];
      hide Lower;
      var l := [ZERO, 120] + Lower(t);
      assert l[2..] == Lower(t);
      assert |Lower(t)| > 0 by {
        NotEmpty(Lower(t));
      }
    case Word(letters) =>
      LowerOf(letters, INF);
      LowerOf(letters, INFINITY);
      LowerOf(letters, NAN);
      hide Lower;
  }

  lemma NotEmpty(l: Bytes)
    requires exists i, e :: 0 <= i <= e <= |l| && IsMantissa(l, i, e, 16) && IsExponent(l[e..], 112)
    ensures |l| > 0
  {
  }

  lemma MantissaAndScaleOf(u: Bytes, base: nat, mark: byte) returns (m: Mantissa, scale: Option<Scale>)
    requires var l := Lower(u);
      exists i, e :: 0 <= i <= e <= |l| && IsMantissa(l, i, e, base) && IsExponent(l[e..], mark)
    requires 97 <= mark <= 122
    ensures MantissaOk(m, base) && ScaleOk(scale, mark) && MantissaText(m) + ScaleText(scale) == u
  {
    var l := Lower(u);
    var i, e :| 0 <= i <= e <= |l| && IsMantissa(l, i, e, base) && IsExponent(l[e..], mark);
    hide IsMantissa, IsExponent, MantissaText, ScaleText, MantissaOk, ScaleOk;
    m := MantissaOf(u, i, e, base);
    LowerApart(u[..e], u[e..]);
    assert u == u[..e] + u[e..];
    assert l[e..] == Lower(u[e..]);
    scale := ScaleOf(u[e..], mark);
  }

  lemma FloatIsNumeral(u: Bytes) returns (n: Numeral)
    requires FloatBody(u)
    ensures NumeralOk(n) && NumeralText(n) == u
  {
    hide IsMantissa, IsExponent, MantissaText, ScaleText, MantissaOk, ScaleOk;
    var l := Lower(u);
    if IsDecimalFloat(l) {
      hide Lower;
      var m, scale := MantissaAndScaleOf(u, 10, 101);
      n := InTens(m, scale);
    } else if IsHexFloat(l) {
      LowerAt(u);
      assert Lower(u[2..]) == l[2..];
      hide Lower;
      var m, scale := MantissaAndScaleOf(u[2..], 16, 112);
      n := InHex(u[1], m, scale);
      assert u == [u[0], u[1]] + u[2..];
    } else {
      LowerOf(u, INF);
      LowerOf(u, INFINITY);
      LowerOf(u, NAN);
      hide Lower;
      n := Word(u);
    }
  }

  lemma DigitsAreNumeral(u: Bytes)
    requires IsNumeral(u)
    ensures NumeralOk(InTens(Mantissa(u, false, []), None)) && NumeralText(InTens(Mantissa(u, false, []), None)) == u
  {
    assert u + [] == u;
  }

  // ---- white space and sign

  lemma {:induction false} SkipSpaceOf(s: Bytes) returns (gap: Bytes)
    ensures CSpaces(gap) && s == gap + SkipCSpace(s)
  {
    if s != [] && IsCSpace(s[0]) {
      var more := SkipSpaceOf(s[1..]);
      gap := [s[0]] + more;
    } else {
      gap := [];
    }
  }

  lemma {:induction false} SkipSpace(gap: Bytes, s: Bytes)
    requires CSpaces(gap) && s != [] && !IsCSpace(s[0])
    ensures SkipCSpace(gap + s) == s
  {
    if gap == [] {
      assert gap + s == s;
    } else {
      SkipSpace(gap[1..], s);
      assert (gap + s)[1..] == gap[1..] + s;
    }
  }

  lemma BodyOf(gap: Bytes, sign: Bytes, u: Bytes)
    requires CSpaces(gap) && IsSign(sign) && u != [] && !IsCSpace(u[0]) && u[0] != 43 && u[0] != MINUS
    ensures SkipCSpace(gap + (sign + u)) == sign + u && Wire.Unsigned(sign + u) == u
  {
    assert sign == [] ==> sign + u == u;
    assert sign != [] ==> (sign + u)[0] == sign[0] && (sign + u)[1..] == u;
    SkipSpace(gap, sign + u);
    hide SkipCSpace;
  }

  lemma NumeralStarts(n: Numeral)
    requires NumeralOk(n)
    ensures var u := NumeralText(n); u != [] && !IsCSpace(u[0]) && u[0] != 43 && u[0] != MINUS
  {
    match n
    case InTens(m, scale) =>
      hide ScaleText, ScaleOk;
      assert NumeralText(n)[0] == MantissaText(m)[0];
      assert MantissaText(m)[0] == if m.whole != [] then m.whole[0] else DOT;
      assert m.whole != [] ==> IsDigitIn(m.whole[0], 10);
    case InHex(_, m, scale) =>
      hide ScaleText, ScaleOk, MantissaText, MantissaOk;
    case Word(letters) =>
      assert letters[0] == 105 || letters[0] == 73 || letters[0] == 110 || letters[0] == 78;
  }

  // ---- main results

  lemma WholeIs(tok: Bytes)
    ensures var u := Wire.Unsigned(SkipCSpace(tok));
      (WholeInt(tok).Some? <==> IsNumeral(u)) && (WholeFloat(tok) <==> FloatBody(u))
  {
    hide IsNumeral, Lower, IsDecimalFloat, IsHexFloat, SkipCSpace, DigitsValue;
  }

  lemma NumberIsToken(tok: Bytes)
    requires WholeInt(tok).Some? || WholeFloat(tok)
    ensures NumberToken(tok)
  {
    hide WholeInt, WholeFloat, SkipCSpace, NumeralOk, NumeralText, IsNumeral, FloatBody, CSpaces;
    WholeIs(tok);
    var t := SkipCSpace(tok);
    var u := Wire.Unsigned(t);
    var gap := SkipSpaceOf(tok);
    var sign := if HasSign(t) then [t[0]] else [];
    assert t == sign + u && IsSign(sign);
    var n: Numeral;
    if IsNumeral(u) {
      DigitsAreNumeral(u);
      n := InTens(Mantissa(u, false, []), None);
    } else {
      n := FloatIsNumeral(u);
    }
    assert tok == gap + (sign + NumeralText(n));
  }

  // The tokens that strtoll or strtod takes whole are exactly the numerals, behind white space and a sign.
  lemma NumberTokensIff(tok: Bytes)
    ensures WholeInt(tok).Some? || WholeFloat(tok) <==> NumberToken(tok)
  {
    hide WholeInt, WholeFloat, SkipCSpace, Wire.Unsigned, NumeralOk, NumeralText, IsNumeral, FloatBody, CSpaces, IsSign;
    if WholeInt(tok).Some? || WholeFloat(tok) {
      NumberIsToken(tok);
    } else if gap, sign, n :| CSpaces(gap) && IsSign(sign) && NumeralOk(n) && tok == gap + (sign + NumeralText(n)) {
      NumeralStarts(n);
      BodyOf(gap, sign, NumeralText(n));
      NumeralIsFloat(n);
      WholeIs(tok);
    }
  }

  // An integer token is read as its value, or the nearest one that 64 bits hold.
  lemma IntegerToken(gap: Bytes, sign: Bytes, digits: Bytes)
    requires CSpaces(gap) && IsSign(sign) && IsNumeral(digits)
    ensures var n := if sign == [MINUS] then 0 - (DigitsValue(digits) as int) else DigitsValue(digits);
      WholeInt(gap + (sign + digits))
      == Some(if n < -0x8000_0000_0000_0000 then -0x8000_0000_0000_0000
              else if n > 0x7FFF_FFFF_FFFF_FFFF then 0x7FFF_FFFF_FFFF_FFFF else n)
  {
    assert IsDigit(digits[0]);
    BodyOf(gap, sign, digits);
    assert (sign + digits)[0] == if sign == [] then digits[0] else sign[0];
    hide DigitsValue, SkipCSpace, Wire.Unsigned, IsNumeral;
  }

  // A symbol arrives exactly if its name is one token, starts like none of the other data, and is no number.
  lemma SymbolArrivesIff(name: Bytes, types: set<Bytes>)
    ensures Decode(name, types) == Ok(Sym(name)) <==>
      && name != [] && name[0] != QUOTE && name[0] != HASH
      && (forall k :: 0 <= k < |name| ==> name[k] !in [32, 9, 10, 13, OPEN, CLOSE])
      && !NumberToken(name)
  {
    SafeNameArrivesIff(name, types);
    NumberTokensIff(name);
    hide Decode, WholeInt, WholeFloat, NumberToken;
    assert (forall k :: 0 <= k < |name| ==> !EndsToken(name[k]))
        <==> forall k :: 0 <= k < |name| ==> name[k] !in [32, 9, 10, 13, OPEN, CLOSE];
  }

  // A token that is a number arrives as an integer or as a float with its text: 1.5 and inf, for two.
  lemma NumberArrives(tok: Bytes, types: set<Bytes>)
    requires NumberToken(tok) && tok != [] && tok[0] != QUOTE && tok[0] != HASH
    requires forall k :: 0 <= k < |tok| ==> !EndsToken(tok[k])
    ensures Decode(tok, types) == Ok(if WholeInt(tok).Some? then Value.Int(WholeInt(tok).value) else Float(tok))
  {
    NumberTokensIff(tok);
    ReadToken(tok, [], 0, types);
    assert tok + [] == tok && !IsPayload([]);
    hide Read, WholeInt, WholeFloat, NumberToken;
  }

  lemma TokenOf(n: Numeral)
    requires NumeralOk(n)
    ensures NumberToken(NumeralText(n))
  {
    var t := NumeralText(n);
    hide NumeralOk, NumeralText;
    var none: Bytes := [];
    assert CSpaces(none) && IsSign(none) && t == none + (none + t);
  }

  lemma NoInteger(u: Bytes, k: nat)
    requires k < |u| && !IsCSpace(u[0]) && u[0] != 43 && u[0] != MINUS && !IsDigit(u[k])
    ensures WholeInt(u).None?
  {
    hide DigitsValue;
  }

  lemma PlainByte(c: byte)
    requires 48 <= c <= 57 || 97 <= c <= 122 || c == DOT
    ensures !EndsToken(c) && c != QUOTE && c != HASH
  {
  }

  lemma FractionNumeral()
    ensures var n := InTens(Mantissa([49], true, [53]), None); NumeralOk(n) && NumeralText(n) == [49, 46, 53]
    ensures WholeInt([49, 46, 53]).None? && DOT == 46
  {
    var m := Mantissa([49], true, [53]);
    assert MantissaText(m) == [49, DOT, 53] && MantissaOk(m, 10);
    hide MantissaText, MantissaOk;
    assert [49, DOT, 53] + [] == [49, DOT, 53];
    NoInteger([49, DOT, 53], 1);
    hide WholeInt;
  }

  lemma FractionArrives(types: set<Bytes>)
    ensures Decode([49, 46, 53], types) == Ok(Float([49, 46, 53]))
  {
    hide *;
    FractionNumeral();
    TokenOf(InTens(Mantissa([49], true, [53]), None));
    PlainByte(49);
    PlainByte(46);
    PlainByte(53);
    NumberArrives([49, 46, 53], types);
  }

  lemma InfinityWord()
    ensures NumeralOk(Word([105, 110, 102])) && NumeralText(Word([105, 110, 102])) == [105, 110, 102]
    ensures WholeInt([105, 110, 102]).None?
  {
    assert Spells([105, 110, 102], INF);
    NoInteger([105, 110, 102], 0);
    hide WholeInt;
  }

  lemma InfinityArrives(types: set<Bytes>)
    ensures Decode([105, 110, 102], types) == Ok(Float([105, 110, 102]))
  {
    hide *;
    InfinityWord();
    TokenOf(Word([105, 110, 102]));
    PlainByte(105);
    PlainByte(110);
    PlainByte(102);
    NumberArrives([105, 110, 102], types);
  }

  // ---- hex codes

  ghost predicate IsHexByte(c: byte) {
    exists d: nat :: IsHex(c, d)
  }

  ghost predicate HexDigitsOk(s: Bytes) {
    forall k :: 0 <= k < |s| ==> IsHexByte(s[k])
  }

  lemma HexDigitIs(h: byte, d: nat)
    ensures IsHex(h, d) <==> HexValue(h) == Some(d)
  {
  }

  lemma HexByteIs(h: byte)
    ensures IsHexByte(h) <==> HexValue(h).Some?
  {
    if HexValue(h).Some? {
      HexDigitIs(h, HexValue(h).value);
    }
    if d: nat :| IsHex(h, d) {
      HexDigitIs(h, d);
    }
    hide HexValue, IsHex;
  }

  // The number that the digits stand for, most significant first.
  ghost function HexNumber(s: Bytes): nat
    requires HexDigitsOk(s)
  {
    if s == [] then 0
    else
      var d: nat :| IsHex(s[|s| - 1], d);
      16 * HexNumber(s[..|s| - 1]) + d
  }

  lemma PrefixStep(c: byte, s: Bytes, acc: nat)
    ensures HexValue(c).Some? ==> HexPrefix([c] + s, acc) == HexPrefix(s, acc * 16 + HexValue(c).value)
    ensures s == [] || !IsHexByte(s[0]) ==> HexPrefix(s, acc) == acc
  {
    assert ([c] + s)[1..] == s;
    if s != [] {
      HexByteIs(s[0]);
    }
    hide HexValue, IsHexByte;
  }

  lemma {:induction false} PrefixValue(digits: Bytes, rest: Bytes, before: Bytes)
    requires HexDigitsOk(before) && HexDigitsOk(digits) && (rest == [] || !IsHexByte(rest[0]))
    ensures HexDigitsOk(before + digits)
    ensures HexPrefix(digits + rest, HexNumber(before)) == HexNumber(before + digits)
    decreases |digits|
  {
    hide HexNumber, HexValue, HexPrefix, IsHexByte;
    if digits == [] {
      assert digits + rest == rest && before + digits == before;
      PrefixStep(0, rest, HexNumber(before));
    } else {
      var c, more := digits[0], digits[1..];
      assert digits + rest == [c] + (more + rest) && before + [c] + more == before + digits;
      OneMoreHex(before, c);
      PrefixStep(c, more + rest, HexNumber(before));
      PrefixValue(more, rest, before + [c]);
    }
  }

  lemma OneMoreHex(before: Bytes, c: byte)
    requires HexDigitsOk(before) && IsHexByte(c)
    ensures HexDigitsOk(before + [c]) && HexValue(c).Some?
    ensures HexNumber(before + [c]) == HexNumber(before) * 16 + HexValue(c).value
  {
    var s := before + [c];
    assert s[..|s| - 1] == before;
    var d: nat :| IsHex(c, d);
    forall e: nat | IsHex(c, e) ensures HexValue(c) == Some(e) {
      HexDigitIs(c, e);
    }
    hide HexValue, IsHex;
  }

  // A hex code is read as the number of its digits, in either case, behind white space, a sign and 0x, up to the first
  // byte that is no digit; or as the nearest one that 64 bits hold.
  lemma HexCodeRead(gap: Bytes, sign: Bytes, x: Bytes, digits: Bytes, rest: Bytes)
    requires CSpaces(gap) && IsSign(sign) && (x == [] || x == [48, 120] || x == [48, 88])
    requires digits != [] && HexDigitsOk(digits) && (rest == [] || !IsHexByte(rest[0]))
    requires x == [] && digits == [48] && |rest| > 1 ==> (rest[0] != 120 && rest[0] != 88) || !IsHexByte(rest[1])
    ensures var n := if sign == [MINUS] then 0 - (HexNumber(digits) as int) else HexNumber(digits);
      StrToL16(gap + (sign + (x + (digits + rest))))
      == if n < -0x8000_0000_0000_0000 then -0x8000_0000_0000_0000
         else if n > 0x7FFF_FFFF_FFFF_FFFF then 0x7FFF_FFFF_FFFF_FFFF else n
  {
    hide HexPrefix, SkipCSpace, Wire.Unsigned, CSpaces, HexNumber, HexValue;
    var u := x + (digits + rest);
    DigitStarts(x, digits, rest);
    BodyOf(gap, sign, u);
    BehindPrefix(x, digits, rest);
    PrefixValue(digits, rest, []);
    assert [] + digits == digits && HexNumber([]) == 0 by {
      NoHexDigits();
    }
    var t := sign + u;
    assert t[0] == if sign == [] then u[0] else sign[0];
  }

  lemma NoHexDigits()
    ensures HexNumber([]) == 0
  {
  }

  lemma DigitStarts(x: Bytes, digits: Bytes, rest: Bytes)
    requires (x == [] || x == [48, 120] || x == [48, 88]) && digits != [] && HexDigitsOk(digits)
    ensures var u := x + (digits + rest); u != [] && !IsCSpace(u[0]) && u[0] != 43 && u[0] != MINUS
  {
    HexByteIs(digits[0]);
    assert (x + (digits + rest))[0] == if x == [] then digits[0] else x[0];
  }

  // strtol passes over 0x just when a hex digit follows it.
  lemma BehindPrefix(x: Bytes, digits: Bytes, rest: Bytes)
    requires (x == [] || x == [48, 120] || x == [48, 88]) && digits != [] && HexDigitsOk(digits)
    requires x == [] && digits == [48] && |rest| > 1 ==> (rest[0] != 120 && rest[0] != 88) || !IsHexByte(rest[1])
    ensures var u := x + (digits + rest);
      (if |u| > 2 && u[0] == 48 && (u[1] == 120 || u[1] == 88) && HexValue(u[2]).Some? then u[2..] else u)
      == digits + rest
  {
    var u := x + (digits + rest);
    HexByteIs(digits[0]);
    if x != [] {
      assert u[0] == 48 && u[1] == x[1] && u[2] == digits[0] && u[2..] == digits + rest;
    } else {
      assert u == digits + rest && u[0] == digits[0];
      if |digits| > 1 {
        HexByteIs(digits[1]);
        assert u[1] == digits[1];
      } else if |rest| > 1 {
        HexByteIs(rest[1]);
        assert u[1] == rest[0] && u[2] == rest[1];
      }
    }
  }
}
