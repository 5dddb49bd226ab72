/** The text that actors of different processes exchange, and the frame body that carries it
    (icecreme/actor.c). */
module Wire {
  import opened Util
  import opened Decimal
  import opened SchemeValue

  type Bytes = seq<byte>

  const QUOTE: byte := 34
  const HASH: byte := 35
  const OPEN: byte := 40
  const CLOSE: byte := 41
  const DOT: byte := 46
  const SEMICOLON: byte := 59
  const BACKSLASH: byte := 92
  const SPACE: byte := 32
  const LOWER_X: byte := 120

  const RECORD_TAG: Bytes := [64, 114, 101, 99, 111, 114, 100]
  const REF_TAG: Bytes := [64, 114, 101, 102, 58]

  const MAX_WIRE_DEPTH: nat := 256
  const MAX_WIRE_LIST: nat := 256

  const INT64_MAX: int := 0x7FFF_FFFF_FFFF_FFFF
  const INT64_MIN: int := -0x8000_0000_0000_0000

  // ---- writing

  function HexDigit(d: nat): byte
    requires d < 16
  {
    if d < 10 then 48 + d else 97 + (d - 10)
  }

  function HexDigits(n: nat): (r: Bytes)
    ensures r != []
  {
    if n < 16 then [HexDigit(n)] else HexDigits(n / 16) + [HexDigit(n % 16)]
  }

  function EscapeAll(s: Bytes): Bytes {
    if s == [] then []
    else (if s[0] == QUOTE || s[0] == BACKSLASH then [BACKSLASH, s[0]] else [s[0]]) + EscapeAll(s[1..])
  }

  function WriteString(s: Bytes): Bytes {
    [QUOTE] + EscapeAll(s) + [QUOTE]
  }

  // A negative code is printed as the unsigned 64-bit word of the same bits.
  function CharName(code: int): (r: Bytes)
    ensures r != []
  {
    if 32 <= code < 127 then [code as byte]
    else [LOWER_X] + HexDigits(if code < 0 then code % 0x1_0000_0000_0000_0000 else code) + [SEMICOLON]
  }

  function WriteChar(code: int): Bytes {
    [HASH, BACKSLASH] + CharName(code)
  }

  function LastCdr(v: Value): (r: Value)
    ensures !r.Pair? && (v.Pair? ==> r < v)
  {
    if v.Pair? then LastCdr(v.cdr) else v
  }

  function WriteDatum(v: Value): Result<Bytes>
    requires FloatFree(v)
    decreases v, 1, 0
  {
    match v
    case Nil => Ok([OPEN, CLOSE])
    case Bool(b) => Ok([HASH, if b then 116 else 102])
    case Int(i) => Ok(DecimalText(i))
    case Char(code) => Ok(WriteChar(code))
    case Str(s) => Ok(WriteString(s))
    case Sym(name) => Ok(name)
    case Pair(_, _) =>
      ListFloatFree(v);
      LastFloatFree(v);
      (match WriteItems(ListItems(v), if LastCdr(v).Nil? then None else Some(LastCdr(v)), v)
       case Abort => Abort
       case Ok(t) => Ok([OPEN] + t))
    case Vector(items) =>
      (match WriteItems(items, None, v)
       case Abort => Abort
       case Ok(t) => Ok([HASH, OPEN] + t))
    case Record(name, fields) =>
      (match WriteFields(fields, v)
       case Abort => Abort
       case Ok(t) => Ok([OPEN] + WriteString(RECORD_TAG) + [SPACE] + WriteString(name) + t))
    case Ref(uri) => Ok(WriteString(REF_TAG + uri))
    case _ => Abort
  }

  lemma {:induction false} LastFloatFree(v: Value)
    requires FloatFree(v)
    ensures FloatFree(LastCdr(v))
  {
    if v.Pair? {
      LastFloatFree(v.cdr);
    }
  }

  ghost predicate PartsOf(items: seq<Value>, tail: Option<Value>, parent: Value) {
    && (forall k :: 0 <= k < |items| ==> items[k] < parent)
    && (tail.Some? ==> tail.value < parent)
  }

  // Items with spaces between them, a dotted tail if there is one, and the closing parenthesis.
  function WriteItems(items: seq<Value>, tail: Option<Value>, parent: Value): Result<Bytes>
    requires AllFloatFree(items) && (tail.Some? ==> FloatFree(tail.value)) && PartsOf(items, tail, parent)
    decreases parent, 0, |items|
  {
    if items == [] then
      match tail
      case None => Ok([CLOSE])
      case Some(d) =>
        match WriteDatum(d)
        case Abort => Abort
        case Ok(t) => Ok([SPACE, DOT, SPACE] + t + [CLOSE])
    else
      match (WriteDatum(items[0]), WriteItems(items[1..], tail, parent))
      case (Ok(a), Ok(t)) => Ok(a + (if |items| > 1 then [SPACE] else []) + t)
      case _ => Abort
  }

  // Each field after a space.
  function WriteFields(fields: seq<Value>, parent: Value): Result<Bytes>
    requires AllFloatFree(fields) && forall k :: 0 <= k < |fields| ==> fields[k] < parent
    decreases parent, 0, |fields|
  {
    if fields == [] then Ok([CLOSE])
    else
      match (WriteDatum(fields[0]), WriteFields(fields[1..], parent))
      case (Ok(a), Ok(t)) => Ok([SPACE] + a + t)
      case _ => Abort
  }

  // ---- reading; each function returns what it read and the text that is left

  predicate IsSpace(c: byte) {
    c == 32 || c == 9 || c == 10 || c == 13
  }

  predicate EndsToken(c: byte) {
    IsSpace(c) || c == OPEN || c == CLOSE
  }

  function SkipWs(s: Bytes): (r: Bytes)
    ensures |r| <= |s|
    ensures r != [] ==> !IsSpace(r[0])
  {
    if s != [] && IsSpace(s[0]) then SkipWs(s[1..]) else s
  }

  // The bytes of a string, after its opening quote and through its closing one; a backslash takes the next byte as it
  // is, and stands for itself at the end of the text.
  function ReadChars(s: Bytes): (r: Result<(Bytes, Bytes)>)
    ensures r.Ok? ==> |r.value.1| < |s|
  {
    if s == [] then Abort
    else if s[0] == QUOTE then Ok(([], s[1..]))
    else
      var n := if s[0] == BACKSLASH && |s| > 1 then 1 else 0;
      match ReadChars(s[n + 1..])
      case Abort => Abort
      case Ok((more, rest)) => Ok(([s[n]] + more, rest))
  }

  predicate StartsWith(s: Bytes, word: Bytes) {
    |word| <= |s| && s[..|word|] == word
  }

  function StringValue(bytes: Bytes): Value {
    if StartsWith(bytes, REF_TAG) then Ref(bytes[|REF_TAG|..]) else Str(bytes)
  }

  function Token(s: Bytes): (n: nat)
    ensures n <= |s|
    ensures forall k :: 0 <= k < n ==> !EndsToken(s[k])
    ensures n < |s| ==> EndsToken(s[n])
  {
    if s == [] || EndsToken(s[0]) then 0 else 1 + Token(s[1..])
  }

  // ---- strtoll, strtol and strtod

  predicate IsCSpace(c: byte) {
    c == 32 || 9 <= c <= 13
  }

  function SkipCSpace(s: Bytes): (r: Bytes)
    ensures |r| <= |s|
  {
    if s != [] && IsCSpace(s[0]) then SkipCSpace(s[1..]) else s
  }

  function Clamp(i: int): int64 {
    if i > INT64_MAX then INT64_MAX else if i < INT64_MIN then INT64_MIN else i
  }

  predicate HasSign(s: Bytes) {
    s != [] && (s[0] == 43 || s[0] == MINUS)
  }

  function Unsigned(s: Bytes): Bytes {
    if HasSign(s) then s[1..] else s
  }

  predicate IsNumeral(s: Bytes) {
    s != [] && forall k :: 0 <= k < |s| ==> IsDigit(s[k])
  }

  // strtoll in base 10, when it takes the whole token.
  function WholeInt(tok: Bytes): Option<int64> {
    var t := SkipCSpace(tok);
    var u := Unsigned(t);
    if IsNumeral(u) then Some(Clamp(if t[0] == MINUS then 0 - DigitsValue(u) else DigitsValue(u))) else None
  }

  function HexValue(h: byte): Option<nat> {
    if 48 <= h <= 57 then Some(h - 48)
    else if 97 <= h <= 102 then Some(h - 97 + 10)
    else if 65 <= h <= 70 then Some(h - 65 + 10)
    else None
  }

  // The hex digits at the front of s, added to what precedes them.
  function HexPrefix(s: Bytes, acc: nat): nat {
    if s != [] && HexValue(s[0]).Some? then HexPrefix(s[1..], acc * 16 + HexValue(s[0]).value) else acc
  }

  // strtol in base 16.
  function StrToL16(s: Bytes): int64 {
    var t := SkipCSpace(s);
    var u := Unsigned(t);
    var v := if |u| > 2 && u[0] == 48 && (u[1] == 120 || u[1] == 88) && HexValue(u[2]).Some? then u[2..] else u;
    var n := HexPrefix(v, 0);
    Clamp(if t != [] && t[0] == MINUS then 0 - n else n)
  }

  function Lower(s: Bytes): Bytes {
    seq(|s|, k requires 0 <= k < |s| => if 65 <= s[k] <= 90 then s[k] + 32 else s[k])
  }

  // digits with at most one point, at least one digit, and an optional exponent
  predicate IsDecimalFloat(s: Bytes) {
    exists i, e :: 0 <= i <= e <= |s| && IsMantissa(s, i, e, 10) && IsExponent(s[e..], 101)
  }

  predicate IsHexFloat(s: Bytes) {
    && |s| > 2 && s[0] == 48 && s[1] == 120
    && var u := s[2..];
       exists i, e :: 0 <= i <= e <= |u| && IsMantissa(u, i, e, 16) && IsExponent(u[e..], 112)
  }

  predicate IsDigitIn(c: byte, base: nat) {
    IsDigit(c) || (base == 16 && HexValue(c).Some?)
  }

  // s[..e] is digits, with a point at i unless i == e.
  predicate IsMantissa(s: Bytes, i: nat, e: nat, base: nat) {
    && i <= e <= |s|
    && (forall k :: 0 <= k < e && k != i ==> IsDigitIn(s[k], base))
    && (i < e ==> s[i] == DOT)
    && e > (if i < e then 1 else 0)
  }

  predicate IsExponent(s: Bytes, mark: byte) {
    s == [] || (s[0] == mark && IsNumeral(Unsigned(s[1..])))
  }

  const INF: Bytes := [105, 110, 102]
  const INFINITY: Bytes := [105, 110, 102, 105, 110, 105, 116, 121]
  const NAN: Bytes := [110, 97, 110]

  // strtod takes the token, and stops at its end unless it goes on into the payload of a nan.
  predicate WholeFloat(tok: Bytes) {
    var u := Lower(Unsigned(SkipCSpace(tok)));
    u == INF || u == INFINITY || u == NAN || IsDecimalFloat(u) || IsHexFloat(u)
  }

  predicate IsPayloadChar(c: byte) {
    IsDigit(c) || c == 95 || 65 <= c <= 90 || 97 <= c <= 122
  }

  // Letters, digits and underscores in parentheses.
  predicate IsPayload(s: Bytes) {
    && s != [] && s[0] == OPEN
    && exists n :: 0 < n < |s| && s[n] == CLOSE && forall k :: 0 < k < n ==> IsPayloadChar(s[k])
  }

  predicate ReadsPast(tok: Bytes, after: Bytes) {
    Lower(Unsigned(SkipCSpace(tok))) == NAN && IsPayload(after)
  }

  // A token and the text behind it.
  function TokenValue(tok: Bytes, after: Bytes): Value {
    match WholeInt(tok)
    case Some(i) => Int(i)
    case None => if WholeFloat(tok) && !ReadsPast(tok, after) then Float(tok) else Sym(tok)
  }

  // ---- the datum reader; `types` are the record types the receiving program has

  function UpToSemicolon(s: Bytes): (n: nat)
    ensures n <= |s|
  {
    if s == [] || s[0] == SEMICOLON then 0 else 1 + UpToSemicolon(s[1..])
  }

  // After #\
  function ReadChar(s: Bytes): (r: Result<(Value, Bytes)>)
    ensures r.Ok? ==> |r.value.1| < |s|
  {
    if s == [] then Abort
    else if s[0] == LOWER_X then
      var n := UpToSemicolon(s[1..]);
      Ok((Char(StrToL16(s[1..1 + n])), if 1 + n < |s| then s[n + 2..] else []))
    else Ok((Char(s[0] as int), s[1..]))
  }

  // A list that was read, without or with a dotted tail: a record if it is tagged as one.
  function ListValue(items: seq<Value>, tail: Option<Value>, types: set<Bytes>): Result<Value> {
    if tail.None? && |items| >= 2 && items[0] == Str(RECORD_TAG) then
      if items[1].Str? && items[1].bytes in types then Ok(Record(items[1].bytes, items[2..])) else Abort
    else Ok(Prepend(items, if tail.Some? then tail.value else Nil))
  }

  function Read(s: Bytes, depth: nat, types: set<Bytes>): (r: Result<(Value, Bytes)>)
    ensures r.Ok? ==> |r.value.1| < |s|
    decreases |s|, 1
  {
    var t := SkipWs(s);
    if t == [] then Abort
    else if t[0] == OPEN then ReadList(t[1..], depth, types)
    else if t[0] == QUOTE then
      match ReadChars(t[1..])
      case Abort => Abort
      case Ok((bytes, rest)) => Ok((StringValue(bytes), rest))
    else if t[0] == HASH then
      if |t| == 1 then Abort
      else if t[1] == OPEN then
        match ReadList(t[2..], depth, types)
        case Abort => Abort
        case Ok((lst, rest)) => Ok((Vector(ListItems(lst)), rest))
      else if t[1] == 116 then Ok((Bool(true), t[2..]))
      else if t[1] == 102 then Ok((Bool(false), t[2..]))
      else if t[1] == BACKSLASH then ReadChar(t[2..])
      else Abort
    else
      var n := Token(t);
      if n == 0 then Abort else Ok((TokenValue(t[..n], t[n..]), t[n..]))
  }

  // After the opening parenthesis.
  function ReadList(s: Bytes, depth: nat, types: set<Bytes>): (r: Result<(Value, Bytes)>)
    ensures r.Ok? ==> |r.value.1| < |s|
    decreases |s|, 3
  {
    if depth + 1 > MAX_WIRE_DEPTH then Abort
    else
      match ReadItems(s, 0, depth + 1, types)
      case Abort => Abort
      case Ok((items, (tail, rest))) =>
        match ListValue(items, tail, types)
        case Abort => Abort
        case Ok(v) => Ok((v, rest))
  }

  // The items after the first n, the dotted tail, and the closing parenthesis.
  function ReadItems(s: Bytes, n: nat, depth: nat, types: set<Bytes>)
    : (r: Result<(seq<Value>, (Option<Value>, Bytes))>)
    ensures r.Ok? ==> |r.value.1.1| < |s|
    decreases |s|, 2
  {
    var t := SkipWs(s);
    if t == [] then Abort
    else if t[0] == CLOSE then Ok(([], (None, t[1..])))
    else if t[0] == DOT && |t| > 1 && (t[1] == SPACE || t[1] == OPEN) then
      match Read(SkipWs(t[1..]), depth, types)
      case Abort => Abort
      case Ok((d, more)) =>
        var u := SkipWs(more);
        if u != [] && u[0] == CLOSE then Ok(([], (Some(d), u[1..]))) else Abort
    else if n >= MAX_WIRE_LIST then Abort
    else
      match Read(t, depth, types)
      case Abort => Abort
      case Ok((v, more)) =>
        match ReadItems(more, n + 1, depth, types)
        case Abort => Abort
        case Ok((vs, end)) => Ok(([v] + vs, end))
  }

  // decode_message: what follows the first datum is not looked at.
  function Decode(s: Bytes, types: set<Bytes>): Result<Value> {
    match Read(s, 0, types)
    case Abort => Abort
    case Ok((v, _)) => Ok(v)
  }

  // ---- what comes back

  // A name that reads back as a symbol, alone or among the items of a list.
  predicate SafeName(name: Bytes) {
    && name != [] && name[0] != QUOTE && name[0] != HASH
    && (forall k :: 0 <= k < |name| ==> !EndsToken(name[k]))
    && WholeInt(name).None? && !WholeFloat(name)
  }

  predicate LooksLikeRecord(items: seq<Value>) {
    |items| >= 2 && items[0] == Str(RECORD_TAG)
  }

  predicate Sendable(v: Value, types: set<Bytes>)
    decreases v, 1
  {
    match v
    case Nil => true
    case Bool(_) => true
    case Int(_) => true
    case Char(code) => 0 <= code <= INT64_MAX && code != LOWER_X as int
    case Str(bytes) => !StartsWith(bytes, REF_TAG)
    case Sym(name) => SafeName(name) && name != [DOT]
    case Pair(_, _) =>
      && !(LastCdr(v).Nil? && LooksLikeRecord(ListItems(v)))
      && (forall k :: 0 <= k < |ListItems(v)| ==> Sendable(ListItems(v)[k], types))
      && Sendable(LastCdr(v), types)
    case Vector(items) =>
      !LooksLikeRecord(items) && forall k :: 0 <= k < |items| ==> Sendable(items[k], types)
    case Record(name, fields) =>
      && !StartsWith(name, REF_TAG) && name in types
      && forall k :: 0 <= k < |fields| ==> Sendable(fields[k], types)
    case Ref(_) => true
    case _ => false
  }

  predicate AllSendable(items: seq<Value>, types: set<Bytes>) {
    forall k :: 0 <= k < |items| ==> Sendable(items[k], types)
  }

  // How many lists the reader is inside of at once.
  function Depth(v: Value): nat
    decreases v, 1, 0
  {
    match v
    case Nil => 1
    case Pair(_, _) => 1 + ItemsDepth(ListItems(v), if LastCdr(v).Nil? then None else Some(LastCdr(v)), v)
    case Vector(items) => 1 + ItemsDepth(items, None, v)
    case Record(_, fields) => 1 + ItemsDepth(fields, None, v)
    case _ => 0
  }

  function ItemsDepth(items: seq<Value>, tail: Option<Value>, parent: Value): nat
    requires PartsOf(items, tail, parent)
    decreases parent, 0, |items|
  {
    if items == [] then (if tail.Some? then Depth(tail.value) else 0)
    else Max(Depth(items[0]), ItemsDepth(items[1..], tail, parent))
  }

  // No list of more than 256 items, a record counting as its fields and two more.
  predicate Narrow(v: Value)
    decreases v, 1, 0
  {
    match v
    case Pair(_, _) =>
      |ListItems(v)| <= MAX_WIRE_LIST
      && ItemsNarrow(ListItems(v), if LastCdr(v).Nil? then None else Some(LastCdr(v)), v)
    case Vector(items) => |items| <= MAX_WIRE_LIST && ItemsNarrow(items, None, v)
    case Record(_, fields) => |fields| + 2 <= MAX_WIRE_LIST && ItemsNarrow(fields, None, v)
    case _ => true
  }

  predicate ItemsNarrow(items: seq<Value>, tail: Option<Value>, parent: Value)
    requires PartsOf(items, tail, parent)
    decreases parent, 0, |items|
  {
    if items == [] then tail.Some? ==> Narrow(tail.value)
    else Narrow(items[0]) && ItemsNarrow(items[1..], tail, parent)
  }

  predicate Fits(v: Value, depth: nat) {
    depth + Depth(v) <= MAX_WIRE_DEPTH && Narrow(v)
  }

  predicate ItemsFit(items: seq<Value>, tail: Option<Value>, parent: Value, n: nat, depth: nat)
    requires PartsOf(items, tail, parent)
  {
    n + |items| <= MAX_WIRE_LIST && depth + ItemsDepth(items, tail, parent) <= MAX_WIRE_DEPTH
    && ItemsNarrow(items, tail, parent)
  }

  // ---- atoms

  predicate Ends(rest: Bytes) {
    rest == [] || rest[0] == SPACE || rest[0] == CLOSE
  }

  lemma {:induction false} CharsRoundTrip(bytes: Bytes, rest: Bytes)
    ensures ReadChars(EscapeAll(bytes) + [QUOTE] + rest) == Ok((bytes, rest))
  {
    if bytes == [] {
      assert EscapeAll(bytes) + [QUOTE] + rest == [QUOTE] + rest;
    } else {
      var c := if bytes[0] == QUOTE || bytes[0] == BACKSLASH then [BACKSLASH, bytes[0]] else [bytes[0]];
      var after := EscapeAll(bytes[1..]) + [QUOTE] + rest;
      assert EscapeAll(bytes) == c + EscapeAll(bytes[1..]);
      CharsRoundTrip(bytes[1..], rest);
      Regroup(c, EscapeAll(bytes[1..]), [QUOTE], rest);
      CharStep(bytes[0], after, bytes[1..], rest);
      assert bytes == [bytes[0]] + bytes[1..];
    }
  }

  lemma CharStep(c: byte, after: Bytes, more: Bytes, rest: Bytes)
    requires ReadChars(after) == Ok((more, rest))
    ensures var s := (if c == QUOTE || c == BACKSLASH then [BACKSLASH, c] else [c]) + after;
      ReadChars(s) == Ok(([c] + more, rest))
  {
    assert ([BACKSLASH, c] + after)[2..] == after && ([c] + after)[1..] == after;
  }

  lemma {:induction false} TokenExactly(tok: Bytes, rest: Bytes)
    requires (forall k :: 0 <= k < |tok| ==> !EndsToken(tok[k])) && (rest == [] || EndsToken(rest[0]))
    ensures Token(tok + rest) == |tok|
  {
    if tok == [] {
      assert tok + rest == rest;
    } else {
      assert (tok + rest)[1..] == tok[1..] + rest;
      TokenExactly(tok[1..], rest);
    }
  }

  lemma NumeralToken(digits: Bytes)
    requires IsNumeral(digits)
    ensures WholeInt(digits) == Some(Clamp(DigitsValue(digits)))
    ensures WholeInt([MINUS] + digits) == Some(Clamp(0 - DigitsValue(digits)))
  {
    assert IsDigit(digits[0]);
    assert ([MINUS] + digits)[1..] == digits;
    hide DigitsValue;
    assert SkipCSpace(digits) == digits && SkipCSpace([MINUS] + digits) == [MINUS] + digits;
  }

  lemma NoTokenEnd(digits: Bytes)
    requires IsNumeral(digits)
    ensures forall k :: 0 <= k < |digits| ==> !EndsToken(digits[k])
    ensures forall k :: 0 <= k < |[MINUS] + digits| ==> !EndsToken(([MINUS] + digits)[k])
    ensures digits[0] != QUOTE && digits[0] != HASH && digits[0] != DOT
  {
    assert forall k :: 0 <= k < |digits| ==> IsDigit(digits[k]) && !EndsToken(digits[k]);
    assert forall k :: 0 <= k < |digits| ==> ([MINUS] + digits)[k + 1] == digits[k];
  }

  lemma IntToken(i: int64)
    ensures WholeInt(DecimalText(i)) == Some(i)
    ensures forall k :: 0 <= k < |DecimalText(i)| ==> !EndsToken(DecimalText(i)[k])
    ensures DecimalText(i)[0] != QUOTE && DecimalText(i)[0] != HASH && DecimalText(i)[0] != DOT
  {
    var n: int := i;
    var digits := Digits(if n < 0 then -n else n);
    DigitsRoundTrip(if n < 0 then -n else n);
    assert IsNumeral(digits);
    hide Digits, DigitsValue, WholeInt, IsNumeral, EndsToken;
    NumeralToken(digits);
    NoTokenEnd(digits);
  }

  lemma {:induction false} HexPrefixDigits(n: nat, s: Bytes)
    ensures HexPrefix(HexDigits(n) + s, 0) == HexPrefix(s, n)
  {
    var d := [HexDigit(n % 16)];
    assert (d + s)[1..] == s;
    if n >= 16 {
      assert HexDigits(n) + s == HexDigits(n / 16) + (d + s);
      HexPrefixDigits(n / 16, d + s);
    }
  }

  lemma {:induction false} HexDigitsAreHex(n: nat, k: nat)
    requires k < |HexDigits(n)|
    ensures HexValue(HexDigits(n)[k]).Some? && HexDigits(n)[k] != SEMICOLON
  {
    if n >= 16 && k < |HexDigits(n / 16)| {
      HexDigitsAreHex(n / 16, k);
    }
  }

  lemma HexRoundTrip(n: nat)
    ensures StrToL16(HexDigits(n)) == Clamp(n)
  {
    var s := HexDigits(n);
    HexPrefixDigits(n, []);
    assert s + [] == s;
    HexDigitsAreHex(n, 0);
    if |s| > 1 {
      HexDigitsAreHex(n, 1);
    }
    hide HexDigits, HexPrefix;
  }

  lemma {:induction false} SemicolonAt(s: Bytes, rest: Bytes)
    requires forall k :: 0 <= k < |s| ==> s[k] != SEMICOLON
    ensures UpToSemicolon(s + [SEMICOLON] + rest) == |s|
  {
    if s == [] {
      assert s + [SEMICOLON] + rest == [SEMICOLON] + rest;
    } else {
      assert (s + [SEMICOLON] + rest)[1..] == s[1..] + [SEMICOLON] + rest;
      SemicolonAt(s[1..], rest);
    }
  }

  lemma HexCharRead(n: nat, rest: Bytes)
    ensures ReadChar([LOWER_X] + HexDigits(n) + [SEMICOLON] + rest) == Ok((Char(Clamp(n)), rest))
  {
    var h := HexDigits(n);
    forall k | 0 <= k < |h| ensures h[k] != SEMICOLON {
      HexDigitsAreHex(n, k);
    }
    SemicolonAt(h, rest);
    HexRoundTrip(n);
    hide HexDigits, UpToSemicolon, StrToL16;
    HexName(h, rest);
  }

  lemma CharRoundTrip(code: int, rest: Bytes)
    requires 0 <= code <= INT64_MAX && code != LOWER_X as int
    ensures ReadChar(CharName(code) + rest) == Ok((Char(code), rest))
  {
    if 32 <= code < 127 {
      assert ([code as byte] + rest)[1..] == rest;
    } else {
      HexCharRead(code, rest);
      hide HexDigits, ReadChar;
    }
  }

  lemma HexName(h: Bytes, rest: Bytes)
    ensures var s := [LOWER_X] + h + [SEMICOLON] + rest;
      s[0] == LOWER_X && s[1..] == h + [SEMICOLON] + rest && s[1..1 + |h|] == h && s[|h| + 2..] == rest
  {
  }

  // ---- lists

  // What reading the text of v gives.
  function Reads<T>(v: T, fits: bool): Result<T> {
    if fits then Ok(v) else Abort
  }

  lemma SkipNothing(s: Bytes)
    requires s == [] || !IsSpace(s[0])
    ensures SkipWs(s) == s
  {
  }

  lemma ReadSkips(s: Bytes, depth: nat, types: set<Bytes>)
    ensures Read(SkipWs(s), depth, types) == Read(s, depth, types)
  {
    SkipNothing(SkipWs(s));
    hide SkipWs, ReadList, ReadChars, ReadChar, Token;
  }

  lemma SkipOne(s: Bytes)
    ensures SkipWs([SPACE] + s) == SkipWs(s)
  {
    assert ([SPACE] + s)[1..] == s;
  }

  // How the text of a value can start: never so that the reader of a list takes it for something else.
  predicate GoodStart(t: Bytes) {
    t != [] && !IsSpace(t[0]) && t[0] != CLOSE && (t[0] == DOT ==> |t| > 1 && t[1] != SPACE && t[1] != OPEN)
  }

  lemma TextStart(v: Value, types: set<Bytes>)
    requires FloatFree(v) && Sendable(v, types) && WriteDatum(v).Ok?
    ensures GoodStart(WriteDatum(v).value)
  {
    hide WriteItems, WriteFields;
    match v
    case Int(i) =>
      IntToken(i);
      assert !EndsToken(DecimalText(i)[0]);
      hide DecimalText;
    case Sym(name) => assert !EndsToken(name[0]) && (|name| > 1 ==> !EndsToken(name[1]));
    case Pair(_, _) =>
      ListFloatFree(v);
      LastFloatFree(v);
    case _ =>
  }

  lemma ReadAtom(v: Value, rest: Bytes, depth: nat, types: set<Bytes>)
    requires FloatFree(v) && Sendable(v, types) && Ends(rest)
    requires v.Bool? || v.Int? || v.Char? || v.Str? || v.Sym? || v.Ref?
    ensures WriteDatum(v).Ok? && Read(WriteDatum(v).value + rest, depth, types) == Ok((v, rest))
  {
    hide Read;
    match v
    case Bool(b) => ReadBool(b, rest, depth, types);
    case Int(i) =>
      IntToken(i);
      ReadToken(DecimalText(i), rest, depth, types);
    case Sym(name) => ReadToken(name, rest, depth, types);
    case Char(code) => ReadCharText(code, rest, depth, types);
    case Str(bytes) => ReadString(bytes, rest, depth, types);
    case Ref(uri) =>
      ReadString(REF_TAG + uri, rest, depth, types);
      assert (REF_TAG + uri)[..|REF_TAG|] == REF_TAG && (REF_TAG + uri)[|REF_TAG|..] == uri;
  }

  lemma ReadBool(b: bool, rest: Bytes, depth: nat, types: set<Bytes>)
    ensures Read([HASH, if b then 116 else 102] + rest, depth, types) == Ok((Bool(b), rest))
  {
    var s := [HASH, if b then 116 else 102] + rest;
    SkipNothing(s);
    assert s[2..] == rest;
    hide ReadList, SkipWs, ReadChars, ReadChar, Token;
  }

  lemma ReadCharText(code: int, rest: Bytes, depth: nat, types: set<Bytes>)
    requires 0 <= code <= INT64_MAX && code != LOWER_X as int
    ensures Read(WriteChar(code) + rest, depth, types) == Ok((Char(code), rest))
  {
    CharRoundTrip(code, rest);
    Regrouped([HASH, BACKSLASH], CharName(code), rest);
    var s := [HASH, BACKSLASH] + (CharName(code) + rest);
    assert s[2..] == CharName(code) + rest;
    hide CharName, ReadList, SkipWs, ReadChars, ReadChar, Token;
    SkipNothing(s);
  }

  lemma ReadString(bytes: Bytes, rest: Bytes, depth: nat, types: set<Bytes>)
    ensures Read(WriteString(bytes) + rest, depth, types) == Ok((StringValue(bytes), rest))
  {
    var s := WriteString(bytes) + rest;
    CharsRoundTrip(bytes, rest);
    assert s[0] == QUOTE && s[1..] == EscapeAll(bytes) + [QUOTE] + rest;
    SkipNothing(s);
    hide EscapeAll, ReadChars, StringValue, ReadList, SkipWs;
  }

  lemma TokenStep(t: Bytes, depth: nat, types: set<Bytes>)
    requires t != [] && !IsSpace(t[0]) && t[0] != OPEN && t[0] != QUOTE && t[0] != HASH
    ensures Read(t, depth, types)
      == if Token(t) == 0 then Abort else Ok((TokenValue(t[..Token(t)], t[Token(t)..]), t[Token(t)..]))
  {
    SkipNothing(t);
    hide Token, TokenValue, ReadList, SkipWs;
  }

  lemma ReadToken(tok: Bytes, rest: Bytes, depth: nat, types: set<Bytes>)
    requires tok != [] && tok[0] != QUOTE && tok[0] != HASH && (rest == [] || EndsToken(rest[0]))
    requires forall k :: 0 <= k < |tok| ==> !EndsToken(tok[k])
    ensures Read(tok + rest, depth, types) == Ok((TokenValue(tok, rest), rest))
  {
    var s := tok + rest;
    TokenExactly(tok, rest);
    assert s[0] == tok[0] && !EndsToken(tok[0]) && s[..|tok|] == tok && s[|tok|..] == rest;
    SkipNothing(s);
    hide Token, TokenValue, ReadList, SkipWs;
  }

  // ---- reading the text of items

  // ReadItems at an item, at the end, and at a dotted tail.
  lemma ItemStep(t: Bytes, v: Value, after: Bytes, fits: bool, n: nat, depth: nat, types: set<Bytes>)
    requires GoodStart(t) && Read(t, depth, types) == Reads((v, after), fits)
    ensures n >= MAX_WIRE_LIST || !fits || ReadItems(after, n + 1, depth, types).Abort? ==>
      ReadItems(t, n, depth, types).Abort?
    ensures n < MAX_WIRE_LIST && fits && ReadItems(after, n + 1, depth, types).Ok? ==>
      var r := ReadItems(after, n + 1, depth, types).value;
      ReadItems(t, n, depth, types) == Ok(([v] + r.0, r.1))
  {
    SkipNothing(t);
    hide Read, SkipWs;
  }

  lemma ItemsClose(rest: Bytes, n: nat, depth: nat, types: set<Bytes>)
    ensures ReadItems([CLOSE] + rest, n, depth, types) == Ok(([], (None, rest)))
  {
    SkipNothing([CLOSE] + rest);
    assert ([CLOSE] + rest)[1..] == rest;
    hide Read, SkipWs;
  }

  lemma ItemsSpace(s: Bytes, n: nat, depth: nat, types: set<Bytes>)
    ensures ReadItems([SPACE] + s, n, depth, types) == ReadItems(s, n, depth, types)
  {
    SkipOne(s);
    hide Read, SkipWs;
  }

  lemma ItemsTail(t: Bytes, d: Value, rest: Bytes, fits: bool, n: nat, depth: nat, types: set<Bytes>)
    requires GoodStart(t) && Read(t, depth, types) == Reads((d, [CLOSE] + rest), fits)
    ensures ReadItems([SPACE, DOT, SPACE] + t, n, depth, types)
      == if fits then Ok(([], (Some(d), rest))) else Abort
  {
    var s := [DOT, SPACE] + t;
    assert [SPACE, DOT, SPACE] + t == [SPACE] + s;
    SkipOne(s);
    SkipNothing(s);
    assert s[1..] == [SPACE] + t;
    SkipOne(t);
    SkipNothing(t);
    SkipNothing([CLOSE] + rest);
    assert ([CLOSE] + rest)[1..] == rest;
    hide Read, SkipWs;
  }

  // The text of items, and what has to fit, taken apart after the first one.
  lemma ItemsText(items: seq<Value>, tail: Option<Value>, parent: Value, a: Bytes, t: Bytes, rest: Bytes)
    requires AllFloatFree(items) && (tail.Some? ==> FloatFree(tail.value)) && PartsOf(items, tail, parent)
    requires items != [] && AllFloatFree(items[1..]) && PartsOf(items[1..], tail, parent)
    requires WriteDatum(items[0]) == Ok(a) && WriteItems(items[1..], tail, parent) == Ok(t)
    ensures WriteItems(items, tail, parent).Ok?
    ensures WriteItems(items, tail, parent).value + rest == a + ((if |items| > 1 then [SPACE] else []) + (t + rest))
    ensures Ends((if |items| > 1 then [SPACE] else []) + (t + rest))
  {
    hide WriteDatum;
    if |items| == 1 {
      assert items[1..] == [];
    }
  }

  lemma ItemsFitStep(items: seq<Value>, tail: Option<Value>, parent: Value, n: nat, depth: nat)
    requires PartsOf(items, tail, parent) && items != [] && PartsOf(items[1..], tail, parent)
    ensures ItemsFit(items, tail, parent, n, depth)
      <==> n < MAX_WIRE_LIST && Fits(items[0], depth) && ItemsFit(items[1..], tail, parent, n + 1, depth)
  {
    hide Depth, Narrow;
  }

  lemma {:induction false} ReadWriteItems(
    items: seq<Value>, tail: Option<Value>, parent: Value, rest: Bytes, n: nat, depth: nat, types: set<Bytes>)
    requires AllFloatFree(items) && (tail.Some? ==> FloatFree(tail.value)) && PartsOf(items, tail, parent)
    requires AllSendable(items, types) && (tail.Some? ==> Sendable(tail.value, types)) && depth <= MAX_WIRE_DEPTH
    requires Ends(rest)
    ensures WriteItems(items, tail, parent).Ok?
    ensures n <= MAX_WIRE_LIST ==>
      ReadItems(WriteItems(items, tail, parent).value + rest, n, depth, types)
      == Reads((items, (tail, rest)), ItemsFit(items, tail, parent, n, depth))
    decreases parent, 0, |items| + 1
  {
    hide Read, ReadItems, WriteDatum, Fits, Depth, Narrow, Sendable, FloatFree;
    if items == [] {
      NoItems(items, tail, parent, rest, n, depth, types);
    } else {
      var more := items[1..];
      ReadWriteItems(more, tail, parent, rest, n + 1, depth, types);
      var a := WriteDatum(items[0]);
      var t := WriteItems(more, tail, parent).value;
      var after := (if |items| > 1 then [SPACE] else []) + (t + rest);
      hide WriteItems, ItemsFit;
      ItemsEnd(items, tail, parent, t, rest);
      ReadWrite(items[0], after, depth, types);
      ItemsText(items, tail, parent, a.value, t, rest);
      ItemsFitStep(items, tail, parent, n, depth);
      TextStart(items[0], types);
      GoodStartOf(a.value, after);
      ItemsSpace(t + rest, n + 1, depth, types);
      assert [] + (t + rest) == t + rest;
      assert items == [items[0]] + more;
      ItemStep(a.value + after, items[0], after, Fits(items[0], depth), n, depth, types);
    }
  }

  lemma GoodStartOf(a: Bytes, after: Bytes)
    requires GoodStart(a)
    ensures GoodStart(a + after)
  {
  }

  lemma ItemsEnd(items: seq<Value>, tail: Option<Value>, parent: Value, t: Bytes, rest: Bytes)
    requires items != [] && AllFloatFree(items[1..]) && (tail.Some? ==> FloatFree(tail.value))
    requires PartsOf(items[1..], tail, parent) && WriteItems(items[1..], tail, parent) == Ok(t)
    ensures Ends((if |items| > 1 then [SPACE] else []) + (t + rest))
  {
    hide WriteDatum;
    if |items| == 1 {
      assert items[1..] == [];
    }
  }

  lemma NoItems(
    items: seq<Value>, tail: Option<Value>, parent: Value, rest: Bytes, n: nat, depth: nat, types: set<Bytes>)
    requires items == [] && (tail.Some? ==> FloatFree(tail.value)) && PartsOf(items, tail, parent)
    requires (tail.Some? ==> Sendable(tail.value, types)) && depth <= MAX_WIRE_DEPTH
    ensures WriteItems(items, tail, parent).Ok?
    ensures n <= MAX_WIRE_LIST ==>
      ReadItems(WriteItems(items, tail, parent).value + rest, n, depth, types)
      == Reads((items, (tail, rest)), ItemsFit(items, tail, parent, n, depth))
    decreases parent, 0, 0
  {
    hide Read, ReadItems, WriteDatum, Depth, Narrow, Sendable, FloatFree;
    if tail.Some? {
      var d := tail.value;
      ReadWrite(d, [CLOSE] + rest, depth, types);
      TextStart(d, types);
      var t := WriteDatum(d).value;
      GoodStartOf(t, [CLOSE] + rest);
      assert WriteItems(items, tail, parent).value + rest == [SPACE, DOT, SPACE] + (t + ([CLOSE] + rest));
      ItemsTail(t + ([CLOSE] + rest), d, rest, Fits(d, depth), n, depth, types);
    } else {
      ItemsClose(rest, n, depth, types);
    }
  }

  lemma {:induction false} PrependAll(v: Value)
    ensures Prepend(ListItems(v), LastCdr(v)) == v
  {
    if v.Pair? {
      PrependAll(v.cdr);
    }
  }

  // Read at the parenthesis of a list, given what ReadItems makes of its text.
  lemma ListStep(
    s: Bytes, items: seq<Value>, tail: Option<Value>, lst: Value, rest: Bytes, fits: bool, depth: nat, types: set<Bytes>)
    requires depth < MAX_WIRE_DEPTH && ReadItems(s, 0, depth + 1, types) == Reads((items, (tail, rest)), fits)
    requires ListValue(items, tail, types) == Ok(lst)
    ensures Read([OPEN] + s, depth, types) == Reads((lst, rest), fits)
    ensures Read([HASH, OPEN] + s, depth, types) == Reads((Vector(ListItems(lst)), rest), fits)
  {
    SkipNothing([OPEN] + s);
    SkipNothing([HASH, OPEN] + s);
    assert ([OPEN] + s)[1..] == s && ([HASH, OPEN] + s)[2..] == s;
    hide ReadItems, ListValue, ListItems, SkipWs, ReadChars, ReadChar, Token;
  }

  lemma ListTooDeep(s: Bytes, v: Value, rest: Bytes, types: set<Bytes>)
    ensures Read([OPEN] + s, MAX_WIRE_DEPTH, types) == Reads((v, rest), false)
    ensures Read([HASH, OPEN] + s, MAX_WIRE_DEPTH, types) == Reads((v, rest), false)
  {
    SkipNothing([OPEN] + s);
    SkipNothing([HASH, OPEN] + s);
    hide ReadItems, SkipWs, ReadChars, ReadChar, Token;
  }

  lemma {:induction false} ReadWrite(v: Value, rest: Bytes, depth: nat, types: set<Bytes>)
    requires FloatFree(v) && Sendable(v, types) && Ends(rest) && depth <= MAX_WIRE_DEPTH
    ensures WriteDatum(v).Ok?
    ensures Read(WriteDatum(v).value + rest, depth, types) == Reads((v, rest), Fits(v, depth))
    decreases v, 1, 0
  {
    if v.Bool? || v.Int? || v.Char? || v.Str? || v.Sym? || v.Ref? {
      ReadAtom(v, rest, depth, types);
      hide Read, WriteDatum;
    } else if v.Nil? {
      ReadNil(rest, depth, types);
      hide Read;
    } else if v.Pair? {
      ReadPair(v, rest, depth, types);
    } else if v.Vector? {
      ReadVector(v, rest, depth, types);
    } else {
      ReadRecord(v, rest, depth, types);
    }
  }

  lemma ReadNil(rest: Bytes, depth: nat, types: set<Bytes>)
    requires depth <= MAX_WIRE_DEPTH
    ensures Read([OPEN, CLOSE] + rest, depth, types) == Reads((Nil, rest), depth + 1 <= MAX_WIRE_DEPTH)
  {
    hide Read, ReadItems;
    assert [OPEN, CLOSE] + rest == [OPEN] + ([CLOSE] + rest);
    if depth == MAX_WIRE_DEPTH {
      ListTooDeep([CLOSE] + rest, Nil, rest, types);
    } else {
      ItemsClose(rest, 0, depth + 1, types);
      ListStep([CLOSE] + rest, [], None, Nil, rest, true, depth, types);
    }
  }

  function TailOf(v: Value): Option<Value> {
    if LastCdr(v).Nil? then None else Some(LastCdr(v))
  }

  // A list in terms of its parts.
  lemma PairForms(v: Value, depth: nat, types: set<Bytes>)
    requires v.Pair? && FloatFree(v) && Sendable(v, types)
    ensures AllFloatFree(ListItems(v)) && AllSendable(ListItems(v), types) && PartsOf(ListItems(v), TailOf(v), v)
    ensures TailOf(v).Some? ==> FloatFree(TailOf(v).value) && Sendable(TailOf(v).value, types)
    ensures ListValue(ListItems(v), TailOf(v), types) == Ok(v)
    ensures WriteItems(ListItems(v), TailOf(v), v).Ok? ==>
      WriteDatum(v) == Ok([OPEN] + WriteItems(ListItems(v), TailOf(v), v).value)
    ensures (Fits(v, depth) <==> depth < MAX_WIRE_DEPTH && ItemsFit(ListItems(v), TailOf(v), v, 0, depth + 1))
  {
    ListFloatFree(v);
    LastFloatFree(v);
    PrependAll(v);
    hide WriteItems, ItemsDepth, ItemsNarrow, ListItems, LastCdr, FloatFree, Prepend;
  }

  lemma VectorForms(v: Value, depth: nat, types: set<Bytes>)
    requires v.Vector? && FloatFree(v) && Sendable(v, types)
    ensures AllFloatFree(v.items) && AllSendable(v.items, types) && PartsOf(v.items, None, v)
    ensures ListValue(v.items, None, types) == Ok(Prepend(v.items, Nil))
    ensures WriteItems(v.items, None, v).Ok? ==> WriteDatum(v) == Ok([HASH, OPEN] + WriteItems(v.items, None, v).value)
    ensures Fits(v, depth) <==> depth < MAX_WIRE_DEPTH && ItemsFit(v.items, None, v, 0, depth + 1)
  {
    hide WriteItems, ItemsDepth, ItemsNarrow, Prepend;
  }

  lemma Regrouped(first: Bytes, t: Bytes, rest: Bytes)
    ensures first + t + rest == first + (t + rest)
  {
  }

  lemma {:induction false} ReadPair(v: Value, rest: Bytes, depth: nat, types: set<Bytes>)
    requires v.Pair? && FloatFree(v) && Sendable(v, types) && Ends(rest) && depth <= MAX_WIRE_DEPTH
    ensures WriteDatum(v).Ok?
    ensures Read(WriteDatum(v).value + rest, depth, types) == Reads((v, rest), Fits(v, depth))
    decreases v, 0, |ListItems(v)| + 2
  {
    PairForms(v, depth, types);
    hide *;
    var items, tail := ListItems(v), TailOf(v);
    var inside := if depth < MAX_WIRE_DEPTH then depth + 1 else depth;
    ReadWriteItems(items, tail, v, rest, 0, inside, types);
    var t := WriteItems(items, tail, v).value;
    Regrouped([OPEN], t, rest);
    if depth == MAX_WIRE_DEPTH {
      ListTooDeep(t + rest, v, rest, types);
    } else {
      ListStep(t + rest, items, tail, v, rest, ItemsFit(items, tail, v, 0, depth + 1), depth, types);
    }
  }

  lemma {:induction false} ReadVector(v: Value, rest: Bytes, depth: nat, types: set<Bytes>)
    requires v.Vector? && FloatFree(v) && Sendable(v, types) && Ends(rest) && depth <= MAX_WIRE_DEPTH
    ensures WriteDatum(v).Ok?
    ensures Read(WriteDatum(v).value + rest, depth, types) == Reads((v, rest), Fits(v, depth))
    decreases v, 0, |v.items| + 2
  {
    VectorForms(v, depth, types);
    hide *;
    var inside := if depth < MAX_WIRE_DEPTH then depth + 1 else depth;
    ReadWriteItems(v.items, None, v, rest, 0, inside, types);
    var t := WriteItems(v.items, None, v).value;
    Regrouped([HASH, OPEN], t, rest);
    ListItemsOfPrepend(v.items);
    if depth == MAX_WIRE_DEPTH {
      ListTooDeep(t + rest, v, rest, types);
    } else {
      var fits := ItemsFit(v.items, None, v, 0, depth + 1);
      ListStep(t + rest, v.items, None, Prepend(v.items, Nil), rest, fits, depth, types);
    }
  }

  // ---- records

  function RecordList(name: Bytes, fields: seq<Value>): seq<Value> {
    [Str(RECORD_TAG)] + ([Str(name)] + fields)
  }

  // The text of a record after its tag, if f is what follows the name.
  function RecordTail(name: Bytes, f: Bytes): Bytes {
    [SPACE] + (WriteString(name) + f)
  }

  // A record is written like the list of its tag, its type's name and its fields.
  lemma RecordForms(v: Value, depth: nat, types: set<Bytes>)
    requires v.Record? && FloatFree(v) && Sendable(v, types)
    ensures AllFloatFree(v.fields) && AllSendable(v.fields, types) && PartsOf(v.fields, None, v)
    ensures !StartsWith(v.typeName, REF_TAG)
    ensures WriteFields(v.fields, v).Ok? ==>
      WriteDatum(v)
      == Ok([OPEN] + WriteString(RECORD_TAG) + [SPACE] + WriteString(v.typeName) + WriteFields(v.fields, v).value)
    ensures Fits(v, depth) <==> depth < MAX_WIRE_DEPTH && ItemsFit(v.fields, None, v, 2, depth + 1)
  {
    hide WriteFields, WriteString, ItemsDepth, ItemsNarrow;
  }

  lemma {:induction false} FieldsText(fields: seq<Value>, parent: Value)
    requires AllFloatFree(fields) && PartsOf(fields, None, parent) && WriteItems(fields, None, parent).Ok?
    ensures WriteFields(fields, parent)
      == Ok((if fields != [] then [SPACE] else []) + WriteItems(fields, None, parent).value)
    decreases |fields|
  {
    hide WriteDatum, FloatFree;
    if fields != [] {
      var more := fields[1..];
      assert WriteDatum(fields[0]).Ok? && WriteItems(more, None, parent).Ok?;
      var a, t := WriteDatum(fields[0]).value, WriteItems(more, None, parent).value;
      FieldsText(more, parent);
      var gap := if more != [] then [SPACE] else [];
      assert WriteItems(fields, None, parent).value == a + gap + t;
      assert WriteFields(fields, parent).value == [SPACE] + a + (gap + t);
      hide *;
      Regroup([SPACE], a, gap, t);
    } else {
      assert [] + [CLOSE] == [CLOSE];
    }
  }

  // ReadItems at a string.
  lemma StringItem(
    bytes: Bytes, after: Bytes, items: seq<Value>, rest: Bytes, fits: bool, n: nat, depth: nat, types: set<Bytes>)
    requires n < MAX_WIRE_LIST && ReadItems(after, n + 1, depth, types) == Reads((items, (None, rest)), fits)
    ensures ReadItems(WriteString(bytes) + after, n, depth, types)
      == Reads(([StringValue(bytes)] + items, (None, rest)), fits)
  {
    ReadString(bytes, after, depth, types);
    assert GoodStart(WriteString(bytes) + after);
    hide Read, ReadItems, WriteString, StringValue;
    ItemStep(WriteString(bytes) + after, StringValue(bytes), after, true, n, depth, types);
  }

  lemma RecordText(name: Bytes, gap: Bytes, t: Bytes, rest: Bytes)
    ensures [OPEN] + WriteString(RECORD_TAG) + [SPACE] + WriteString(name) + (gap + t) + rest
      == [OPEN] + (WriteString(RECORD_TAG) + RecordTail(name, gap + (t + rest)))
  {
    var tag, called := WriteString(RECORD_TAG), WriteString(name);
    hide WriteString;
    assert [OPEN] + tag + [SPACE] + called + (gap + t) + rest == [OPEN] + (tag + ([SPACE] + (called + (gap + (t + rest)))));
  }

  lemma TagIsPlain()
    ensures StringValue(RECORD_TAG) == Str(RECORD_TAG)
  {
    assert RECORD_TAG[..|REF_TAG|][3] != REF_TAG[3];
  }

  lemma RecordParts(name: Bytes, fields: seq<Value>, f: Bytes)
    requires !StartsWith(name, REF_TAG)
    ensures StringValue(name) == Str(name) && 1 < MAX_WIRE_LIST
    ensures RecordTail(name, f) == [SPACE] + (WriteString(name) + f)
    ensures RecordList(name, fields) == [Str(RECORD_TAG)] + ([Str(name)] + fields)
  {
    hide WriteString;
  }

  lemma RecordItems(
    name: Bytes, fields: seq<Value>, f: Bytes, rest: Bytes, fits: bool, depth: nat, types: set<Bytes>)
    requires ReadItems(f, 2, depth, types) == Reads((fields, (None, rest)), fits) && !StartsWith(name, REF_TAG)
    ensures ReadItems(WriteString(RECORD_TAG) + RecordTail(name, f), 0, depth, types)
      == Reads((RecordList(name, fields), (None, rest)), fits)
  {
    hide *;
    TagIsPlain();
    RecordParts(name, fields, f);
    var s := WriteString(name) + f;
    StringItem(name, f, fields, rest, fits, 1, depth, types);
    ItemsSpace(s, 1, depth, types);
    StringItem(RECORD_TAG, RecordTail(name, f), [Str(name)] + fields, rest, fits, 0, depth, types);
  }

  lemma FieldsSpace(fields: seq<Value>, s: Bytes, n: nat, depth: nat, types: set<Bytes>)
    ensures ReadItems((if fields != [] then [SPACE] else []) + s, n, depth, types) == ReadItems(s, n, depth, types)
  {
    hide ReadItems;
    ItemsSpace(s, n, depth, types);
    assert [] + s == s;
  }

  // A record whose fields read well is read well.
  lemma RecordRead(
    name: Bytes, fields: seq<Value>, f: Bytes, rest: Bytes, fits: bool, depth: nat, types: set<Bytes>)
    requires depth < MAX_WIRE_DEPTH && !StartsWith(name, REF_TAG) && name in types
    requires ReadItems(f, 2, depth + 1, types) == Reads((fields, (None, rest)), fits)
    ensures Read([OPEN] + (WriteString(RECORD_TAG) + RecordTail(name, f)), depth, types)
      == Reads((Record(name, fields), rest), fits)
  {
    RecordListValue(name, fields, types);
    assert MAX_WIRE_DEPTH == 256;
    hide *;
    RecordItems(name, fields, f, rest, fits, depth + 1, types);
    var s := WriteString(RECORD_TAG) + RecordTail(name, f);
    ListStep(s, RecordList(name, fields), None, Record(name, fields), rest, fits, depth, types);
  }

  lemma RecordListValue(name: Bytes, fields: seq<Value>, types: set<Bytes>)
    requires name in types
    ensures ListValue(RecordList(name, fields), None, types) == Ok(Record(name, fields))
  {
    assert RecordList(name, fields)[2..] == fields;
  }

  lemma {:induction false} ReadRecord(v: Value, rest: Bytes, depth: nat, types: set<Bytes>)
    requires v.Record? && FloatFree(v) && Sendable(v, types) && Ends(rest) && depth <= MAX_WIRE_DEPTH
    ensures WriteDatum(v).Ok?
    ensures Read(WriteDatum(v).value + rest, depth, types) == Reads((v, rest), Fits(v, depth))
    decreases v, 0, |v.fields| + 2
  {
    RecordForms(v, depth, types);
    assert 2 <= MAX_WIRE_LIST && v.typeName in types;
    hide *;
    var inside := if depth < MAX_WIRE_DEPTH then depth + 1 else depth;
    ReadWriteItems(v.fields, None, v, rest, 2, inside, types);
    FieldsText(v.fields, v);
    RecordAtDepth(v, WriteItems(v.fields, None, v).value, rest, depth, types);
  }

  // A record, given what is read of its fields.
  lemma RecordAtDepth(v: Value, t: Bytes, rest: Bytes, depth: nat, types: set<Bytes>)
    requires v.Record? && PartsOf(v.fields, None, v) && depth <= MAX_WIRE_DEPTH
    requires !StartsWith(v.typeName, REF_TAG) && v.typeName in types
    requires depth < MAX_WIRE_DEPTH ==>
      ReadItems(t + rest, 2, depth + 1, types)
      == Reads((v.fields, (None, rest)), ItemsFit(v.fields, None, v, 2, depth + 1))
    ensures var gap := if v.fields != [] then [SPACE] else [];
      Read([OPEN] + WriteString(RECORD_TAG) + [SPACE] + WriteString(v.typeName) + (gap + t) + rest, depth, types)
      == Reads((v, rest), depth < MAX_WIRE_DEPTH && ItemsFit(v.fields, None, v, 2, depth + 1))
  {
    hide *;
    var gap := if v.fields != [] then [SPACE] else [];
    RecordText(v.typeName, gap, t, rest);
    var f := gap + (t + rest);
    if depth == MAX_WIRE_DEPTH {
      ListTooDeep(WriteString(RECORD_TAG) + RecordTail(v.typeName, f), v, rest, types);
    } else {
      FieldsSpace(v.fields, t + rest, 2, depth + 1, types);
      RecordRead(v.typeName, v.fields, f, rest, ItemsFit(v.fields, None, v, 2, depth + 1), depth, types);
    }
  }

  // Main results.

  // A message of sendable parts arrives as it was sent if its lists are within the reader's caps, and is refused if not.
  lemma MessageRoundTrip(v: Value, types: set<Bytes>)
    requires FloatFree(v) && Sendable(v, types)
    ensures WriteDatum(v).Ok?
    ensures Decode(WriteDatum(v).value, types) == if Fits(v, 0) then Ok(v) else Abort
  {
    ReadWrite(v, [], 0, types);
    assert WriteDatum(v).value + [] == WriteDatum(v).value;
    hide Read, WriteDatum, Fits, Sendable;
  }

  // The conditions on the atoms are exact: a string comes back unless it looks like a reference ...
  lemma StringArrivesIff(bytes: Bytes, types: set<Bytes>)
    ensures Decode(WriteString(bytes), types) == Ok(Str(bytes)) <==> !StartsWith(bytes, REF_TAG)
  {
    ReadString(bytes, [], 0, types);
    assert WriteString(bytes) + [] == WriteString(bytes);
    hide Read, WriteString;
  }

  // ... a character unless it is the letter x, which starts a hex code, or its code is negative ...
  lemma CharArrivesIff(code: int, types: set<Bytes>)
    requires INT64_MIN <= code <= INT64_MAX
    ensures Decode(WriteChar(code), types) == Ok(Char(code)) <==> code >= 0 && code != LOWER_X as int
  {
    if code >= 0 && code != LOWER_X as int {
      ReadCharText(code, [], 0, types);
      assert WriteChar(code) + [] == WriteChar(code);
    } else {
      CharLost(code);
      SkipNothing(WriteChar(code));
      assert WriteChar(code)[2..] == CharName(code);
      hide CharName, ReadList, SkipWs, ReadChars, ReadChar, Token;
    }
  }

  lemma CharLost(code: int)
    requires INT64_MIN <= code <= INT64_MAX && (code < 0 || code == LOWER_X as int)
    ensures ReadChar(CharName(code)) == Ok((Char(if code < 0 then INT64_MAX else 0), []))
  {
    if code < 0 {
      var n := code + 0x1_0000_0000_0000_0000;
      assert code % 0x1_0000_0000_0000_0000 == n;
      HexCharRead(n, []);
      var h := HexDigits(n);
      hide HexDigits, ReadChar;
      assert CharName(code) == [LOWER_X] + h + [SEMICOLON] + [];
    } else {
      assert CharName(code) == [LOWER_X];
      assert UpToSemicolon([]) == 0 && StrToL16([]) == 0;
    }
  }

  // ... and a symbol only if its name is one token that is no number.
  lemma SafeNameArrivesIff(name: Bytes, types: set<Bytes>)
    ensures Decode(name, types) == Ok(Sym(name)) <==> SafeName(name)
  {
    hide WholeInt, WholeFloat, ReadsPast, Token;
    if SafeName(name) {
      ReadToken(name, [], 0, types);
      assert name + [] == name;
      hide Read;
    } else if Read(name, 0, types).Ok? && Read(name, 0, types).value.0 == Sym(name) {
      SymbolsAreSafe(name, 0, types);
    }
  }

  // A symbol that takes up the whole text has a safe name.
  lemma {:induction false} SymbolsAreSafe(s: Bytes, depth: nat, types: set<Bytes>)
    requires Read(s, depth, types).Ok? && Read(s, depth, types).value.0.Sym?
    ensures var name := Read(s, depth, types).value.0.name;
      |name| <= |s| && (|name| == |s| ==> SafeName(name))
    decreases |s|
  {
    var t := SkipWs(s);
    hide SkipWs, WholeInt, WholeFloat, ReadsPast, ReadChars, StringValue, UpToSemicolon, StrToL16;
    if t[0] == OPEN {
      SymbolListsAreShort(t[1..], depth, types);
    } else if t[0] == QUOTE {
      NoSymbolInQuotes(ReadChars(t[1..]).value.0);
    } else if t[0] != HASH {
      TokenIsSafe(t);
    }
  }

  lemma TokenIsSafe(t: Bytes)
    requires t != [] && t[0] != QUOTE && t[0] != HASH && !IsSpace(t[0]) && Token(t) > 0
    requires TokenValue(t[..Token(t)], t[Token(t)..]).Sym?
    ensures TokenValue(t[..Token(t)], t[Token(t)..]) == Sym(t[..Token(t)])
    ensures Token(t) == |t| ==> SafeName(t[..Token(t)])
  {
    var tok := t[..Token(t)];
    assert tok[0] == t[0];
    assert Token(t) == |t| ==> !IsPayload(t[Token(t)..]);
    hide WholeInt, WholeFloat, Token;
  }

  lemma NoSymbolInQuotes(bytes: Bytes)
    ensures !StringValue(bytes).Sym?
  {
  }

  lemma {:induction false} SymbolListsAreShort(s: Bytes, depth: nat, types: set<Bytes>)
    requires ReadList(s, depth, types).Ok? && ReadList(s, depth, types).value.0.Sym?
    ensures |ReadList(s, depth, types).value.0.name| <= |s|
    decreases |s|
  {
    var t := SkipWs(s);
    hide SkipWs, WholeInt, WholeFloat, ReadsPast, Token, Read;
    var items := ReadItems(s, 0, depth + 1, types).value.0;
    if items == [] {
      assert t[0] == DOT;
      SymbolsAreSafe(SkipWs(t[1..]), depth + 1, types);
    }
  }

  // A nan with a payload is none: its token is left a symbol, and the payload becomes the next datum.
  lemma NanWithPayload(types: set<Bytes>)
    ensures Read([110, 97, 110, OPEN, 49, CLOSE], 0, types) == Ok((Sym(NAN), [OPEN, 49, CLOSE]))
    ensures Read(NAN, 0, types) == Ok((Float(NAN), []))
  {
    var payload: Bytes := [OPEN, 49, CLOSE];
    assert payload[2] == CLOSE && IsPayloadChar(payload[1]);
    assert IsPayload(payload) && !IsPayload([]);
    assert Lower(NAN) == NAN && NAN + payload == [110, 97, 110, OPEN, 49, CLOSE] && NAN + [] == NAN;
    assert Unsigned(SkipCSpace(NAN)) == NAN && WholeInt(NAN).None?;
    ReadToken(NAN, payload, 0, types);
    ReadToken(NAN, [], 0, types);
    hide Read, WholeInt, IsPayload, Lower;
  }

  // A list or vector that starts like a written record does not come back: it turns into that record, or an empty
  // vector, or is refused.
  lemma TaggedListIsLost(v: Value, types: set<Bytes>)
    requires FloatFree(v) && (if v.Vector? then LooksLikeRecord(v.items) && AllSendable(v.items, types)
                              else v.Pair? && LastCdr(v).Nil? && LooksLikeRecord(ListItems(v))
                                   && AllSendable(ListItems(v), types))
    ensures WriteDatum(v).Ok? && Decode(WriteDatum(v).value, types) != Ok(v)
  {
    var items := if v.Vector? then v.items else ListItems(v);
    if v.Pair? {
      ListFloatFree(v);
      LastFloatFree(v);
    }
    ReadWriteItems(items, None, v, [], 0, 1, types);
    var t := WriteItems(items, None, v).value;
    assert t + [] == t;
    TaggedRead(t, items, ItemsFit(items, None, v, 0, 1), types);
    assert WriteDatum(v) == Ok((if v.Vector? then [HASH, OPEN] else [OPEN]) + t);
    hide Read, WriteDatum, WriteItems, ItemsFit, FloatFree, AllSendable, Sendable, ListItems;
  }

  lemma TaggedRead(s: Bytes, items: seq<Value>, fits: bool, types: set<Bytes>)
    requires ReadItems(s, 0, 1, types) == Reads((items, (None, [])), fits) && LooksLikeRecord(items)
    ensures Read([OPEN] + s, 0, types).Ok? ==> Read([OPEN] + s, 0, types).value.0.Record?
    ensures Read([HASH, OPEN] + s, 0, types).Ok? ==> Read([HASH, OPEN] + s, 0, types).value.0 == Vector([])
  {
    SkipNothing([OPEN] + s);
    SkipNothing([HASH, OPEN] + s);
    assert ([OPEN] + s)[1..] == s && ([HASH, OPEN] + s)[2..] == s;
    hide ReadItems, SkipWs, ReadChars, ReadChar, Token;
  }

  // ---- the body of a DELIVER frame: the addressee's length in two bytes, the addressee, the message

  const SHORT: nat := 0x1_0000

  function BuildDeliverBody(to: Bytes, payload: Bytes): Bytes {
    [|to| / 256 % 256, |to| % 256] + to + payload
  }

  function ParseDeliverBody(body: Bytes): Option<(Bytes, Bytes)> {
    if |body| < 2 then None
    else
      var n := body[0] as int * 256 + body[1] as int;
      if 2 + n > |body| then None else Some((body[2..2 + n], body[2 + n..]))
  }

  // A body can be taken apart again exactly when the length of the addressee fits its two bytes.
  lemma DeliverBodyRoundTripIff(to: Bytes, payload: Bytes)
    ensures ParseDeliverBody(BuildDeliverBody(to, payload)) == Some((to, payload)) <==> |to| < 0x1_0000
    ensures var body := BuildDeliverBody(to, payload);
      |body| == 2 + |to| + |payload| && (|to| < 0x1_0000 ==> body[0] as int * 0x100 + body[1] as int == |to|)
  {
    var body := BuildDeliverBody(to, payload);
    var n := body[0] as int * 256 + body[1] as int;
    assert n == |to| % SHORT;
    if |to| < SHORT {
      assert body[2..2 + n] == to && body[2 + n..] == payload;
    }
  }

  // Whatever is accepted as a body is the body of what it is taken apart into.
  lemma ParsedBodyRebuilds(body: Bytes)
    requires ParseDeliverBody(body).Some?
    ensures var (to, payload) := ParseDeliverBody(body).value;
      |to| < SHORT && BuildDeliverBody(to, payload) == body
  {
    var (to, payload) := ParseDeliverBody(body).value;
    var n := |to|;
    assert n == body[0] as int * 256 + body[1] as int;
    assert n / 256 == body[0] as int && n % 256 == body[1] as int;
    assert body == [body[0], body[1]] + to + payload;
  }
}
