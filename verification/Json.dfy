/** json-read and json-write (icecreme/json.c), sections 4, 5 and 7 of RFC 8259. */
module Json {
  import opened Util
  import opened Decimal
  import opened SchemeValue
  import opened TextReading

  const QUOTE: byte := 34
  const COMMA: byte := 44
  const COLON: byte := 58
  const BACKSLASH: byte := 92
  const OPEN_BRACKET: byte := 91
  const CLOSE_BRACKET: byte := 93
  const OPEN_BRACE: byte := 123
  const CLOSE_BRACE: byte := 125
  const DOT: byte := 46
  const LOWER_U: byte := 117

  const TRUE_TEXT: seq<byte> := [116, 114, 117, 101]
  const FALSE_TEXT: seq<byte> := [102, 97, 108, 115, 101]
  const NULL_TEXT: seq<byte> := [110, 117, 108, 108]

  const JSON_MAX_DEPTH: nat := 1000

  // ---- writing

  function HexDigit(d: nat): byte
    requires d < 16
  {
    if d < 10 then 48 + d else 97 + (d - 10)
  }

  function Escape(c: byte): seq<byte> {
    if c == QUOTE || c == BACKSLASH then [BACKSLASH, c]
    else if c == 10 then [BACKSLASH, 110]
    else if c == 13 then [BACKSLASH, 114]
    else if c == 9 then [BACKSLASH, 116]
    else if c < 0x20 then [BACKSLASH, LOWER_U, 48, 48, HexDigit(c / 16), HexDigit(c % 16)]
    else [c]
  }

  function EscapeAll(s: seq<byte>): seq<byte> {
    if s == [] then [] else Escape(s[0]) + EscapeAll(s[1..])
  }

  function WriteString(s: seq<byte>): seq<byte> {
    [QUOTE] + EscapeAll(s) + [QUOTE]
  }

  // A non-empty proper list of pairs with string cars.
  predicate IsAlist(v: Value) {
    v.Pair? && IsProperList(v) && EntriesOnly(ListItems(v))
  }

  predicate EntriesOnly(items: seq<Value>) {
    forall k :: 0 <= k < |items| ==> items[k].Pair? && items[k].car.Str?
  }

  function Write(v: Value): Result<seq<byte>>
    requires FloatFree(v)
    decreases v, 1, 0
  {
    match v
    case Nil => Ok(NULL_TEXT)
    case Bool(b) => Ok(if b then TRUE_TEXT else FALSE_TEXT)
    case Int(i) => Ok(DecimalText(i))
    case Str(s) => Ok(WriteString(s))
    case Char(code) => Ok(WriteString([code % 256]))
    case Vector(items) =>
      (match WriteItems(items, v)
       case Abort => Abort
       case Ok(t) => Ok([OPEN_BRACKET] + t))
    case Pair(_, _) =>
      ListFloatFree(v);
      if IsAlist(v) then
        match WriteEntries(ListItems(v), v)
        case Abort => Abort
        case Ok(t) => Ok([OPEN_BRACE] + t)
      else if IsProperList(v) then
        match WriteItems(ListItems(v), v)
        case Abort => Abort
        case Ok(t) => Ok([OPEN_BRACKET] + t)
      else Abort
    case _ => Abort
  }

  // Items with commas between them, and the closing bracket; `parent` is the value they are parts of.
  function WriteItems(items: seq<Value>, parent: Value): Result<seq<byte>>
    requires AllFloatFree(items) && forall k :: 0 <= k < |items| ==> items[k] < parent
    decreases parent, 0, |items|
  {
    if items == [] then Ok([CLOSE_BRACKET])
    else
      match (Write(items[0]), WriteItems(items[1..], parent))
      case (Ok(a), Ok(t)) => Ok(a + (if |items| > 1 then [COMMA] else []) + t)
      case _ => Abort
  }

  function WriteEntries(items: seq<Value>, parent: Value): Result<seq<byte>>
    requires AllFloatFree(items) && EntriesOnly(items) && forall k :: 0 <= k < |items| ==> items[k] < parent
    decreases parent, 0, |items|
  {
    if items == [] then Ok([CLOSE_BRACE])
    else
      match (Write(items[0].cdr), WriteEntries(items[1..], parent))
      case (Ok(a), Ok(t)) =>
        Ok(WriteString(items[0].car.bytes) + [COLON] + a + (if |items| > 1 then [COMMA] else []) + t)
      case _ => Abort
  }

  // What json-write accepts: strings, characters, booleans, integers, nil, and vectors, alists and proper lists of what
  // it accepts.
  predicate Writable(v: Value) {
    match v
    case Vector(items) => forall k :: 0 <= k < |items| ==> Writable(items[k])
    case Pair(_, _) =>
      var items := ListItems(v);
      && IsProperList(v)
      && if IsAlist(v) then forall k :: 0 <= k < |items| ==> Writable(items[k].cdr)
         else forall k :: 0 <= k < |items| ==> Writable(items[k])
    case _ => v.Nil? || v.Bool? || v.Int? || v.Str? || v.Char?
  }

  lemma {:induction false} WriteOkIff(v: Value)
    requires FloatFree(v)
    ensures Write(v).Ok? <==> Writable(v)
    decreases v, 1, 0
  {
    if v.Vector? {
      WriteItemsOkIff(v.items, v);
    } else if v.Pair? {
      ListFloatFree(v);
      if IsAlist(v) {
        WriteEntriesOkIff(ListItems(v), v);
      } else {
        WriteItemsOkIff(ListItems(v), v);
      }
    }
  }

  lemma {:induction false} WriteItemsOkIff(items: seq<Value>, parent: Value)
    requires AllFloatFree(items) && forall k :: 0 <= k < |items| ==> items[k] < parent
    ensures WriteItems(items, parent).Ok? <==> forall k :: 0 <= k < |items| ==> Writable(items[k])
    decreases parent, 0, |items|
  {
    if items != [] {
      WriteOkIff(items[0]);
      WriteItemsOkIff(items[1..], parent);
      hide Write, Writable;
      assert forall k :: 0 < k < |items| ==> items[k] == items[1..][k - 1];
    }
  }

  lemma {:induction false} WriteEntriesOkIff(items: seq<Value>, parent: Value)
    requires AllFloatFree(items) && EntriesOnly(items) && forall k :: 0 <= k < |items| ==> items[k] < parent
    ensures WriteEntries(items, parent).Ok? <==> forall k :: 0 <= k < |items| ==> Writable(items[k].cdr)
    decreases parent, 0, |items|
  {
    if items != [] {
      assert FloatFree(items[0]);
      WriteOkIff(items[0].cdr);
      WriteEntriesOkIff(items[1..], parent);
      hide Write, Writable;
      assert forall k :: 0 < k < |items| ==> items[k] == items[1..][k - 1];
    }
  }

  // ---- reading; each function returns what it read and the text that is left

  predicate IsSpace(c: byte) {
    c == 32 || c == 9 || c == 10 || c == 13
  }

  function SkipWs(s: seq<byte>): (r: seq<byte>)
    ensures |r| <= |s|
    ensures r != [] ==> !IsSpace(r[0])
  {
    if s != [] && IsSpace(s[0]) then SkipWs(s[1..]) else s
  }

  function HexValue(h: byte): Option<nat> {
    if 48 <= h <= 57 then Some(h - 48)
    else if 97 <= h <= 102 then Some(h - 97 + 10)
    else if 65 <= h <= 70 then Some(h - 65 + 10)
    else None
  }

  // Four hex digits.
  function CodePoint(s: seq<byte>): Option<nat>
    requires |s| >= 4
  {
    match (HexValue(s[0]), HexValue(s[1]), HexValue(s[2]), HexValue(s[3]))
    case (Some(a), Some(b), Some(c), Some(d)) => Some(((a * 16 + b) * 16 + c) * 16 + d)
    case _ => None
  }

  function Utf8(cp: nat): seq<byte>
    requires cp < 0x10000
  {
    if cp < 0x80 then [cp]
    else if cp < 0x800 then [0xC0 + cp / 64, 0x80 + cp % 64]
    else [0xE0 + cp / 4096, 0x80 + cp / 64 % 64, 0x80 + cp % 64]
  }

  lemma CodePointBound(s: seq<byte>)
    requires |s| >= 4 && CodePoint(s).Some?
    ensures CodePoint(s).value < 0x10000
  {
  }

  // One escape sequence, after its backslash: the bytes it stands for and its length.
  function Unescape(s: seq<byte>): (r: Result<(seq<byte>, nat)>)
    ensures r.Ok? ==> 1 <= r.value.1 <= |s|
  {
    if s == [] then Abort
    else if s[0] == QUOTE || s[0] == BACKSLASH || s[0] == 47 then Ok(([s[0]], 1))
    else if s[0] == 110 then Ok(([10], 1))
    else if s[0] == 116 then Ok(([9], 1))
    else if s[0] == 114 then Ok(([13], 1))
    else if s[0] == 98 then Ok(([8], 1))
    else if s[0] == 102 then Ok(([12], 1))
    else if s[0] == LOWER_U then
      if |s| < 5 then Abort
      else
        match CodePoint(s[1..])
        case None => Abort
        case Some(cp) =>
          CodePointBound(s[1..]);
          Ok((Utf8(cp), 5))
    else Abort
  }

  // The bytes of a string, after its opening quote and through its closing one.
  function ParseChars(s: seq<byte>): (r: Result<(seq<byte>, seq<byte>)>)
    ensures r.Ok? ==> |r.value.1| < |s|
  {
    if s == [] then Abort
    else if s[0] == QUOTE then Ok(([], s[1..]))
    else if s[0] == BACKSLASH then
      match Unescape(s[1..])
      case Abort => Abort
      case Ok((bytes, n)) =>
        (match ParseChars(s[1 + n..])
         case Abort => Abort
         case Ok((more, rest)) => Ok((bytes + more, rest)))
    else
      match ParseChars(s[1..])
      case Abort => Abort
      case Ok((more, rest)) => Ok(([s[0]] + more, rest))
  }

  function IntegerLength(s: seq<byte>): (n: nat)
    ensures n <= |s|
  {
    if s != [] && s[0] == MINUS then 1 + CountDigits(s[1..]) else CountDigits(s)
  }

  function FractionLength(s: seq<byte>): (n: nat)
    ensures n <= |s|
  {
    if s != [] && s[0] == DOT then 1 + CountDigits(s[1..]) else 0
  }

  function ExponentLength(s: seq<byte>): (n: nat)
    ensures n <= |s|
  {
    if s != [] && (s[0] == 101 || s[0] == 69) then
      if |s| > 1 && (s[1] == 43 || s[1] == MINUS) then 2 + CountDigits(s[2..]) else 1 + CountDigits(s[1..])
    else 0
  }

  // How far a number token extends, and whether it has a fraction or an exponent.
  function NumberLength(s: seq<byte>): (r: (nat, bool))
    ensures r.0 <= |s|
  {
    var n := IntegerLength(s);
    var f := FractionLength(s[n..]);
    var e := ExponentLength(s[n + f..]);
    (n + f + e, f + e > 0)
  }

  function ParseNumber(s: seq<byte>): (r: Result<(Value, seq<byte>)>)
    ensures r.Ok? ==> |r.value.1| < |s|
  {
    var (n, isFloat) := NumberLength(s);
    var token := s[..n];
    if n == 0 || token == [MINUS] then Abort
    else if isFloat then Ok((Float(token), s[n..]))
    else
      match ParseInteger(token)
      case None => Abort
      case Some(i) =>
        if -0x8000_0000_0000_0000 <= i < 0x8000_0000_0000_0000 then Ok((Int(i), s[n..])) else Abort
  }

  predicate StartsWith(s: seq<byte>, word: seq<byte>) {
    |word| <= |s| && s[..|word|] == word
  }

  // `depth` is the reader's count of enclosing calls.
  function Parse(s: seq<byte>, depth: nat): (r: Result<(Value, seq<byte>)>)
    ensures r.Ok? ==> |r.value.1| < |s|
    decreases |s|, 0
  {
    if depth + 1 > JSON_MAX_DEPTH then Abort
    else
      var t := SkipWs(s);
      if t == [] then Abort
      else if t[0] == OPEN_BRACE then
        var u := SkipWs(t[1..]);
        if u != [] && u[0] == CLOSE_BRACE then Ok((Nil, u[1..]))
        else
          match ParseEntries(t[1..], depth + 1)
          case Abort => Abort
          case Ok((entries, rest)) => Ok((Prepend(entries, Nil), rest))
      else if t[0] == OPEN_BRACKET then
        var u := SkipWs(t[1..]);
        if u != [] && u[0] == CLOSE_BRACKET then Ok((Vector([]), u[1..]))
        else
          match ParseItems(t[1..], depth + 1)
          case Abort => Abort
          case Ok((items, rest)) => Ok((Vector(items), rest))
      else if t[0] == QUOTE then
        match ParseChars(t[1..])
        case Abort => Abort
        case Ok((bytes, rest)) => Ok((Str(bytes), rest))
      else if t[0] == 116 then
        if StartsWith(t, TRUE_TEXT) then Ok((Bool(true), t[4..])) else Abort
      else if t[0] == 102 then
        if StartsWith(t, FALSE_TEXT) then Ok((Bool(false), t[5..])) else Abort
      else if t[0] == 110 then
        if StartsWith(t, NULL_TEXT) then Ok((Nil, t[4..])) else Abort
      else if t[0] == MINUS || IsDigit(t[0]) then ParseNumber(t)
      else Abort
  }

  function ParseItems(s: seq<byte>, depth: nat): (r: Result<(seq<Value>, seq<byte>)>)
    ensures r.Ok? ==> |r.value.1| < |s|
    decreases |s|, 1
  {
    match Parse(SkipWs(s), depth)
    case Abort => Abort
    case Ok((v, more)) =>
      var t := SkipWs(more);
      if t != [] && t[0] == COMMA then
        match ParseItems(t[1..], depth)
        case Abort => Abort
        case Ok((vs, rest)) => Ok(([v] + vs, rest))
      else if t != [] && t[0] == CLOSE_BRACKET then Ok(([v], t[1..]))
      else Abort
  }

  function ParseEntries(s: seq<byte>, depth: nat): (r: Result<(seq<Value>, seq<byte>)>)
    ensures r.Ok? ==> |r.value.1| < |s|
    decreases |s|, 1
  {
    var t := SkipWs(s);
    if t == [] || t[0] != QUOTE then Abort
    else
      match ParseChars(t[1..])
      case Abort => Abort
      case Ok((key, afterKey)) =>
        var u := SkipWs(afterKey);
        if u == [] || u[0] != COLON then Abort
        else
          match Parse(SkipWs(u[1..]), depth)
          case Abort => Abort
          case Ok((v, more)) =>
            var w := SkipWs(more);
            if w != [] && w[0] == COMMA then
              match ParseEntries(w[1..], depth)
              case Abort => Abort
              case Ok((es, rest)) => Ok(([Pair(Str(key), v)] + es, rest))
            else if w != [] && w[0] == CLOSE_BRACE then Ok(([Pair(Str(key), v)], w[1..]))
            else Abort
  }

  function JsonRead(s: seq<byte>): Result<Value> {
    match Parse(s, 0)
    case Abort => Abort
    case Ok((v, rest)) => if SkipWs(rest) == [] then Ok(v) else Abort
  }

  // ---- what a value becomes by being written and read

  function Norm(v: Value): Value
    decreases v, 1, 0
  {
    match v
    case Char(code) => Str([code % 256])
    case Vector(items) => Vector(NormItems(items, v))
    case Pair(_, _) =>
      if IsAlist(v) then Prepend(NormEntries(ListItems(v), v), Nil) else Vector(NormItems(ListItems(v), v))
    case _ => v
  }

  function NormItems(items: seq<Value>, parent: Value): (r: seq<Value>)
    requires forall k :: 0 <= k < |items| ==> items[k] < parent
    ensures |r| == |items|
    decreases parent, 0, |items|
  {
    if items == [] then [] else [Norm(items[0])] + NormItems(items[1..], parent)
  }

  function NormEntries(items: seq<Value>, parent: Value): (r: seq<Value>)
    requires EntriesOnly(items) && forall k :: 0 <= k < |items| ==> items[k] < parent
    ensures |r| == |items|
    decreases parent, 0, |items|
  {
    if items == [] then []
    else [Pair(items[0].car, Norm(items[0].cdr))] + NormEntries(items[1..], parent)
  }

  // The nesting of the text, which is what the reader counts.
  function Height(v: Value): (h: nat)
    ensures h >= 1
    decreases v, 1, 0
  {
    match v
    case Vector(items) => 1 + ItemsHeight(items, v)
    case Pair(_, _) => 1 + (if IsAlist(v) then EntriesHeight(ListItems(v), v) else ItemsHeight(ListItems(v), v))
    case _ => 1
  }

  function ItemsHeight(items: seq<Value>, parent: Value): nat
    requires forall k :: 0 <= k < |items| ==> items[k] < parent
    decreases parent, 0, |items|
  {
    if items == [] then 0 else Max(Height(items[0]), ItemsHeight(items[1..], parent))
  }

  function EntriesHeight(items: seq<Value>, parent: Value): nat
    requires EntriesOnly(items) && forall k :: 0 <= k < |items| ==> items[k] < parent
    decreases parent, 0, |items|
  {
    if items == [] then 0 else Max(Height(items[0].cdr), EntriesHeight(items[1..], parent))
  }

  lemma {:induction false} NormItemsAt(items: seq<Value>, parent: Value)
    requires forall k :: 0 <= k < |items| ==> items[k] < parent
    ensures forall k :: 0 <= k < |items| ==> NormItems(items, parent)[k] == Norm(items[k])
    decreases |items|
  {
    if items != [] {
      NormItemsAt(items[1..], parent);
    }
  }

  lemma {:induction false} NormEntriesAt(items: seq<Value>, parent: Value)
    requires EntriesOnly(items) && forall k :: 0 <= k < |items| ==> items[k] < parent
    ensures forall k :: 0 <= k < |items| ==>
      NormEntries(items, parent)[k] == Pair(items[k].car, Norm(items[k].cdr))
    decreases |items|
  {
    if items != [] {
      NormEntriesAt(items[1..], parent);
    }
  }

  lemma SkipNothing(s: seq<byte>)
    requires s == [] || !IsSpace(s[0])
    ensures SkipWs(s) == s
  {
  }

  // Skipping spaces first changes nothing for what skips them itself.
  lemma SkipTwice(s: seq<byte>)
    ensures SkipWs(SkipWs(s)) == SkipWs(s)
    ensures forall depth: nat :: ParseItems(SkipWs(s), depth) == ParseItems(s, depth)
    ensures forall depth: nat :: ParseEntries(SkipWs(s), depth) == ParseEntries(s, depth)
  {
    SkipNothing(SkipWs(s));
    hide SkipWs;
  }

  // ---- the reader's functions unfolded once

  lemma CharsStep(s: seq<byte>)
    ensures s == [] ==> ParseChars(s).Abort?
    ensures s != [] && s[0] == QUOTE ==> ParseChars(s) == Ok(([], s[1..]))
    ensures s != [] && s[0] == BACKSLASH ==>
      match Unescape(s[1..]) {
        case Abort => ParseChars(s).Abort?
        case Ok((bytes, n)) => ParseChars(s) == After(bytes, ParseChars(s[1 + n..]))
      }
    ensures s != [] && s[0] != QUOTE && s[0] != BACKSLASH ==>
      ParseChars(s) == After([s[0]], ParseChars(s[1..]))
  {
    hide Unescape;
  }

  lemma ItemsStep(s: seq<byte>, depth: nat, more: seq<byte>, v: Value)
    ensures Parse(SkipWs(s), depth).Abort? ==> ParseItems(s, depth).Abort?
    ensures Parse(SkipWs(s), depth) == Ok((v, more)) ==>
      var t := SkipWs(more);
      && (t != [] && t[0] == COMMA ==> ParseItems(s, depth) == After([v], ParseItems(t[1..], depth)))
      && (t != [] && t[0] == CLOSE_BRACKET ==> ParseItems(s, depth) == Ok(([v], t[1..])))
      && (t == [] || (t[0] != COMMA && t[0] != CLOSE_BRACKET) ==> ParseItems(s, depth).Abort?)
  {
    hide Parse, SkipWs;
  }

  lemma ArrayStep(s: seq<byte>, depth: nat)
    requires s != [] && s[0] == OPEN_BRACKET && depth < JSON_MAX_DEPTH
    ensures var u := SkipWs(s[1..]);
      if u != [] && u[0] == CLOSE_BRACKET then Parse(s, depth) == Ok((Vector([]), u[1..]))
      else
        && (ParseItems(s[1..], depth + 1).Abort? ==> Parse(s, depth).Abort?)
        && (ParseItems(s[1..], depth + 1).Ok? ==>
              Parse(s, depth)
              == Ok((Vector(ParseItems(s[1..], depth + 1).value.0), ParseItems(s[1..], depth + 1).value.1)))
  {
    SkipNothing(s);
    hide ParseItems, ParseEntries, ParseChars, ParseNumber, SkipWs, StartsWith, Prepend;
  }

  lemma ObjectStep(s: seq<byte>, depth: nat)
    requires s != [] && s[0] == OPEN_BRACE && depth < JSON_MAX_DEPTH
    ensures var u := SkipWs(s[1..]);
      if u != [] && u[0] == CLOSE_BRACE then Parse(s, depth) == Ok((Nil, u[1..]))
      else
        && (ParseEntries(s[1..], depth + 1).Abort? ==> Parse(s, depth).Abort?)
        && (ParseEntries(s[1..], depth + 1).Ok? ==>
              Parse(s, depth)
              == Ok((Prepend(ParseEntries(s[1..], depth + 1).value.0, Nil),
                     ParseEntries(s[1..], depth + 1).value.1)))
  {
    SkipNothing(s);
    hide ParseItems, ParseEntries, ParseChars, ParseNumber, SkipWs, StartsWith, Prepend;
  }

  // A value that is neither an array nor an object.
  ghost function Scalar(s: seq<byte>): Result<(Value, seq<byte>)>
    requires s != []
  {
    if s[0] == QUOTE then
      match ParseChars(s[1..])
      case Abort => Abort
      case Ok((bytes, rest)) => Ok((Str(bytes), rest))
    else if s[0] == 116 then if StartsWith(s, TRUE_TEXT) then Ok((Bool(true), s[4..])) else Abort
    else if s[0] == 102 then if StartsWith(s, FALSE_TEXT) then Ok((Bool(false), s[5..])) else Abort
    else if s[0] == 110 then if StartsWith(s, NULL_TEXT) then Ok((Nil, s[4..])) else Abort
    else if s[0] == MINUS || IsDigit(s[0]) then ParseNumber(s)
    else Abort
  }

  lemma ValueStep(s: seq<byte>, depth: nat)
    ensures depth >= JSON_MAX_DEPTH || SkipWs(s) == [] ==> Parse(s, depth).Abort?
    ensures Parse(SkipWs(s), depth) == Parse(s, depth)
    ensures var t := SkipWs(s);
      (depth < JSON_MAX_DEPTH && t != [] && t[0] != OPEN_BRACE && t[0] != OPEN_BRACKET) ==>
        Parse(s, depth) == Scalar(t)
  {
    SkipNothing(SkipWs(s));
    hide ParseItems, ParseEntries, ParseChars, ParseNumber, SkipWs, StartsWith, Prepend;
  }

  // The first key and value of an object's entries.
  ghost function EntryOf(s: seq<byte>, depth: nat): Result<(Value, seq<byte>)> {
    var t := SkipWs(s);
    if t == [] || t[0] != QUOTE then Abort
    else
      match ParseChars(t[1..])
      case Abort => Abort
      case Ok((key, afterKey)) =>
        var u := SkipWs(afterKey);
        if u == [] || u[0] != COLON then Abort
        else
          match Parse(SkipWs(u[1..]), depth)
          case Abort => Abort
          case Ok((v, more)) => Ok((Pair(Str(key), v), more))
  }

  lemma EntriesStep(s: seq<byte>, depth: nat, more: seq<byte>, e: Value)
    ensures EntryOf(s, depth).Abort? ==> ParseEntries(s, depth).Abort?
    ensures EntryOf(s, depth) == Ok((e, more)) ==>
      var t := SkipWs(more);
      && (t != [] && t[0] == COMMA ==> ParseEntries(s, depth) == After([e], ParseEntries(t[1..], depth)))
      && (t != [] && t[0] == CLOSE_BRACE ==> ParseEntries(s, depth) == Ok(([e], t[1..])))
      && (t == [] || (t[0] != COMMA && t[0] != CLOSE_BRACE) ==> ParseEntries(s, depth).Abort?)
  {
    hide Parse, SkipWs, ParseChars;
  }

  // ---- the writer's functions unfolded once

  lemma ItemsHead(rest: seq<Value>, parent: Value)
    requires rest != [] && AllFloatFree(rest) && forall k :: 0 <= k < |rest| ==> rest[k] < parent
    ensures Write(rest[0]).Abort? ==> WriteItems(rest, parent).Abort?
    ensures Write(rest[0]).Ok? ==> WriteItems(rest, parent).Ok? == WriteItems(rest[1..], parent).Ok?
    ensures Write(rest[0]).Ok? && WriteItems(rest, parent).Ok? ==>
      WriteItems(rest, parent).value
      == Write(rest[0]).value + ((if |rest| > 1 then [COMMA] else []) + WriteItems(rest[1..], parent).value)
  {
    hide Write, FloatFree;
  }

  function Entry(e: Value): seq<byte>
    requires e.Pair? && e.car.Str? && FloatFree(e.cdr) && Write(e.cdr).Ok?
  {
    WriteString(e.car.bytes) + [COLON] + Write(e.cdr).value
  }

  lemma EntriesHead(rest: seq<Value>, parent: Value)
    requires rest != [] && AllFloatFree(rest) && EntriesOnly(rest)
    requires forall k :: 0 <= k < |rest| ==> rest[k] < parent
    ensures FloatFree(rest[0].cdr)
    ensures Write(rest[0].cdr).Abort? ==> WriteEntries(rest, parent).Abort?
    ensures Write(rest[0].cdr).Ok? ==> WriteEntries(rest, parent).Ok? == WriteEntries(rest[1..], parent).Ok?
    ensures Write(rest[0].cdr).Ok? && WriteEntries(rest, parent).Ok? ==>
      WriteEntries(rest, parent).value
      == Entry(rest[0]) + ((if |rest| > 1 then [COMMA] else []) + WriteEntries(rest[1..], parent).value)
  {
    assert FloatFree(rest[0]);
    hide Write, WriteString;
  }

  // ---- normal forms

  lemma {:induction false} NormIsNormal(v: Value)
    ensures Norm(Norm(v)) == Norm(v)
    decreases v
  {
    if v.Vector? {
      NormItemsAt(v.items, v);
      NormItemsAt(NormItems(v.items, v), Norm(v));
      forall k | 0 <= k < |v.items| ensures Norm(Norm(v.items[k])) == Norm(v.items[k]) {
        NormIsNormal(v.items[k]);
      }
    } else if v.Pair? {
      var items := ListItems(v);
      if IsAlist(v) {
        forall k | 0 <= k < |items| ensures Norm(Norm(items[k].cdr)) == Norm(items[k].cdr) {
          NormIsNormal(items[k].cdr);
        }
        var es := NormEntries(items, v);
        var n := Prepend(es, Nil);
        ListItemsOfPrepend(es);
        NormEntriesAt(items, v);
        NormEntriesAt(es, n);
        assert NormEntries(es, n) == es;
      } else {
        NormItemsAt(items, v);
        NormItemsAt(NormItems(items, v), Norm(v));
        forall k | 0 <= k < |items| ensures Norm(Norm(items[k])) == Norm(items[k]) {
          NormIsNormal(items[k]);
        }
      }
    }
  }

  lemma {:induction false} AllFreePrepend(items: seq<Value>)
    requires AllFloatFree(items)
    ensures FloatFree(Prepend(items, Nil))
  {
    if items != [] {
      AllFreePrepend(items[1..]);
    }
  }

  // Writing the normal form gives the same text.
  lemma {:induction false} WriteNorm(v: Value)
    requires FloatFree(v) && Write(v).Ok?
    ensures FloatFree(Norm(v)) && Write(Norm(v)) == Write(v)
    decreases v, 1, 0
  {
    if v.Vector? {
      WriteNormItems(v.items, v, Norm(v));
    } else if v.Pair? {
      ListFloatFree(v);
      var items := ListItems(v);
      if IsAlist(v) {
        var n := Norm(v);
        NormEntriesAt(items, v);
        ListItemsOfPrepend(NormEntries(items, v));
        NormEntriesFree(items, v);
        AllFreePrepend(NormEntries(items, v));
        WriteNormEntries(items, v, n);
      } else {
        WriteNormItems(items, v, Norm(v));
      }
    }
  }

  lemma {:induction false} WriteNormItems(items: seq<Value>, v: Value, w: Value)
    requires AllFloatFree(items) && forall k :: 0 <= k < |items| ==> items[k] < v
    requires WriteItems(items, v).Ok? && forall k :: 0 <= k < |items| ==> NormItems(items, v)[k] < w
    ensures AllFloatFree(NormItems(items, v)) && WriteItems(NormItems(items, v), w) == WriteItems(items, v)
    decreases v, 0, |items|
  {
    if items != [] {
      WriteNorm(items[0]);
      var rest := NormItems(items[1..], v);
      assert NormItems(items, v)[1..] == rest;
      forall k | 0 <= k < |rest| ensures rest[k] < w {
        assert rest[k] == NormItems(items, v)[k + 1];
      }
      WriteNormItems(items[1..], v, w);
    }
  }

  lemma {:induction false} NormEntriesFree(items: seq<Value>, v: Value)
    requires AllFloatFree(items) && EntriesOnly(items) && forall k :: 0 <= k < |items| ==> items[k] < v
    requires WriteEntries(items, v).Ok?
    ensures AllFloatFree(NormEntries(items, v))
    decreases v, 0, |items|
  {
    if items != [] {
      assert FloatFree(items[0]);
      WriteNorm(items[0].cdr);
      NormEntriesFree(items[1..], v);
    }
  }

  lemma {:induction false} WriteNormEntries(items: seq<Value>, v: Value, w: Value)
    requires AllFloatFree(items) && EntriesOnly(items) && forall k :: 0 <= k < |items| ==> items[k] < v
    requires WriteEntries(items, v).Ok? && forall k :: 0 <= k < |items| ==> NormEntries(items, v)[k] < w
    requires AllFloatFree(NormEntries(items, v)) && EntriesOnly(NormEntries(items, v))
    ensures WriteEntries(NormEntries(items, v), w) == WriteEntries(items, v)
    decreases v, 0, |items|
  {
    if items != [] {
      assert FloatFree(items[0]);
      WriteNorm(items[0].cdr);
      var rest := NormEntries(items[1..], v);
      assert NormEntries(items, v)[1..] == rest;
      forall k | 0 <= k < |rest| ensures rest[k] < w && FloatFree(rest[k]) {
        assert rest[k] == NormEntries(items, v)[k + 1];
      }
      WriteNormEntries(items[1..], v, w);
    }
  }
}
