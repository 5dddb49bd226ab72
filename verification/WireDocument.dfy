/** What an actor makes of any message text at all (icecreme/actor.c): the grammar of the texts it accepts, and the
    value that each of them stands for. */
module WireDocument {
  import opened Util
  import opened Decimal
  import opened SchemeValue
  import opened Wire

  // ---- the grammar

  // A byte of a string, as it is or behind a backslash.
  datatype StrChr = Itself(b: byte) | Escaped(b: byte)

  // A hex character runs to its semicolon, or without one to the end of the text.
  datatype Datum =
    | ListOf(items: Items) | VectorOf(items: Items) | Quoted(chars: seq<StrChr>) | Truth(b: bool)
    | ByteChar(c: byte) | HexChar(body: Bytes, closed: bool) | Token(name: Bytes)

  // The data of a list, through its closing parenthesis.
  datatype Items =
    | Close(gap: Bytes)
    | Dotted(gap: Bytes, gapTail: Bytes, tail: Datum, gapClose: Bytes)
    | More(gap: Bytes, item: Datum, more: Items)

  predicate Spaces(s: Bytes) {
    forall k :: 0 <= k < |s| ==> s[k] in [32, 9, 10, 13]
  }

  function CharsText(chars: seq<StrChr>): Bytes {
    if chars == [] then []
    else (if chars[0].Escaped? then [BACKSLASH, chars[0].b] else [chars[0].b]) + CharsText(chars[1..])
  }

  function DatumText(d: Datum): Bytes {
    match d
    case ListOf(items) => [OPEN] + ItemsText(items)
    case VectorOf(items) => [HASH, OPEN] + ItemsText(items)
    case Quoted(chars) => [QUOTE] + (CharsText(chars) + [QUOTE])
    case Truth(b) => [HASH, if b then 116 else 102]
    case ByteChar(c) => [HASH, BACKSLASH, c]
    case HexChar(body, closed) => [HASH, BACKSLASH, LOWER_X] + (body + if closed then [SEMICOLON] else [])
    case Token(name) => name
  }

  function ItemsText(i: Items): Bytes {
    match i
    case Close(gap) => gap + [CLOSE]
    case Dotted(gap, gapTail, tail, gapClose) => gap + ([DOT] + (gapTail + (DatumText(tail) + (gapClose + [CLOSE]))))
    case More(gap, item, more) => gap + (DatumText(item) + ItemsText(more))
  }

  predicate CharsOk(chars: seq<StrChr>) {
    forall k :: 0 <= k < |chars| ==> chars[k].Itself? ==> chars[k].b != QUOTE && chars[k].b != BACKSLASH
  }

  // The datum can stand before this text.
  predicate DatumOk(d: Datum, rest: Bytes) {
    match d
    case ListOf(items) => ItemsOk(items, rest)
    case VectorOf(items) => ItemsOk(items, rest)
    case Quoted(chars) => CharsOk(chars)
    case Truth(_) => true
    case ByteChar(c) => c != LOWER_X
    case HexChar(body, closed) => SEMICOLON !in body && (!closed ==> rest == [])
    case Token(name) =>
      && name != [] && name[0] != QUOTE && name[0] != HASH && (forall k :: 0 <= k < |name| ==> !EndsToken(name[k]))
      && (rest == [] || EndsToken(rest[0]))
  }

  // A lone point before a space or a parenthesis is no datum but starts a tail.
  predicate ItemsOk(i: Items, rest: Bytes) {
    match i
    case Close(gap) => Spaces(gap)
    case Dotted(gap, gapTail, tail, gapClose) =>
      && Spaces(gap) && Spaces(gapTail) && Spaces(gapClose) && DatumOk(tail, gapClose + ([CLOSE] + rest))
      && (if gapTail == [] then tail.ListOf? else gapTail[0] == SPACE)
    case More(gap, item, more) =>
      && Spaces(gap) && DatumOk(item, ItemsText(more) + rest) && ItemsOk(more, rest)
      && (item == Token([DOT]) ==> !StartsTail(ItemsText(more) + rest))
  }

  predicate StartsTail(s: Bytes) {
    s != [] && (s[0] == SPACE || s[0] == OPEN)
  }

  // ---- what it stands for

  function CharsHeld(chars: seq<StrChr>): (r: Bytes)
    ensures |r| == |chars| && forall k :: 0 <= k < |r| ==> r[k] == chars[k].b
  {
    seq(|chars|, k requires 0 <= k < |chars| => chars[k].b)
  }

  // A proper list is a record if it starts with the tag and the name of a type; otherwise a chain of its data.
  function ListMeans(items: seq<Value>, types: set<Bytes>): Result<Value> {
    if |items| >= 2 && items[0] == Str(RECORD_TAG) then
      if items[1].Str? && items[1].bytes in types then Ok(Record(items[1].bytes, items[2..])) else Abort
    else Ok(Prepend(items, Nil))
  }

  // The value of a datum before this text, inside this many lists; no more than 256 of them, and no more than 256 data
  // in one.
  function DatumMeans(d: Datum, rest: Bytes, depth: nat, types: set<Bytes>): Result<Value>
    decreases d
  {
    match d
    case ListOf(items) => if depth >= 256 then Abort else Tailed(ItemsMean(items, rest, 0, depth + 1, types), types)
    case VectorOf(items) =>
      if depth >= 256 then Abort else AsVector(Tailed(ItemsMean(items, rest, 0, depth + 1, types), types))
    case Quoted(chars) => Ok(StringValue(CharsHeld(chars)))
    case Truth(b) => Ok(Value.Bool(b))
    case ByteChar(c) => Ok(Value.Char(c as int))
    case HexChar(body, _) => Ok(Value.Char(StrToL16(body)))
    case Token(name) => Ok(TokenValue(name, rest))
  }

  function Tailed(r: Result<(seq<Value>, Option<Value>)>, types: set<Bytes>): Result<Value> {
    match r
    case Abort => Abort
    case Ok((vs, tail)) => if tail.None? then ListMeans(vs, types) else Ok(Prepend(vs, tail.value))
  }

  // A vector of what the list is a chain of, whatever its tail.
  function AsVector(r: Result<Value>): Result<Value> {
    match r
    case Abort => Abort
    case Ok(v) => Ok(Vector(ListItems(v)))
  }

  function ItemsMean(i: Items, rest: Bytes, n: nat, depth: nat, types: set<Bytes>): Result<(seq<Value>, Option<Value>)>
    decreases i
  {
    match i
    case Close(_) => Ok(([], None))
    case Dotted(_, _, tail, gapClose) =>
      (match DatumMeans(tail, gapClose + ([CLOSE] + rest), depth, types)
       case Abort => Abort
       case Ok(v) => Ok(([], Some(v))))
    case More(_, item, more) =>
      if n >= 256 then Abort
      else
        match (DatumMeans(item, ItemsText(more) + rest, depth, types), ItemsMean(more, rest, n + 1, depth, types))
        case (Ok(v), Ok((vs, tail))) => Ok(([v] + vs, tail))
        case _ => Abort
  }

  ghost function Before<T>(r: Result<T>, rest: Bytes): Result<(T, Bytes)> {
    match r
    case Abort => Abort
    case Ok(v) => Ok((v, rest))
  }

  // ---- every text of the grammar is read as what it stands for

  lemma {:induction false} SkipSpaces(gap: Bytes, s: Bytes)
    requires Spaces(gap)
    ensures SkipWs(gap + s) == SkipWs(s)
    ensures s != [] && !IsSpace(s[0]) ==> SkipWs(gap + s) == s
  {
    if gap == [] {
      assert gap + s == s;
      if s != [] && !IsSpace(s[0]) {
        SkipNothing(s);
      }
    } else {
      SkipSpaces(gap[1..], s);
      assert (gap + s)[1..] == gap[1..] + s;
    }
  }

  lemma CharsParts(chars: seq<StrChr>, rest: Bytes)
    requires chars != []
    ensures CharsOk(chars) ==> CharsOk(chars[1..])
    ensures CharsText(chars) + [QUOTE] + rest
      == (if chars[0].Escaped? then [BACKSLASH, chars[0].b] else [chars[0].b]) + (CharsText(chars[1..]) + [QUOTE] + rest)
    ensures CharsHeld(chars) == [chars[0].b] + CharsHeld(chars[1..])
  {
    assert forall k :: 0 <= k < |chars[1..]| ==> chars[1..][k] == chars[k + 1];
    var c := if chars[0].Escaped? then [BACKSLASH, chars[0].b] else [chars[0].b];
    assert CharsText(chars) == c + CharsText(chars[1..]);
    hide CharsText;
    Regroup(c, CharsText(chars[1..]), [QUOTE], rest);
  }

  lemma ChrRead(c: StrChr, after: Bytes)
    requires (c.Itself? ==> c.b != QUOTE && c.b != BACKSLASH) && ReadChars(after).Ok?
    ensures ReadChars((if c.Escaped? then [BACKSLASH, c.b] else [c.b]) + after)
      == Ok(([c.b] + ReadChars(after).value.0, ReadChars(after).value.1))
  {
    assert ([BACKSLASH, c.b] + after)[2..] == after && ([c.b] + after)[1..] == after;
  }

  lemma {:induction false} CharsRead(chars: seq<StrChr>, rest: Bytes)
    requires CharsOk(chars)
    ensures ReadChars(CharsText(chars) + [QUOTE] + rest) == Ok((CharsHeld(chars), rest))
  {
    if chars == [] {
      assert CharsText(chars) + [QUOTE] + rest == [QUOTE] + rest && CharsHeld(chars) == [];
    } else {
      hide ReadChars, CharsText, CharsHeld;
      CharsParts(chars, rest);
      CharsRead(chars[1..], rest);
      ChrRead(chars[0], CharsText(chars[1..]) + [QUOTE] + rest);
    }
  }

  lemma QuotedRead(chars: seq<StrChr>, rest: Bytes, depth: nat, types: set<Bytes>)
    requires CharsOk(chars)
    ensures Read(DatumText(Quoted(chars)) + rest, depth, types) == Ok((StringValue(CharsHeld(chars)), rest))
  {
    var s := DatumText(Quoted(chars)) + rest;
    CharsRead(chars, rest);
    hide CharsText, ReadChars, StringValue, ReadList, SkipWs, CharsHeld;
    assert s == [QUOTE] + (CharsText(chars) + [QUOTE] + rest);
    assert s[0] == QUOTE && s[1..] == CharsText(chars) + [QUOTE] + rest;
    SkipNothing(s);
  }

  lemma TruthRead(b: bool, rest: Bytes, depth: nat, types: set<Bytes>)
    ensures Read(DatumText(Truth(b)) + rest, depth, types) == Ok((Value.Bool(b), rest))
  {
    var s := DatumText(Truth(b)) + rest;
    hide ReadChars, StringValue, ReadList, SkipWs, ReadChar;
    assert s[2..] == rest;
    SkipNothing(s);
  }

  // Read at a character.
  lemma CharStart(s: Bytes, depth: nat, types: set<Bytes>)
    ensures Read([HASH, BACKSLASH] + s, depth, types) == ReadChar(s)
  {
    var t := [HASH, BACKSLASH] + s;
    hide ReadChars, StringValue, ReadList, SkipWs, ReadChar;
    assert t[2..] == s;
    SkipNothing(t);
  }

  lemma {:induction false} SemicolonFound(body: Bytes, rest: Bytes)
    requires SEMICOLON !in body && (rest == [] || rest[0] == SEMICOLON)
    ensures UpToSemicolon(body + rest) == |body|
  {
    if body == [] {
      assert body + rest == rest;
    } else {
      assert (body + rest)[1..] == body[1..] + rest;
      assert forall c :: c in body[1..] ==> c in body;
      SemicolonFound(body[1..], rest);
    }
  }

  lemma CharRead(d: Datum, rest: Bytes, depth: nat, types: set<Bytes>)
    requires DatumOk(d, rest) && (d.ByteChar? || d.HexChar?)
    ensures Read(DatumText(d) + rest, depth, types) == Before(DatumMeans(d, rest, depth, types), rest)
  {
    hide StrToL16, UpToSemicolon;
    if d.ByteChar? {
      assert DatumText(d) + rest == [HASH, BACKSLASH] + ([d.c] + rest) && ([d.c] + rest)[1..] == rest;
      CharStart([d.c] + rest, depth, types);
    } else {
      var end := if d.closed then [SEMICOLON] + rest else [];
      var s := [LOWER_X] + (d.body + end);
      assert DatumText(d) + rest == [HASH, BACKSLASH] + s;
      assert s[1..] == d.body + end && s[1..1 + |d.body|] == d.body;
      assert d.closed ==> s[|d.body| + 2..] == rest;
      SemicolonFound(d.body, end);
      CharStart(s, depth, types);
      hide Read;
    }
  }

  lemma DatumStarts(d: Datum, rest: Bytes)
    requires DatumOk(d, rest)
    ensures var s := DatumText(d) + rest;
      && s != [] && !IsSpace(s[0]) && s[0] != CLOSE
      && (s[0] == DOT && StartsTail(s[1..]) <==> d == Token([DOT]) && StartsTail(rest))
      && (s[0] == OPEN <==> d.ListOf?)
  {
    if d.Token? {
      var s := d.name + rest;
      assert EndsToken(SPACE) && EndsToken(OPEN);
      if |d.name| == 1 {
        assert d.name == [d.name[0]] && s[1..] == rest;
      } else {
        assert s[1..] != [] && s[1..][0] == d.name[1];
      }
    } else {
      hide ItemsText, CharsText, ItemsOk;
    }
  }

  lemma TokenRead(name: Bytes, rest: Bytes, depth: nat, types: set<Bytes>)
    requires DatumOk(Token(name), rest)
    ensures Read(DatumText(Token(name)) + rest, depth, types) == Ok((TokenValue(name, rest), rest))
  {
    ReadToken(name, rest, depth, types);
    hide Read, TokenValue;
  }

  // Read at a list.
  lemma ListStart(s: Bytes, depth: nat, types: set<Bytes>)
    ensures Read([OPEN] + s, depth, types) == ReadList(s, depth, types)
    ensures Read([HASH, OPEN] + s, depth, types) == match ReadList(s, depth, types) {
      case Abort => Abort
      case Ok((lst, rest)) => Ok((Vector(ListItems(lst)), rest))
    }
  {
    assert ([OPEN] + s)[1..] == s && ([HASH, OPEN] + s)[2..] == s;
    SkipNothing([OPEN] + s);
    SkipNothing([HASH, OPEN] + s);
    hide SkipWs, ReadList, ReadChars, ReadChar, Wire.Token, ListItems;
  }

  ghost function ItemsBefore(r: Result<(seq<Value>, Option<Value>)>, rest: Bytes)
    : Result<(seq<Value>, (Option<Value>, Bytes))>
  {
    match r
    case Abort => Abort
    case Ok((vs, tail)) => Ok((vs, (tail, rest)))
  }

  lemma ListReads(s: Bytes, r: Result<(seq<Value>, Option<Value>)>, rest: Bytes, depth: nat, types: set<Bytes>)
    requires depth < 256 ==> ReadItems(s, 0, depth + 1, types) == ItemsBefore(r, rest)
    ensures ReadList(s, depth, types) == Before(if depth >= 256 then Abort else Tailed(r, types), rest)
  {
    hide ReadItems, Prepend;
  }

  lemma {:induction false} DatumRead(d: Datum, rest: Bytes, depth: nat, types: set<Bytes>)
    requires DatumOk(d, rest)
    ensures Read(DatumText(d) + rest, depth, types) == Before(DatumMeans(d, rest, depth, types), rest)
    decreases d, 0
  {
    match d
    case ListOf(items) =>
      ItemsRead(items, rest, 0, depth + 1, types);
      ListRead(items, rest, depth, types);
    case VectorOf(items) =>
      ItemsRead(items, rest, 0, depth + 1, types);
      ListRead(items, rest, depth, types);
    case Quoted(chars) =>
      QuotedRead(chars, rest, depth, types);
      hide Read, DatumText, StringValue;
    case Truth(b) =>
      TruthRead(b, rest, depth, types);
      hide Read, DatumText;
    case Token(name) =>
      TokenRead(name, rest, depth, types);
      hide Read, DatumText, TokenValue;
    case _ =>
      CharRead(d, rest, depth, types);
      hide Read, DatumText, DatumMeans;
  }

  lemma ListRead(items: Items, rest: Bytes, depth: nat, types: set<Bytes>)
    requires ReadItems(ItemsText(items) + rest, 0, depth + 1, types)
      == ItemsBefore(ItemsMean(items, rest, 0, depth + 1, types), rest)
    ensures Read(DatumText(ListOf(items)) + rest, depth, types)
      == Before(DatumMeans(ListOf(items), rest, depth, types), rest)
    ensures Read(DatumText(VectorOf(items)) + rest, depth, types)
      == Before(DatumMeans(VectorOf(items), rest, depth, types), rest)
  {
    hide *;
    var s := ItemsText(items) + rest;
    ListReads(s, ItemsMean(items, rest, 0, depth + 1, types), rest, depth, types);
    ListStart(s, depth, types);
    ListText(items, rest);
    ListMeaning(items, rest, depth, types);
  }

  lemma ListText(items: Items, rest: Bytes)
    ensures DatumText(ListOf(items)) + rest == [OPEN] + (ItemsText(items) + rest)
    ensures DatumText(VectorOf(items)) + rest == [HASH, OPEN] + (ItemsText(items) + rest)
  {
    hide ItemsText;
  }

  lemma ListMeaning(items: Items, rest: Bytes, depth: nat, types: set<Bytes>)
    ensures var r := if depth >= 256 then Abort else Tailed(ItemsMean(items, rest, 0, depth + 1, types), types);
      && Before(DatumMeans(ListOf(items), rest, depth, types), rest) == Before(r, rest)
      && Before(DatumMeans(VectorOf(items), rest, depth, types), rest) == match Before(r, rest) {
        case Abort => Abort
        case Ok((lst, after)) => Ok((Vector(ListItems(lst)), after))
      }
  {
    hide ItemsMean, Tailed, ListItems;
  }

  // ReadItems unfolded once.
  lemma ItemsUnfold(s: Bytes, n: nat, depth: nat, types: set<Bytes>)
    ensures var t := SkipWs(s);
      && (t == [] ==> ReadItems(s, n, depth, types).Abort?)
      && (t != [] && t[0] == CLOSE ==> ReadItems(s, n, depth, types) == Ok(([], (None, t[1..]))))
      && (t != [] && t[0] == DOT && StartsTail(t[1..]) ==>
            ReadItems(s, n, depth, types) == match Read(SkipWs(t[1..]), depth, types) {
              case Abort => Abort
              case Ok((d, more)) =>
                var u := SkipWs(more);
                if u != [] && u[0] == CLOSE then Ok(([], (Some(d), u[1..]))) else Abort
            })
      && (t != [] && t[0] != CLOSE && !(t[0] == DOT && StartsTail(t[1..])) ==>
            ReadItems(s, n, depth, types) ==
            if n >= 256 then Abort
            else match Read(t, depth, types) {
              case Abort => Abort
              case Ok((v, more)) =>
                match ReadItems(more, n + 1, depth, types) {
                  case Abort => Abort
                  case Ok((vs, end)) => Ok(([v] + vs, end))
                }
            })
  {
    hide Read, SkipWs;
  }

  lemma CloseRead(gap: Bytes, rest: Bytes, n: nat, depth: nat, types: set<Bytes>)
    requires Spaces(gap)
    ensures ReadItems(gap + [CLOSE] + rest, n, depth, types) == Ok(([], (None, rest)))
  {
    ItemsUnfold(gap + [CLOSE] + rest, n, depth, types);
    hide ReadItems, SkipWs;
    assert gap + [CLOSE] + rest == gap + ([CLOSE] + rest) && ([CLOSE] + rest)[1..] == rest;
    SkipSpaces(gap, [CLOSE] + rest);
  }

  lemma DottedRead(i: Items, rest: Bytes, n: nat, depth: nat, types: set<Bytes>)
    requires i.Dotted? && ItemsOk(i, rest)
    requires var after := i.gapClose + ([CLOSE] + rest);
      Read(DatumText(i.tail) + after, depth, types) == Before(DatumMeans(i.tail, after, depth, types), after)
    ensures ReadItems(ItemsText(i) + rest, n, depth, types) == ItemsBefore(ItemsMean(i, rest, n, depth, types), rest)
  {
    hide *;
    var after := i.gapClose + ([CLOSE] + rest);
    DottedText(i, rest);
    var v := DatumText(i.tail) + after;
    DatumStarts(i.tail, after);
    SkipSpaces(i.gap, [DOT] + (i.gapTail + v));
    SkipSpaces(i.gapTail, v);
    SkipSpaces(i.gapClose, [CLOSE] + rest);
    assert ([CLOSE] + rest)[1..] == rest && ([DOT] + (i.gapTail + v))[1..] == i.gapTail + v;
    ItemsUnfold(ItemsText(i) + rest, n, depth, types);
    DottedMeaning(i, rest, n, depth, types);
  }

  // A dotted tail, taken apart.
  lemma DottedText(i: Items, rest: Bytes)
    requires i.Dotted? && ItemsOk(i, rest)
    ensures var v := DatumText(i.tail) + (i.gapClose + ([CLOSE] + rest));
      && ItemsText(i) + rest == i.gap + ([DOT] + (i.gapTail + v))
      && StartsTail(i.gapTail + v)
    ensures Spaces(i.gap) && Spaces(i.gapTail) && Spaces(i.gapClose) && DatumOk(i.tail, i.gapClose + ([CLOSE] + rest))
    ensures !IsSpace(DOT) && !IsSpace(CLOSE) && DOT != CLOSE
  {
    var v := DatumText(i.tail);
    DatumStarts(i.tail, i.gapClose + ([CLOSE] + rest));
    DottedPieces(i, rest);
    hide DatumText, DatumOk, Spaces, ItemsText;
    assert i.gapTail == [] ==> i.gapTail + (v + (i.gapClose + ([CLOSE] + rest))) == v + (i.gapClose + ([CLOSE] + rest));
  }

  lemma DottedMeaning(i: Items, rest: Bytes, n: nat, depth: nat, types: set<Bytes>)
    requires i.Dotted?
    ensures var after := i.gapClose + ([CLOSE] + rest);
      Before(DatumMeans(i.tail, after, depth, types), after).Ok? ==>
        Before(DatumMeans(i.tail, after, depth, types), after).value.1 == after
    ensures var after := i.gapClose + ([CLOSE] + rest);
      ItemsBefore(ItemsMean(i, rest, n, depth, types), rest) == match Before(DatumMeans(i.tail, after, depth, types), after) {
        case Abort => Abort
        case Ok((v, _)) => Ok(([], (Some(v), rest)))
      }
  {
    hide DatumMeans;
  }

  lemma MoreRead(i: Items, rest: Bytes, n: nat, depth: nat, types: set<Bytes>)
    requires i.More? && ItemsOk(i, rest)
    requires var after := ItemsText(i.more) + rest;
      && Read(DatumText(i.item) + after, depth, types) == Before(DatumMeans(i.item, after, depth, types), after)
      && ReadItems(after, n + 1, depth, types) == ItemsBefore(ItemsMean(i.more, rest, n + 1, depth, types), rest)
    ensures ReadItems(ItemsText(i) + rest, n, depth, types) == ItemsBefore(ItemsMean(i, rest, n, depth, types), rest)
  {
    hide *;
    var after := ItemsText(i.more) + rest;
    MoreText(i, rest);
    DatumStarts(i.item, after);
    SkipSpaces(i.gap, DatumText(i.item) + after);
    ItemsUnfold(ItemsText(i) + rest, n, depth, types);
    MoreMeaning(i, rest, n, depth, types);
  }

  // Several items, taken apart after the first one.
  lemma MoreText(i: Items, rest: Bytes)
    requires i.More? && ItemsOk(i, rest)
    ensures ItemsText(i) + rest == i.gap + (DatumText(i.item) + (ItemsText(i.more) + rest))
    ensures Spaces(i.gap) && DatumOk(i.item, ItemsText(i.more) + rest) && ItemsOk(i.more, rest)
    ensures !(i.item == Token([DOT]) && StartsTail(ItemsText(i.more) + rest))
  {
    assert ItemsText(i) == i.gap + (DatumText(i.item) + ItemsText(i.more));
    hide ItemsText, DatumText, DatumOk, Spaces;
    ThreePieces(i.gap, DatumText(i.item), ItemsText(i.more), rest);
  }

  lemma ThreePieces(a: Bytes, b: Bytes, c: Bytes, rest: Bytes)
    ensures a + (b + c) + rest == a + (b + (c + rest))
  {
  }

  lemma MoreMeaning(i: Items, rest: Bytes, n: nat, depth: nat, types: set<Bytes>)
    requires i.More?
    ensures var after := ItemsText(i.more) + rest;
      var first := Before(DatumMeans(i.item, after, depth, types), after);
      var others := ItemsBefore(ItemsMean(i.more, rest, n + 1, depth, types), rest);
      && (first.Ok? ==> first.value.1 == after)
      && ItemsBefore(ItemsMean(i, rest, n, depth, types), rest) ==
         if n >= 256 then Abort
         else match first {
           case Abort => Abort
           case Ok((v, _)) =>
             match others {
               case Abort => Abort
               case Ok((vs, end)) => Ok(([v] + vs, end))
             }
         }
  {
    var after := ItemsText(i.more) + rest;
    var m := ItemsMean(i.more, rest, n + 1, depth, types);
    assert ItemsMean(i, rest, n, depth, types) ==
      if n >= 256 then Abort
      else match (DatumMeans(i.item, after, depth, types), m) {
        case (Ok(x), Ok((vs, tail))) => Ok(([x] + vs, tail))
        case _ => Abort
      };
    hide ItemsText, DatumMeans, ItemsMean;
  }

  lemma {:induction false} ItemsRead(i: Items, rest: Bytes, n: nat, depth: nat, types: set<Bytes>)
    requires ItemsOk(i, rest)
    ensures ReadItems(ItemsText(i) + rest, n, depth, types) == ItemsBefore(ItemsMean(i, rest, n, depth, types), rest)
    decreases i, 0
  {
    match i
    case Close(gap) =>
      CloseRead(gap, rest, n, depth, types);
      hide ReadItems;
    case Dotted(_, _, tail, gapClose) =>
      DatumRead(tail, gapClose + ([CLOSE] + rest), depth, types);
      DottedRead(i, rest, n, depth, types);
    case More(_, item, more) =>
      DatumRead(item, ItemsText(more) + rest, depth, types);
      ItemsRead(more, rest, n + 1, depth, types);
      MoreRead(i, rest, n, depth, types);
  }

  // ---- what is read is a text of the grammar

  lemma {:induction false} SpacesOf(s: Bytes) returns (gap: Bytes)
    ensures Spaces(gap) && s == gap + SkipWs(s)
  {
    if s != [] && IsSpace(s[0]) {
      var more := SpacesOf(s[1..]);
      gap := [s[0]] + more;
    } else {
      gap := [];
    }
  }

  lemma {:induction false} CharsOf(s: Bytes) returns (chars: seq<StrChr>)
    requires ReadChars(s).Ok?
    ensures CharsOk(chars) && s == CharsText(chars) + [QUOTE] + ReadChars(s).value.1
    ensures CharsHeld(chars) == ReadChars(s).value.0
    decreases |s|
  {
    if s[0] == QUOTE {
      chars := [];
      assert s == [] + [QUOTE] + s[1..];
    } else {
      var n := if s[0] == BACKSLASH && |s| > 1 then 1 else 0;
      assert ReadChars([]).Abort?;
      var more := CharsOf(s[n + 1..]);
      var c := if n == 1 then Escaped(s[1]) else Itself(s[0]);
      chars := [c] + more;
      var rest := ReadChars(s).value.1;
      assert chars[1..] == more && s == s[..n + 1] + s[n + 1..];
      assert s[..n + 1] == if c.Escaped? then [BACKSLASH, c.b] else [c.b];
      hide ReadChars;
      CharsParts(chars, rest);
      OneMoreOk(c, more);
    }
  }

  lemma OneMoreOk(c: StrChr, more: seq<StrChr>)
    requires CharsOk(more) && (c.Itself? ==> c.b != QUOTE && c.b != BACKSLASH)
    ensures CharsOk([c] + more)
  {
    var chars := [c] + more;
    assert forall k :: 0 < k < |chars| ==> chars[k] == more[k - 1];
  }

  lemma {:induction false} SemicolonOf(s: Bytes)
    ensures SEMICOLON !in s[..UpToSemicolon(s)]
    ensures UpToSemicolon(s) < |s| ==> s[UpToSemicolon(s)] == SEMICOLON
  {
    if s != [] && s[0] != SEMICOLON {
      SemicolonOf(s[1..]);
      assert s[..UpToSemicolon(s)] == [s[0]] + s[1..][..UpToSemicolon(s[1..])];
    }
  }

  lemma HexCharOf(t: Bytes, depth: nat, types: set<Bytes>) returns (d: Datum)
    ensures var n := UpToSemicolon(t);
      var rest := if n < |t| then t[n + 1..] else [];
      && DatumOk(d, rest) && [HASH, BACKSLASH, LOWER_X] + t == DatumText(d) + rest
      && DatumMeans(d, rest, depth, types) == Ok(Value.Char(StrToL16(t[..n])))
  {
    hide StrToL16, UpToSemicolon;
    var n := UpToSemicolon(t);
    SemicolonOf(t);
    d := HexChar(t[..n], n < |t|);
    if n < |t| {
      assert t == t[..n] + [SEMICOLON] + t[n + 1..];
    } else {
      assert t[..n] == t && t + [] == t;
    }
  }

  lemma HexCharIs(s: Bytes)
    requires s != [] && s[0] == LOWER_X
    ensures var t := s[1..];
      var n := UpToSemicolon(t);
      ReadChar(s) == Ok((Value.Char(StrToL16(t[..n])), if n < |t| then t[n + 1..] else []))
  {
    hide StrToL16, UpToSemicolon;
    var t := s[1..];
    var n := UpToSemicolon(t);
    assert s[1..1 + n] == t[..n];
    assert n < |t| ==> s[n + 2..] == t[n + 1..];
  }

  lemma ByteCharIs(s: Bytes, depth: nat, types: set<Bytes>)
    requires s != [] && s[0] != LOWER_X
    ensures ReadChar(s) == Ok((Value.Char(s[0] as int), s[1..])) && DatumOk(ByteChar(s[0]), s[1..])
    ensures [HASH, BACKSLASH] + s == DatumText(ByteChar(s[0])) + s[1..]
    ensures DatumMeans(ByteChar(s[0]), s[1..], depth, types) == Ok(Value.Char(s[0] as int))
  {
  }

  lemma CharOf(s: Bytes, depth: nat, types: set<Bytes>) returns (d: Datum)
    requires ReadChar(s).Ok?
    ensures var (v, rest) := ReadChar(s).value;
      DatumOk(d, rest) && [HASH, BACKSLASH] + s == DatumText(d) + rest && DatumMeans(d, rest, depth, types) == Ok(v)
  {
    assert s != [];
    hide *;
    if s[0] == LOWER_X {
      HexCharIs(s);
      d := HexCharOf(s[1..], depth, types);
      assert [HASH, BACKSLASH] + s == [HASH, BACKSLASH, LOWER_X] + s[1..];
    } else {
      ByteCharIs(s, depth, types);
      d := ByteChar(s[0]);
    }
  }

  // Read unfolded once, where the text starts.
  lemma ReadStep(s: Bytes, depth: nat, types: set<Bytes>)
    requires Read(s, depth, types).Ok?
    ensures var t := SkipWs(s);
      && t != []
      && (t[0] == OPEN ==> Read(s, depth, types) == ReadList(t[1..], depth, types))
      && (t[0] == QUOTE ==> ReadChars(t[1..]).Ok?)
      && (t[0] == QUOTE ==>
            Read(s, depth, types) == Ok((StringValue(ReadChars(t[1..]).value.0), ReadChars(t[1..]).value.1)))
      && (t[0] == HASH ==>
            && |t| > 1
            && (t[1] == OPEN ==> ReadList(t[2..], depth, types).Ok?)
            && (t[1] == OPEN ==>
                  var (lst, rest) := ReadList(t[2..], depth, types).value;
                  Read(s, depth, types) == Ok((Vector(ListItems(lst)), rest)))
            && (t[1] == 116 || t[1] == 102 ==> Read(s, depth, types) == Ok((Value.Bool(t[1] == 116), t[2..])))
            && (t[1] == BACKSLASH ==> Read(s, depth, types) == ReadChar(t[2..]))
            && t[1] in [OPEN, 116, 102, BACKSLASH])
      && (t[0] != OPEN && t[0] != QUOTE && t[0] != HASH ==>
            var n := Wire.Token(t);
            n > 0 && Read(s, depth, types) == Ok((TokenValue(t[..n], t[n..]), t[n..])))
  {
    hide SkipWs, ReadList, ReadChars, StringValue, ReadChar, Wire.Token, TokenValue, ListItems;
  }

  lemma ListValueMeans(s: Bytes, depth: nat, types: set<Bytes>)
    requires ReadList(s, depth, types).Ok?
    ensures depth < 256 && ReadItems(s, 0, depth + 1, types).Ok?
    ensures var (items, (tail, rest)) := ReadItems(s, 0, depth + 1, types).value;
      ReadList(s, depth, types) == Before(Tailed(Ok((items, tail)), types), rest)
  {
    hide ReadItems, Prepend;
  }

  lemma TokenTaken(t: Bytes, depth: nat, types: set<Bytes>)
    requires t != [] && t[0] != QUOTE && t[0] != HASH && Wire.Token(t) > 0
    ensures var n := Wire.Token(t);
      && DatumOk(Token(t[..n]), t[n..]) && t == DatumText(Token(t[..n])) + t[n..]
      && DatumMeans(Token(t[..n]), t[n..], depth, types) == Ok(TokenValue(t[..n], t[n..]))
  {
    hide TokenValue;
  }

  lemma QuotedTaken(t: Bytes, chars: seq<StrChr>, rest: Bytes, depth: nat, types: set<Bytes>)
    requires t != [] && t[0] == QUOTE && CharsOk(chars) && t[1..] == CharsText(chars) + [QUOTE] + rest
    ensures DatumOk(Quoted(chars), rest) && t == DatumText(Quoted(chars)) + rest
    ensures DatumMeans(Quoted(chars), rest, depth, types) == Ok(StringValue(CharsHeld(chars)))
  {
    hide CharsText, StringValue, CharsHeld, CharsOk;
    assert t == [QUOTE] + t[1..];
    Regroup([QUOTE], CharsText(chars), [QUOTE], rest);
  }

  lemma TruthTaken(t: Bytes, depth: nat, types: set<Bytes>)
    requires |t| > 1 && t[0] == HASH && (t[1] == 116 || t[1] == 102)
    ensures var d := Truth(t[1] == 116);
      DatumOk(d, t[2..]) && t == DatumText(d) + t[2..] && DatumMeans(d, t[2..], depth, types) == Ok(Value.Bool(t[1] == 116))
  {
  }

  lemma ListTaken(items: Items, rest: Bytes, depth: nat, types: set<Bytes>)
    requires ItemsOk(items, rest) && depth < 256
    ensures DatumOk(ListOf(items), rest) && DatumOk(VectorOf(items), rest)
    ensures DatumMeans(ListOf(items), rest, depth, types) == Tailed(ItemsMean(items, rest, 0, depth + 1, types), types)
    ensures DatumMeans(VectorOf(items), rest, depth, types)
      == AsVector(Tailed(ItemsMean(items, rest, 0, depth + 1, types), types))
  {
    hide ItemsOk, ItemsMean, Tailed;
  }

  lemma AsVectorIs(r: Result<Value>, rest: Bytes)
    ensures Before(r, rest).Ok? <==> r.Ok?
    ensures r.Ok? ==> Before(r, rest) == Ok((r.value, rest)) && AsVector(r) == Ok(Vector(ListItems(r.value)))
  {
    hide ListItems;
  }

  lemma {:induction false} DatumOf(s: Bytes, depth: nat, types: set<Bytes>) returns (gap: Bytes, d: Datum)
    requires Read(s, depth, types).Ok?
    ensures var (v, rest) := Read(s, depth, types).value;
      && Spaces(gap) && DatumOk(d, rest) && s == gap + (DatumText(d) + rest)
      && DatumMeans(d, rest, depth, types) == Ok(v)
    decreases |s|, 1
  {
    hide *;
    gap := SpacesOf(s);
    ReadStep(s, depth, types);
    var t := SkipWs(s);
    assert |s| == |gap| + |t|;
    if t[0] == OPEN {
      ListValueMeans(t[1..], depth, types);
      var items := ItemsOf(t[1..], 0, depth + 1, types);
      var (vs, (tail, rest)) := ReadItems(t[1..], 0, depth + 1, types).value;
      d := ListOf(items);
      ListTaken(items, rest, depth, types);
      ListText(items, rest);
      AsVectorIs(Tailed(Ok((vs, tail)), types), rest);
      assert t == [OPEN] + t[1..];
    } else if t[0] == QUOTE {
      var chars := CharsOf(t[1..]);
      d := Quoted(chars);
      QuotedTaken(t, chars, ReadChars(t[1..]).value.1, depth, types);
    } else if t[0] != HASH {
      d := Token(t[..Wire.Token(t)]);
      TokenTaken(t, depth, types);
    } else if t[1] == OPEN {
      ListValueMeans(t[2..], depth, types);
      var items := ItemsOf(t[2..], 0, depth + 1, types);
      var (vs, (tail, rest)) := ReadItems(t[2..], 0, depth + 1, types).value;
      d := VectorOf(items);
      ListTaken(items, rest, depth, types);
      ListText(items, rest);
      AsVectorIs(Tailed(Ok((vs, tail)), types), rest);
      assert t == [HASH, OPEN] + t[2..];
    } else if t[1] == BACKSLASH {
      d := CharOf(t[2..], depth, types);
      assert t == [HASH, BACKSLASH] + t[2..];
    } else {
      d := Truth(t[1] == 116);
      TruthTaken(t, depth, types);
    }
  }

  lemma {:induction false} ItemsOf(s: Bytes, n: nat, depth: nat, types: set<Bytes>) returns (i: Items)
    requires ReadItems(s, n, depth, types).Ok?
    ensures var (vs, (tail, rest)) := ReadItems(s, n, depth, types).value;
      && ItemsOk(i, rest) && s == ItemsText(i) + rest && ItemsMean(i, rest, n, depth, types) == Ok((vs, tail))
    decreases |s|, 2
  {
    hide *;
    var gap := SpacesOf(s);
    ItemsUnfold(s, n, depth, types);
    var t := SkipWs(s);
    assert |s| == |gap| + |t|;
    if t[0] == CLOSE {
      i := Close(gap);
      assert t == [CLOSE] + t[1..];
      CloseTaken(gap, t[1..], n, depth, types);
    } else if t[0] == DOT && StartsTail(t[1..]) {
      i := DottedOf(s, gap, n, depth, types);
    } else {
      var (v, more) := Read(t, depth, types).value;
      var none, d := DatumOf(t, depth, types);
      NoGap(t, none, d, more);
      assert |more| < |s|;
      var items := ItemsOf(more, n + 1, depth, types);
      i := More(gap, d, items);
      MoreTaken(i, ReadItems(more, n + 1, depth, types).value.1.1, n, depth, types);
    }
  }

  lemma NoGap(t: Bytes, none: Bytes, d: Datum, rest: Bytes)
    requires t != [] && !IsSpace(t[0]) && Spaces(none) && t == none + (DatumText(d) + rest)
    ensures t == DatumText(d) + rest
  {
    hide DatumText;
    var x := DatumText(d) + rest;
    if none == [] {
      assert none + x == x;
    } else {
      assert false;
    }
  }

  lemma CloseTaken(gap: Bytes, rest: Bytes, n: nat, depth: nat, types: set<Bytes>)
    requires Spaces(gap)
    ensures ItemsOk(Close(gap), rest) && gap + ([CLOSE] + rest) == ItemsText(Close(gap)) + rest
    ensures ItemsMean(Close(gap), rest, n, depth, types) == Ok(([], None))
  {
  }

  lemma MoreTaken(i: Items, rest: Bytes, n: nat, depth: nat, types: set<Bytes>)
    requires i.More? && Spaces(i.gap) && DatumOk(i.item, ItemsText(i.more) + rest) && ItemsOk(i.more, rest) && n < 256
    requires DatumMeans(i.item, ItemsText(i.more) + rest, depth, types).Ok?
    requires ItemsMean(i.more, rest, n + 1, depth, types).Ok?
    requires var t := DatumText(i.item) + (ItemsText(i.more) + rest);
      t != [] && !(t[0] == DOT && StartsTail(t[1..]))
    ensures ItemsOk(i, rest) && i.gap + (DatumText(i.item) + (ItemsText(i.more) + rest)) == ItemsText(i) + rest
    ensures var (vs, tail) := ItemsMean(i.more, rest, n + 1, depth, types).value;
      ItemsMean(i, rest, n, depth, types)
      == Ok(([DatumMeans(i.item, ItemsText(i.more) + rest, depth, types).value] + vs, tail))
  {
    DatumStarts(i.item, ItemsText(i.more) + rest);
    var v, m := DatumText(i.item), ItemsText(i.more);
    assert ItemsText(i) == i.gap + (v + m);
    hide DatumText, DatumOk, Spaces, ItemsText, DatumMeans;
    assert i.gap + (v + m) + rest == i.gap + (v + (m + rest));
  }

  lemma DottedTaken(i: Items, rest: Bytes, n: nat, depth: nat, types: set<Bytes>)
    requires i.Dotted? && Spaces(i.gap) && Spaces(i.gapTail) && Spaces(i.gapClose)
    requires var after := i.gapClose + ([CLOSE] + rest);
      && DatumOk(i.tail, after) && StartsTail(i.gapTail + (DatumText(i.tail) + after))
      && DatumMeans(i.tail, after, depth, types).Ok?
    ensures ItemsOk(i, rest)
    ensures i.gap + ([DOT] + (i.gapTail + (DatumText(i.tail) + (i.gapClose + ([CLOSE] + rest))))) == ItemsText(i) + rest
    ensures ItemsMean(i, rest, n, depth, types)
      == Ok(([], Some(DatumMeans(i.tail, i.gapClose + ([CLOSE] + rest), depth, types).value)))
  {
    hide DatumText, DatumOk, ItemsText, DatumMeans, Spaces;
    var after := i.gapClose + ([CLOSE] + rest);
    DatumStarts(i.tail, after);
    SpaceOrList(i.gapTail, DatumText(i.tail) + after);
    DottedPieces(i, rest);
  }

  lemma SpaceOrList(gap: Bytes, s: Bytes)
    requires StartsTail(gap + s) && Spaces(gap)
    ensures gap == [] ==> s != [] && (s[0] == SPACE || s[0] == OPEN)
    ensures gap != [] ==> gap[0] == SPACE
  {
    assert gap == [] ==> gap + s == s;
    assert gap != [] ==> (gap + s)[0] == gap[0];
  }

  lemma DottedPieces(i: Items, rest: Bytes)
    requires i.Dotted?
    ensures i.gap + ([DOT] + (i.gapTail + (DatumText(i.tail) + (i.gapClose + ([CLOSE] + rest))))) == ItemsText(i) + rest
  {
    var v := DatumText(i.tail);
    assert ItemsText(i) == i.gap + ([DOT] + (i.gapTail + (v + (i.gapClose + [CLOSE]))));
    hide DatumText, ItemsText;
    ThreePieces(i.gapTail, v, i.gapClose + [CLOSE], rest);
    Associates(i.gapClose, [CLOSE], rest);
    ThreePieces(i.gap, [DOT], i.gapTail + (v + (i.gapClose + [CLOSE])), rest);
  }

  lemma {:induction false} DottedOf(s: Bytes, gap: Bytes, n: nat, depth: nat, types: set<Bytes>) returns (i: Items)
    requires ReadItems(s, n, depth, types).Ok? && Spaces(gap) && s == gap + SkipWs(s)
    requires var t := SkipWs(s); t != [] && t[0] == DOT && StartsTail(t[1..])
    ensures var (vs, (tail, rest)) := ReadItems(s, n, depth, types).value;
      && ItemsOk(i, rest) && s == ItemsText(i) + rest && ItemsMean(i, rest, n, depth, types) == Ok((vs, tail))
    decreases |s|, 0
  {
    hide *;
    ItemsUnfold(s, n, depth, types);
    PointIsNotClose();
    var t := SkipWs(s);
    var gapTail := SpacesOf(t[1..]);
    var w := SkipWs(t[1..]);
    assert |s| == |gap| + |t| && |t| == 1 + |gapTail| + |w|;
    var (v, more) := Read(w, depth, types).value;
    var none, d := DatumOf(w, depth, types);
    ReadStarts(w, depth, types);
    NoGap(w, none, d, more);
    var gapClose := SpacesOf(more);
    var u := SkipWs(more);
    assert u == [CLOSE] + u[1..] && t == [DOT] + t[1..];
    i := Dotted(gap, gapTail, d, gapClose);
    DottedTaken(i, u[1..], n, depth, types);
  }

  lemma PointIsNotClose()
    ensures DOT != CLOSE
  {
  }

  lemma ReadStarts(w: Bytes, depth: nat, types: set<Bytes>)
    requires Read(w, depth, types).Ok?
    ensures w != []
  {
    hide ReadList, ReadChars, ReadChar, Wire.Token, TokenValue;
  }

  // ---- messages

  // A message is read exactly as the grammar says: white space, one datum, and anything at all behind it.
  lemma DecodesExactlyData(s: Bytes, types: set<Bytes>, v: Value)
    ensures Decode(s, types) == Ok(v) <==>
      exists gap, d, rest :: Spaces(gap) && DatumOk(d, rest) && s == gap + (DatumText(d) + rest)
        && DatumMeans(d, rest, 0, types) == Ok(v)
  {
    hide Read, DatumOk, DatumText, DatumMeans, Spaces;
    if Decode(s, types) == Ok(v) {
      var rest := Read(s, 0, types).value.1;
      var gap, d := DatumOf(s, 0, types);
    }
    if gap, d, rest :| (Spaces(gap) && DatumOk(d, rest) && s == gap + (DatumText(d) + rest)
                        && DatumMeans(d, rest, 0, types) == Ok(v))
    {
      DatumRead(d, rest, 0, types);
      DatumStarts(d, rest);
      SpaceFirst(gap, DatumText(d) + rest, types);
    }
  }

  lemma SpaceFirst(gap: Bytes, s: Bytes, types: set<Bytes>)
    requires Spaces(gap)
    ensures Read(gap + s, 0, types) == Read(s, 0, types)
  {
    SkipSpaces(gap, s);
    hide ReadList, ReadChars, ReadChar, Wire.Token, TokenValue, SkipWs, StringValue;
  }

  // The bytes that the grammar above is written with.
  lemma Punctuation()
    ensures [QUOTE] == Ascii("\"") && [HASH] == Ascii("#") && [OPEN] == Ascii("(") && [CLOSE] == Ascii(")")
    ensures [DOT] == Ascii(".") && [SEMICOLON] == Ascii(";") && [BACKSLASH] == Ascii("\\") && [SPACE] == Ascii(" ")
    ensures [LOWER_X] == Ascii("x") && RECORD_TAG == Ascii("@record") && REF_TAG == Ascii("@ref:")
    ensures INF == Ascii("inf") && INFINITY == Ascii("infinity") && NAN == Ascii("nan")
    ensures forall c: byte :: IsCSpace(c) <==> c in Ascii(" \t\n\r") + [11, 12]
    ensures forall c: byte :: IsPayloadChar(c) <==>
      || c == '_' as int || '0' as int <= c <= '9' as int || 'A' as int <= c <= 'Z' as int || 'a' as int <= c <= 'z' as int
  {
    var row := Ascii(" \t\n\r") + [11, 12];
    assert row[0] == 32 && row[1] == 9 && row[2] == 10 && row[3] == 13 && row[4] == 11 && row[5] == 12;
  }
}
