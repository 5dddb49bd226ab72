/** json-write and back (icecreme/json.c): what is written is a text of the grammar, and read as the normal form. */
module JsonRoundTrip {
  import opened Util
  import opened Decimal
  import opened Products
  import opened SchemeValue
  import opened Json
  import opened JsonTokens
  import opened JsonDocument

  // ---- the text that a value is written as

  // How a byte of a string is written: as itself, by a letter, or by its code.
  function ChrFor(c: byte): Chr {
    if c == QUOTE || c == BACKSLASH then Short(c)
    else if c == 10 then Short(110)
    else if c == 13 then Short(114)
    else if c == 9 then Short(116)
    else if c < 0x20 then Code([48, 48, LOWER_HEX[c / 16], LOWER_HEX[c % 16]])
    else Plain(c)
  }

  function CharsFor(s: seq<byte>): seq<Chr> {
    if s == [] then [] else [ChrFor(s[0])] + CharsFor(s[1..])
  }

  function NumberFor(i: int): Number {
    Number(i < 0, Digits(Abs(i)), None, None)
  }

  function TreeFor(v: Value): Tree
    requires Writable(v)
    decreases v, 1, 0
  {
    match v
    case Nil => Null
    case Bool(b) => Boolean(b)
    case Int(i) => Num(NumberFor(i))
    case Str(s) => Text(CharsFor(s))
    case Char(code) => Text(CharsFor([code % 256]))
    case Vector(items) => if items == [] then EmptyArray([]) else Array(ItemsFor(items, v))
    case Pair(_, _) =>
      if IsAlist(v) then Object(EntriesFor(ListItems(v), v)) else Array(ItemsFor(ListItems(v), v))
  }

  function ItemsFor(items: seq<Value>, parent: Value): Items
    requires items != [] && forall k :: 0 <= k < |items| ==> Writable(items[k]) && items[k] < parent
    decreases parent, 0, |items|
  {
    if |items| == 1 then LastItem([], TreeFor(items[0]), [])
    else Item([], TreeFor(items[0]), [], ItemsFor(items[1..], parent))
  }

  function EntriesFor(items: seq<Value>, parent: Value): Entries
    requires EntriesOnly(items)
    requires items != [] && forall k :: 0 <= k < |items| ==> Writable(items[k].cdr) && items[k] < parent
    decreases parent, 0, |items|
  {
    var key := CharsFor(items[0].car.bytes);
    if |items| == 1 then LastEntry([], key, [], [], TreeFor(items[0].cdr), [])
    else Entry([], key, [], [], TreeFor(items[0].cdr), [], EntriesFor(items[1..], parent))
  }

  // ---- no white space, no empty object, no superfluous zero, and only the escapes that are needed

  predicate PlainChr(c: Chr) {
    match c
    case Plain(b) => b >= 0x20
    case Short(letter) => letter in [34, 92, 110, 114, 116]
    case Code(hex) =>
      && |hex| == 4 && hex[0] == 48 && hex[1] == 48 && (hex[2] == 48 || hex[2] == 49) && hex[3] in LOWER_HEX
      && (hex[2] == 48 ==> hex[3] !in [57, 97, 100])
  }

  predicate PlainChars(chars: seq<Chr>) {
    forall k :: 0 <= k < |chars| ==> PlainChr(chars[k])
  }

  predicate PlainTree(t: Tree) {
    match t
    case Num(n) => n.fraction.None? && n.exponent.None? && PlainNumeral(NumberText(n))
    case Text(chars) => PlainChars(chars)
    case EmptyArray(gap) => gap == []
    case Array(items) => PlainItems(items)
    case EmptyObject(_) => false
    case Object(entries) => PlainEntries(entries)
    case _ => true
  }

  predicate PlainItems(i: Items) {
    i.before == i.after == [] && PlainTree(i.value) && (i.Item? ==> PlainItems(i.more))
  }

  predicate PlainEntries(e: Entries) {
    && e.before == e.afterKey == e.beforeValue == e.after == [] && PlainChars(e.key) && PlainTree(e.value)
    && (e.Entry? ==> PlainEntries(e.more))
  }

  // ---- strings and numbers

  lemma CodeFor(c: byte)
    requires c < 0x20
    ensures HexStandsFor([48, 48, LOWER_HEX[c / 16], LOWER_HEX[c % 16]], c)
    ensures LOWER_HEX[c / 16] == HexDigit(c / 16) && LOWER_HEX[c % 16] == HexDigit(c % 16)
  {
    var hex := [48, 48, LOWER_HEX[c / 16], LOWER_HEX[c % 16]];
    assert IsHex(hex[0], 0) && IsHex(hex[1], 0) && IsHex(hex[2], c / 16) && IsHex(hex[3], c % 16);
  }

  lemma ControlIs(c: byte)
    requires c < 0x20 && c != 10 && c != 13 && c != 9
    ensures ChrOk(ChrFor(c)) && PlainChr(ChrFor(c)) && ChrText(ChrFor(c)) == Escape(c) && ChrBytes(ChrFor(c)) == [c]
  {
    var hex := ControlText(c);
    hide HexStandsFor, CodePoint, HexDigit, Escape, ChrFor;
    HexRead(hex, c);
    LowHex(c);
  }

  lemma ControlText(c: byte) returns (hex: seq<byte>)
    requires c < 0x20 && c != 10 && c != 13 && c != 9
    ensures hex == [48, 48, LOWER_HEX[c / 16], LOWER_HEX[c % 16]] && ChrFor(c) == Code(hex)
    ensures HexStandsFor(hex, c) && Escape(c) == [BACKSLASH, LOWER_U] + hex
  {
    hex := [48, 48, LOWER_HEX[c / 16], LOWER_HEX[c % 16]];
    CodeFor(c);
    hide HexStandsFor, HexDigit, LOWER_HEX;
    assert [BACKSLASH, LOWER_U] + hex == [BACKSLASH, LOWER_U, hex[0], hex[1], hex[2], hex[3]];
  }

  lemma HexRow(d: nat)
    requires d < 16
    ensures LOWER_HEX[d] in LOWER_HEX
    ensures LOWER_HEX[d] == 57 <==> d == 9
    ensures LOWER_HEX[d] == 97 <==> d == 10
    ensures LOWER_HEX[d] == 100 <==> d == 13
    ensures d < 2 ==> LOWER_HEX[d] == 48 + d
  {
    var c := if d < 10 then 48 + d else 87 + d;
    assert LOWER_HEX[d] == c;
  }

  lemma LowHex(c: byte)
    requires c < 0x20 && c != 10 && c != 13 && c != 9
    ensures PlainChr(Code([48, 48, LOWER_HEX[c / 16], LOWER_HEX[c % 16]]))
  {
    HexRow(c / 16);
    HexRow(c % 16);
    hide LOWER_HEX;
    assert c / 16 == 0 ==> c % 16 == c;
  }

  lemma ShortIs(c: byte)
    requires c == QUOTE || c == BACKSLASH || c == 10 || c == 13 || c == 9
    ensures ChrOk(ChrFor(c)) && PlainChr(ChrFor(c)) && ChrText(ChrFor(c)) == Escape(c) && ChrBytes(ChrFor(c)) == [c]
  {
  }

  lemma ChrIs(c: byte)
    ensures ChrOk(ChrFor(c)) && PlainChr(ChrFor(c)) && ChrText(ChrFor(c)) == Escape(c)
    ensures ChrBytes(ChrFor(c)) == [c]
  {
    if c == QUOTE || c == BACKSLASH || c == 10 || c == 13 || c == 9 {
      ShortIs(c);
      hide *;
    } else if c < 0x20 {
      ControlIs(c);
      hide *;
    }
  }

  lemma {:induction false} CharsIs(s: seq<byte>)
    ensures CharsOk(CharsFor(s)) && PlainChars(CharsFor(s)) && CharsText(CharsFor(s)) == EscapeAll(s)
    ensures CharsBytes(CharsFor(s)) == s
  {
    hide ChrFor, ChrText, ChrBytes, ChrOk, PlainChr, Escape, CharsOk, PlainChars, CharsText, CharsBytes, EscapeAll;
    if s == [] {
      NothingIs();
    } else {
      ChrIs(s[0]);
      CharsIs(s[1..]);
      OneMoreChr(s);
    }
  }

  lemma NothingIs()
    ensures CharsOk([]) && PlainChars([]) && CharsText([]) == EscapeAll([]) && CharsBytes([]) == []
  {
  }

  lemma OneMoreChr(s: seq<byte>)
    requires s != [] && ChrOk(ChrFor(s[0])) && PlainChr(ChrFor(s[0])) && ChrText(ChrFor(s[0])) == Escape(s[0])
    requires ChrBytes(ChrFor(s[0])) == [s[0]] && CharsOk(CharsFor(s[1..])) && PlainChars(CharsFor(s[1..]))
    requires CharsText(CharsFor(s[1..])) == EscapeAll(s[1..]) && CharsBytes(CharsFor(s[1..])) == s[1..]
    ensures CharsOk(CharsFor(s)) && PlainChars(CharsFor(s)) && CharsText(CharsFor(s)) == EscapeAll(s)
    ensures CharsBytes(CharsFor(s)) == s
  {
    hide ChrFor, ChrText, ChrBytes, ChrOk, PlainChr, Escape, CharsText, CharsBytes, EscapeAll;
    var chars := CharsFor(s);
    assert chars[0] == ChrFor(s[0]) && chars[1..] == CharsFor(s[1..]);
    assert forall k :: 0 < k < |chars| ==> chars[k] == chars[1..][k - 1];
    TextParts(chars);
    EscapeParts(s);
    assert s == [s[0]] + s[1..];
  }

  lemma TextParts(chars: seq<Chr>)
    requires chars != [] && CharsOk(chars)
    ensures CharsOk(chars[1..]) && CharsText(chars) == ChrText(chars[0]) + CharsText(chars[1..])
    ensures CharsBytes(chars) == ChrBytes(chars[0]) + CharsBytes(chars[1..])
  {
    hide ChrText, ChrBytes, ChrOk;
  }

  lemma EscapeParts(s: seq<byte>)
    requires s != []
    ensures EscapeAll(s) == Escape(s[0]) + EscapeAll(s[1..])
  {
    hide Escape;
  }

  // Strings come back byte for byte, whatever the bytes.
  lemma StringRoundTrip(bytes: seq<byte>, rest: seq<byte>)
    ensures ParseChars(EscapeAll(bytes) + [QUOTE] + rest) == Ok((bytes, rest))
  {
    CharsIs(bytes);
    CharsRead(CharsFor(bytes), rest);
    hide *;
  }

  lemma NumberIs(i: int64)
    ensures NumberOk(NumberFor(i)) && NumberText(NumberFor(i)) == DecimalText(i)
    ensures NumberValue(NumberFor(i)) == Some(Value.Int(i)) && PlainNumeral(NumberText(NumberFor(i)))
    ensures NumberFor(i).fraction.None? && NumberFor(i).exponent.None?
  {
    DecimalTextIsPlain(i);
    DigitsRoundTrip(Abs(i));
    hide Digits, DigitsValue, PlainNumeral;
    var d := Digits(Abs(i));
    assert [] + d + [] + [] == d && [MINUS] + d + [] + [] == [MINUS] + d;
  }

  // Every 64-bit integer comes back, before anything that delimits it.
  lemma NumberRoundTrip(i: int64, rest: seq<byte>)
    requires Delimits(rest)
    ensures ParseNumber(DecimalText(i) + rest) == Ok((Value.Int(i), rest))
  {
    NumberIs(i);
    NumberRead(NumberFor(i), rest);
    hide *;
  }

  // ---- values

  // The tree is in order, plain, stands for the normal form, nests as deep, and its text is what is written.
  ghost predicate Is(t: Tree, v: Value, text: Result<seq<byte>>)
  {
    TreeOk(t) && PlainTree(t) && TreeMeans(t) == Norm(v) && Nesting(t) == Height(v) && NumbersFit(t) && text == Ok(TreeText(t))
  }

  lemma WordIs(v: Value)
    requires v.Nil? || v.Bool?
    ensures Is(TreeFor(v), v, Write(v))
  {
    hide NumberText, CharsText;
  }

  lemma IntIs(i: int64)
    ensures Is(TreeFor(Value.Int(i)), Value.Int(i), Write(Value.Int(i)))
  {
    NumberIs(i);
    hide NumberOk, NumberText, NumberValue, PlainNumeral, NumberFor, DecimalText;
  }

  lemma TextIs(s: seq<byte>)
    ensures var t := Text(CharsFor(s));
      TreeOk(t) && PlainTree(t) && TreeMeans(t) == Str(s) && Nesting(t) == 1 && NumbersFit(t) && TreeText(t) == WriteString(s)
  {
    CharsIs(s);
    hide CharsOk, CharsText, CharsBytes, PlainChars, EscapeAll, CharsFor;
    Associates([QUOTE], EscapeAll(s), [QUOTE]);
  }

  lemma AtomIs(v: Value)
    requires FloatFree(v) && Writable(v) && !v.Vector? && !v.Pair?
    ensures Is(TreeFor(v), v, Write(v))
  {
    match v
    case Int(i) =>
      IntIs(i);
      hide *;
    case Str(s) =>
      TextIs(s);
      hide TreeOk, PlainTree, TreeMeans, Nesting, NumbersFit, TreeText, WriteString, CharsFor;
    case Char(code) =>
      TextIs([code % 256]);
      hide TreeOk, PlainTree, TreeMeans, Nesting, NumbersFit, TreeText, WriteString, CharsFor;
    case _ =>
      WordIs(v);
      hide *;
  }

  ghost predicate ItemsAre(i: Items, items: seq<Value>, parent: Value, text: Result<seq<byte>>)
    requires forall k :: 0 <= k < |items| ==> items[k] < parent
  {
    && ItemsOk(i) && PlainItems(i) && ItemsMean(i) == NormItems(items, parent)
    && ItemsNesting(i) == ItemsHeight(items, parent) && ItemsFit(i) && text == Ok(ItemsText(i))
  }

  ghost predicate EntriesAre(e: Entries, items: seq<Value>, parent: Value, text: Result<seq<byte>>)
    requires EntriesOnly(items) && forall k :: 0 <= k < |items| ==> items[k] < parent
  {
    && EntriesOk(e) && PlainEntries(e) && EntriesMean(e) == NormEntries(items, parent)
    && EntriesNesting(e) == EntriesHeight(items, parent) && EntriesFit(e) && text == Ok(EntriesText(e))
  }

  lemma LastItemText(items: seq<Value>, parent: Value)
    requires |items| == 1 && AllFloatFree(items) && items[0] < parent && Write(items[0]).Ok?
    ensures WriteItems(items, parent) == Ok(Write(items[0]).value + [CLOSE_BRACKET])
    ensures NormItems(items, parent) == [Norm(items[0])] && ItemsHeight(items, parent) == Height(items[0])
  {
    hide Write, Norm, Height, FloatFree;
    var none := items[1..];
    assert none == [] && WriteItems(none, parent) == Ok([CLOSE_BRACKET]);
    assert NormItems(none, parent) == [] && ItemsHeight(none, parent) == 0;
    assert Write(items[0]).value + [] == Write(items[0]).value;
  }

  lemma LastItemIs(items: seq<Value>, parent: Value, t: Tree)
    requires |items| == 1 && AllFloatFree(items) && items[0] < parent && Is(t, items[0], Write(items[0]))
    ensures ItemsAre(LastItem([], t, []), items, parent, WriteItems(items, parent))
  {
    hide Write, WriteItems, NormItems, ItemsHeight, Norm, Height, TreeOk, TreeText, TreeMeans, Nesting, NumbersFit,
      PlainTree, FloatFree;
    LastItemText(items, parent);
    assert [] + (TreeText(t) + ([] + [CLOSE_BRACKET])) == TreeText(t) + [CLOSE_BRACKET];
    assert [TreeMeans(t)] + [] == [Norm(items[0])];
  }

  lemma NextItemIs(items: seq<Value>, parent: Value, t: Tree, more: Items)
    requires |items| > 1 && AllFloatFree(items) && forall k :: 0 <= k < |items| ==> items[k] < parent
    requires Is(t, items[0], Write(items[0])) && ItemsAre(more, items[1..], parent, WriteItems(items[1..], parent))
    ensures ItemsAre(Item([], t, [], more), items, parent, WriteItems(items, parent))
  {
    hide Write, Norm, Height, TreeOk, TreeText, TreeMeans, Nesting, NumbersFit, PlainTree, FloatFree;
    var v, m := TreeText(t), ItemsText(more);
    assert WriteItems(items, parent) == Ok(v + [COMMA] + m);
    assert ItemsText(Item([], t, [], more)) == [] + (v + ([] + ([COMMA] + m)));
    hide ItemsText;
    assert [] + (v + ([] + ([COMMA] + m))) == v + [COMMA] + m;
  }

  lemma {:induction false} ItemsIs(items: seq<Value>, parent: Value)
    requires items != [] && AllFloatFree(items)
    requires forall k :: 0 <= k < |items| ==> Writable(items[k]) && items[k] < parent
    ensures ItemsAre(ItemsFor(items, parent), items, parent, WriteItems(items, parent))
    decreases parent, 0, |items|
  {
    ValueIs(items[0]);
    hide Is, ItemsAre, Write, Writable, FloatFree, TreeFor, WriteItems;
    if |items| == 1 {
      LastItemIs(items, parent, TreeFor(items[0]));
    } else {
      ItemsIs(items[1..], parent);
      NextItemIs(items, parent, TreeFor(items[0]), ItemsFor(items[1..], parent));
    }
  }

  // The text of an entry through its value.
  lemma EntryIs(key: seq<byte>, v: seq<byte>, end: seq<byte>)
    ensures [] + (StringText(CharsFor(key)) + ([] + ([COLON] + ([] + (v + ([] + end))))))
      == WriteString(key) + [COLON] + v + end
    ensures CharsOk(CharsFor(key)) && PlainChars(CharsFor(key)) && CharsBytes(CharsFor(key)) == key
  {
    CharsIs(key);
    hide CharsOk, CharsText, CharsBytes, PlainChars, EscapeAll;
    var e := EscapeAll(key);
    assert [QUOTE] + (e + [QUOTE]) == [QUOTE] + e + [QUOTE];
    var k := WriteString(key);
    assert StringText(CharsFor(key)) == k;
    hide WriteString, StringText;
    assert [] + (k + ([] + ([COLON] + ([] + (v + ([] + end)))))) == k + [COLON] + v + end;
  }

  lemma LastEntryText(items: seq<Value>, parent: Value)
    requires |items| == 1 && AllFloatFree(items) && EntriesOnly(items) && items[0] < parent && FloatFree(items[0].cdr)
    requires Write(items[0].cdr).Ok?
    ensures WriteEntries(items, parent)
      == Ok(WriteString(items[0].car.bytes) + [COLON] + Write(items[0].cdr).value + [CLOSE_BRACE])
    ensures NormEntries(items, parent) == [Pair(items[0].car, Norm(items[0].cdr))]
    ensures EntriesHeight(items, parent) == Height(items[0].cdr)
  {
    hide Write, Norm, Height, FloatFree, WriteString;
    var none := items[1..];
    assert none == [] && WriteEntries(none, parent) == Ok([CLOSE_BRACE]);
    assert NormEntries(none, parent) == [] && EntriesHeight(none, parent) == 0;
    var head := WriteString(items[0].car.bytes) + [COLON] + Write(items[0].cdr).value;
    assert head + [] == head;
  }

  lemma LastEntryTree(key: seq<byte>, t: Tree)
    requires TreeOk(t)
    ensures var e := LastEntry([], CharsFor(key), [], [], t, []);
      && EntriesText(e) == WriteString(key) + [COLON] + TreeText(t) + [CLOSE_BRACE]
      && EntriesOk(e) && EntriesMean(e) == [Pair(Str(key), TreeMeans(t))]
      && (PlainTree(t) ==> PlainEntries(e)) && EntriesNesting(e) == Nesting(t) && (NumbersFit(t) ==> EntriesFit(e))
  {
    hide TreeOk, TreeText, TreeMeans, Nesting, NumbersFit, PlainTree, WriteString, StringText, CharsFor, CharsOk,
      CharsBytes, PlainChars;
    EntryIs(key, TreeText(t), [CLOSE_BRACE]);
    var first := Pair(Str(key), TreeMeans(t));
    assert [first] + [] == [first];
  }

  lemma LastEntryIs(items: seq<Value>, parent: Value, t: Tree)
    requires |items| == 1 && AllFloatFree(items) && EntriesOnly(items) && items[0] < parent && FloatFree(items[0].cdr)
    requires Is(t, items[0].cdr, Write(items[0].cdr))
    ensures EntriesAre(LastEntry([], CharsFor(items[0].car.bytes), [], [], t, []), items, parent, WriteEntries(items, parent))
  {
    hide EntriesText, EntriesOk, EntriesMean, PlainEntries, EntriesNesting, EntriesFit, Write, WriteEntries, NormEntries,
      EntriesHeight, Norm, Height, TreeOk, TreeText, TreeMeans, Nesting, NumbersFit, PlainTree, FloatFree, WriteString,
      CharsFor;
    LastEntryTree(items[0].car.bytes, t);
    LastEntryText(items, parent);
  }

  lemma NextEntryText(items: seq<Value>, parent: Value)
    requires |items| > 1 && AllFloatFree(items) && EntriesOnly(items) && FloatFree(items[0].cdr)
    requires forall k :: 0 <= k < |items| ==> items[k] < parent
    requires Write(items[0].cdr).Ok? && WriteEntries(items[1..], parent).Ok?
    ensures WriteEntries(items, parent)
      == Ok(WriteString(items[0].car.bytes) + [COLON] + Write(items[0].cdr).value
            + ([COMMA] + WriteEntries(items[1..], parent).value))
    ensures NormEntries(items, parent) == [Pair(items[0].car, Norm(items[0].cdr))] + NormEntries(items[1..], parent)
    ensures EntriesHeight(items, parent) == Max(Height(items[0].cdr), EntriesHeight(items[1..], parent))
  {
    hide Write, Norm, Height, FloatFree, WriteString;
    var head, m := WriteString(items[0].car.bytes) + [COLON] + Write(items[0].cdr).value, WriteEntries(items[1..], parent).value;
    assert WriteEntries(items, parent) == Ok(head + [COMMA] + m);
    Associates(head, [COMMA], m);
  }

  lemma NextEntryTree(key: seq<byte>, t: Tree, more: Entries)
    requires TreeOk(t) && EntriesOk(more)
    ensures var e := Entry([], CharsFor(key), [], [], t, [], more);
      && EntriesText(e) == WriteString(key) + [COLON] + TreeText(t) + ([COMMA] + EntriesText(more))
      && EntriesOk(e) && EntriesMean(e) == [Pair(Str(key), TreeMeans(t))] + EntriesMean(more)
      && (PlainTree(t) && PlainEntries(more) ==> PlainEntries(e))
      && EntriesNesting(e) == Max(Nesting(t), EntriesNesting(more))
      && (NumbersFit(t) && EntriesFit(more) ==> EntriesFit(e))
  {
    hide TreeOk, TreeText, TreeMeans, Nesting, NumbersFit, PlainTree, WriteString, StringText, CharsFor, CharsOk,
      CharsBytes, PlainChars;
    EntryIs(key, TreeText(t), [COMMA] + EntriesText(more));
  }

  lemma NextEntryIs(items: seq<Value>, parent: Value, t: Tree, more: Entries)
    requires |items| > 1 && AllFloatFree(items) && EntriesOnly(items) && FloatFree(items[0].cdr)
    requires forall k :: 0 <= k < |items| ==> items[k] < parent
    requires Is(t, items[0].cdr, Write(items[0].cdr))
    requires EntriesAre(more, items[1..], parent, WriteEntries(items[1..], parent))
    ensures EntriesAre(Entry([], CharsFor(items[0].car.bytes), [], [], t, [], more), items, parent,
                       WriteEntries(items, parent))
  {
    hide EntriesText, EntriesOk, EntriesMean, PlainEntries, EntriesNesting, EntriesFit, Write, WriteEntries, NormEntries,
      EntriesHeight, Norm, Height, TreeOk, TreeText, TreeMeans, Nesting, NumbersFit, PlainTree, FloatFree, WriteString,
      CharsFor;
    NextEntryTree(items[0].car.bytes, t, more);
    NextEntryText(items, parent);
  }

  lemma {:induction false} EntriesIs(items: seq<Value>, parent: Value)
    requires items != [] && AllFloatFree(items) && EntriesOnly(items)
    requires forall k :: 0 <= k < |items| ==> Writable(items[k].cdr) && items[k] < parent
    ensures EntriesAre(EntriesFor(items, parent), items, parent, WriteEntries(items, parent))
    decreases parent, 0, |items|
  {
    assert FloatFree(items[0]);
    ValueIs(items[0].cdr);
    hide Is, EntriesAre, Write, Writable, FloatFree, TreeFor, WriteEntries, CharsFor;
    if |items| == 1 {
      LastEntryIs(items, parent, TreeFor(items[0].cdr));
    } else {
      EntriesIs(items[1..], parent);
      NextEntryIs(items, parent, TreeFor(items[0].cdr), EntriesFor(items[1..], parent));
    }
  }

  lemma ArrayIs(v: Value, items: seq<Value>)
    requires FloatFree(v) && Writable(v) && items != [] && (forall k :: 0 <= k < |items| ==> Writable(items[k]) && items[k] < v)
    requires if v.Vector? then items == v.items else v.Pair? && !IsAlist(v) && items == ListItems(v)
    requires AllFloatFree(items) && ItemsAre(ItemsFor(items, v), items, v, WriteItems(items, v))
    ensures Is(TreeFor(v), v, Write(v))
  {
    hide ItemsOk, PlainItems, ItemsMean, ItemsNesting, ItemsFit, ItemsText, ItemsFor, NormItems, ItemsHeight, WriteItems,
      IsAlist, ListItems;
  }

  lemma ObjectIs(v: Value)
    requires FloatFree(v) && Writable(v) && IsAlist(v) && AllFloatFree(ListItems(v)) && ListItems(v) != []
    requires forall k :: 0 <= k < |ListItems(v)| ==> Writable(ListItems(v)[k].cdr) && ListItems(v)[k] < v
    requires EntriesAre(EntriesFor(ListItems(v), v), ListItems(v), v, WriteEntries(ListItems(v), v))
    ensures Is(TreeFor(v), v, Write(v))
  {
    hide EntriesOk, PlainEntries, EntriesMean, EntriesNesting, EntriesFit, EntriesText, EntriesFor, NormEntries,
      EntriesHeight, WriteEntries, ListItems, Prepend;
  }

  lemma {:induction false} ValueIs(v: Value)
    requires FloatFree(v) && Writable(v)
    ensures Is(TreeFor(v), v, Write(v))
    decreases v, 1, 0
  {
    if v.Vector? {
      if v.items == [] {
        EmptyIs(v);
      } else {
        hide Is, ItemsAre, Write, TreeFor, ItemsFor, WriteItems;
        ItemsIs(v.items, v);
        ArrayIs(v, v.items);
      }
    } else if v.Pair? {
      ListFloatFree(v);
      hide Is, ItemsAre, EntriesAre, Write, TreeFor, ItemsFor, EntriesFor, WriteItems, WriteEntries;
      assert ListItems(v) != [];
      if IsAlist(v) {
        EntriesIs(ListItems(v), v);
        ObjectIs(v);
      } else {
        ItemsIs(ListItems(v), v);
        ArrayIs(v, ListItems(v));
      }
    } else {
      hide Is, Write, TreeFor;
      AtomIs(v);
    }
  }

  lemma EmptyIs(v: Value)
    requires v == Vector([])
    ensures FloatFree(v) && Writable(v) && Is(TreeFor(v), v, Write(v))
  {
    var none: seq<Value> := [];
    assert v.items == none && WriteItems(none, v) == Ok([CLOSE_BRACKET]);
    assert [OPEN_BRACKET] + ([] + [CLOSE_BRACKET]) == [OPEN_BRACKET] + [CLOSE_BRACKET];
  }

  // ---- main results

  // Exactly the writable values are written; the text is read back as their normal form, if they nest at most 1000
  // deep, and otherwise refused.
  lemma JsonRoundTrip(v: Value)
    requires FloatFree(v)
    ensures Write(v).Ok? <==> Writable(v)
    ensures Writable(v) ==>
      JsonRead(Write(v).value) == if Height(v) <= JSON_MAX_DEPTH then Ok(Norm(v)) else Abort
  {
    WriteOkIff(v);
    if Writable(v) {
      ValueIs(v);
      var t := TreeFor(v);
      DocumentRead(Document([], t, []));
      AcceptedIff(t, 0);
      hide Write, Writable, TreeFor, TreeText, TreeOk, TreeMeans, Nesting, NumbersFit, PlainTree, Norm, Height, JsonRead,
        Accepted, FloatFree;
      assert [] + (TreeText(t) + []) == TreeText(t);
    }
  }

  // What is written is a document without white space, empty objects, superfluous zeros or needless escapes, and stands
  // for the normal form.
  lemma WritesPlainly(v: Value) returns (t: Tree)
    requires FloatFree(v) && Writable(v)
    ensures TreeOk(t) && PlainTree(t) && TreeMeans(t) == Norm(v) && Write(v) == Ok(TreeText(t))
  {
    ValueIs(v);
    t := TreeFor(v);
    hide Write, TreeFor, TreeText, TreeOk, TreeMeans, PlainTree, Norm;
  }

  // A non-empty proper list of pairs with string keys comes back as the same keys with the values' normal forms; any
  // other one as a vector of its elements' normal forms.
  lemma ListsComeBack(v: Value)
    requires FloatFree(v) && Writable(v) && Height(v) <= JSON_MAX_DEPTH && v.Pair?
    ensures Write(v).Ok?
    ensures var items, back := ListItems(v), JsonRead(Write(v).value);
      && IsProperList(v) && back.Ok?
      && if forall k :: 0 <= k < |items| ==> items[k].Pair? && items[k].car.Str? then
           IsProperList(back.value) && |ListItems(back.value)| == |items|
           && forall k :: 0 <= k < |items| ==> ListItems(back.value)[k] == Pair(items[k].car, Norm(items[k].cdr))
         else
           back.value.Vector? && |back.value.items| == |items|
           && forall k :: 0 <= k < |items| ==> back.value.items[k] == Norm(items[k])
  {
    JsonRoundTrip(v);
    var items := ListItems(v);
    if IsAlist(v) {
      NormEntriesAt(items, v);
      ListItemsOfPrepend(NormEntries(items, v));
    } else {
      NormItemsAt(items, v);
    }
    hide Write, JsonRead, Height, FloatFree, Writable, Prepend;
  }

  // Two values have the same text exactly when they have the same normal form.
  lemma SameTextIffSameNormalForm(v: Value, w: Value)
    requires FloatFree(v) && FloatFree(w) && Writable(v) && Writable(w)
    requires Height(v) <= JSON_MAX_DEPTH
    ensures Write(v) == Write(w) <==> Norm(v) == Norm(w)
  {
    JsonRoundTrip(v);
    JsonRoundTrip(w);
    WriteNorm(v);
    WriteNorm(w);
    hide Write, Norm, Height, JsonRead;
  }
}
