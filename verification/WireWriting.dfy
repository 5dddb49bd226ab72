/** The text that a message is written as (icecreme/actor.c): a datum of the grammar, with single spaces and only the
    escapes that are needed. */
module WireWriting {
  import opened Util
  import opened Decimal
  import opened SchemeValue
  import opened Wire
  import opened WireTokens
  import opened WireDocument

  // ---- plain data

  // Quotes and backslashes, and only they, behind a backslash.
  predicate PlainChars(chars: seq<StrChr>) {
    forall k :: 0 <= k < |chars| ==> (chars[k].Escaped? <==> chars[k].b in Ascii("\"\\"))
  }

  ghost predicate PlainHex(body: Bytes) {
    && body != [] && (forall k :: 0 <= k < |body| ==> body[k] in LOWER_HEX) && (body[0] == 48 ==> |body| == 1)
    && HexDigitsOk(body) && !(32 <= HexNumber(body) < 127)
  }

  // Printable characters stand for themselves, all others as hex codes with their semicolon.
  ghost predicate PlainDatum(d: Datum) {
    match d
    case ListOf(items) => PlainItems(items, true)
    case VectorOf(items) => PlainItems(items, true)
    case Quoted(chars) => PlainChars(chars)
    case Truth(_) => true
    case ByteChar(c) => 32 <= c < 127
    case HexChar(body, closed) => closed && PlainHex(body)
    case Token(_) => true
  }

  ghost predicate PlainItems(i: Items, first: bool) {
    match i
    case Close(gap) => gap == []
    case Dotted(gap, gapTail, tail, gapClose) => gap == gapTail == Ascii(" ") && gapClose == [] && PlainDatum(tail)
    case More(gap, item, more) => gap == (if first then [] else Ascii(" ")) && PlainDatum(item) && PlainItems(more, false)
  }

  // ---- the datum that a value is written as

  // All but floats, which are left out here, and values that no message holds; character codes are 64-bit words.
  predicate Supported(v: Value) {
    match v
    case Pair(a, d) => Supported(a) && Supported(d)
    case Vector(items) => forall k :: 0 <= k < |items| ==> Supported(items[k])
    case Record(_, fields) => forall k :: 0 <= k < |fields| ==> Supported(fields[k])
    case Char(code) => INT64_MIN <= code <= INT64_MAX
    case _ => !v.Float? && !v.Other?
  }

  function CharsFor(s: Bytes): (r: seq<StrChr>)
    ensures |r| == |s|
    ensures forall k :: 0 <= k < |r| ==> r[k] == if s[k] == QUOTE || s[k] == BACKSLASH then Escaped(s[k]) else Itself(s[k])
  {
    seq(|s|, k requires 0 <= k < |s| => if s[k] == QUOTE || s[k] == BACKSLASH then Escaped(s[k]) else Itself(s[k]))
  }

  function DatumFor(v: Value): Datum
    requires Supported(v)
    decreases v, 1, 0
  {
    match v
    case Nil => ListOf(Close([]))
    case Bool(b) => Truth(b)
    case Int(i) => Token(DecimalText(i))
    case Char(code) =>
      if 32 <= code < 127 then ByteChar(code)
      else HexChar(HexDigits(if code < 0 then code % 0x1_0000_0000_0000_0000 else code), true)
    case Str(s) => Quoted(CharsFor(s))
    case Sym(name) => Token(name)
    case Pair(_, _) =>
      PartsSupported(v);
      ListOf(ItemsFor(ListItems(v), if LastCdr(v).Nil? then None else Some(LastCdr(v)), v, true))
    case Vector(items) => VectorOf(ItemsFor(items, None, v, true))
    case Record(name, fields) =>
      ListOf(More([], Quoted(CharsFor(RECORD_TAG)), More([SPACE], Quoted(CharsFor(name)), ItemsFor(fields, None, v, false))))
    case Ref(uri) => Quoted(CharsFor(REF_TAG + uri))
  }

  function ItemsFor(items: seq<Value>, tail: Option<Value>, parent: Value, first: bool): Items
    requires (forall k :: 0 <= k < |items| ==> Supported(items[k])) && (tail.Some? ==> Supported(tail.value))
    requires (forall k :: 0 <= k < |items| ==> items[k] < parent) && (tail.Some? ==> tail.value < parent)
    decreases parent, 0, |items|
  {
    if items == [] then
      if tail.None? then Close([]) else Dotted([SPACE], [SPACE], DatumFor(tail.value), [])
    else More(if first then [] else [SPACE], DatumFor(items[0]), ItemsFor(items[1..], tail, parent, false))
  }

  lemma {:induction false} PartsSupported(v: Value)
    requires Supported(v)
    ensures (forall k :: 0 <= k < |ListItems(v)| ==> Supported(ListItems(v)[k])) && Supported(LastCdr(v))
  {
    if v.Pair? {
      PartsSupported(v.cdr);
    }
  }

  lemma {:induction false} PartsUnsupported(v: Value)
    requires !Supported(v)
    ensures (exists k :: 0 <= k < |ListItems(v)| && !Supported(ListItems(v)[k])) || !Supported(LastCdr(v))
  {
    if v.Pair? {
      if Supported(v.car) {
        PartsUnsupported(v.cdr);
        if k :| 0 <= k < |ListItems(v.cdr)| && !Supported(ListItems(v.cdr)[k]) {
          assert ListItems(v)[k + 1] == ListItems(v.cdr)[k];
        }
      } else {
        assert ListItems(v)[0] == v.car;
      }
    }
  }

  // ---- atoms

  lemma {:induction false} CharsForText(s: Bytes)
    ensures CharsText(CharsFor(s)) == EscapeAll(s)
  {
    if s != [] {
      CharsForText(s[1..]);
      assert CharsFor(s)[1..] == CharsFor(s[1..]);
    }
  }

  lemma StringIs(s: Bytes)
    ensures DatumText(Quoted(CharsFor(s))) == WriteString(s) && PlainChars(CharsFor(s))
  {
    CharsForText(s);
    assert Ascii("\"\\") == [QUOTE, BACKSLASH];
    hide CharsText, EscapeAll;
    Associates([QUOTE], EscapeAll(s), [QUOTE]);
  }

  lemma HexDigitPlain(d: nat)
    requires d < 16
    ensures HexDigit(d) in LOWER_HEX && IsHex(HexDigit(d), d) && (HexDigit(d) == 48 <==> d == 0)
  {
    assert LOWER_HEX[d] == HexDigit(d);
  }

  lemma HexStep(n: nat)
    ensures HexDigits(n) == if n < 16 then [HexDigit(n)] else HexDigits(n / 16) + [HexDigit(n % 16)]
    ensures n >= 16 ==> n / 16 * 16 + n % 16 == n && n / 16 > 0
  {
  }

  ghost predicate HexText(s: Bytes, n: nat) {
    && s != [] && (forall k :: 0 <= k < |s| ==> s[k] in LOWER_HEX) && (s[0] == 48 ==> n == 0 && |s| == 1)
    && HexDigitsOk(s) && HexNumber(s) == n
  }

  lemma NextHexText(s: Bytes, n: nat, c: byte, d: nat)
    requires HexText(s, n) && n > 0 && d < 16 && c == HexDigit(d)
    ensures HexText(s + [c], n * 16 + d)
  {
    HexDigitPlain(d);
    HexDigitIs(c, d);
    hide HexNumber, IsHex, HexDigit, HexValue, LOWER_HEX;
    OneMoreHex(s, c);
  }

  lemma FirstHexText(c: byte, d: nat)
    requires d < 16 && c == HexDigit(d)
    ensures HexText([c], d)
  {
    HexDigitPlain(d);
    HexDigitIs(c, d);
    NoHexDigits();
    hide HexNumber, IsHex, HexDigit, HexValue, LOWER_HEX;
    OneMoreHex([], c);
    assert [] + [c] == [c];
  }

  lemma {:induction false} HexPlain(n: nat)
    ensures HexText(HexDigits(n), n)
  {
    hide HexText, HexDigit, HexDigits;
    HexStep(n);
    if n < 16 {
      FirstHexText(HexDigit(n), n);
    } else {
      HexPlain(n / 16);
      NextHexText(HexDigits(n / 16), n / 16, HexDigit(n % 16), n % 16);
    }
  }

  // The number that an unprintable character is written as.
  lemma HexCharIs(n: nat)
    requires !(32 <= n < 127)
    ensures PlainDatum(HexChar(HexDigits(n), true))
    ensures DatumText(HexChar(HexDigits(n), true)) == [HASH, BACKSLASH] + ([LOWER_X] + HexDigits(n) + [SEMICOLON])
  {
    HexPlain(n);
    hide HexDigits, HexNumber, HexDigitsOk, LOWER_HEX;
    var h := HexDigits(n);
    assert [HASH, BACKSLASH] + ([LOWER_X] + h + [SEMICOLON]) == [HASH, BACKSLASH, LOWER_X] + (h + [SEMICOLON]);
  }

  lemma CharIs(code: int)
    requires INT64_MIN <= code <= INT64_MAX
    ensures DatumText(DatumFor(Value.Char(code))) == WriteChar(code) && PlainDatum(DatumFor(Value.Char(code)))
  {
    hide HexDigits, PlainHex;
    if !(32 <= code < 127) {
      HexCharIs(if code < 0 then code % 0x1_0000_0000_0000_0000 else code);
    }
  }

  // ---- values

  ghost predicate Is(v: Value, text: Result<Bytes>)
    requires Supported(v)
  {
    text == Ok(DatumText(DatumFor(v))) && PlainDatum(DatumFor(v))
  }

  // The items after the first one follow a space.
  ghost predicate ItemsAre(i: Items, first: bool, some: bool, text: Result<Bytes>) {
    text.Ok? && PlainItems(i, first) && WireDocument.ItemsText(i) == (if !first && some then [SPACE] else []) + text.value
  }

  lemma EndIs(tail: Option<Value>, parent: Value, first: bool)
    requires tail.Some? ==> Supported(tail.value) && FloatFree(tail.value) && tail.value < parent
    requires tail.Some? ==> Is(tail.value, WriteDatum(tail.value))
    ensures ItemsAre(ItemsFor([], tail, parent, first), first, false, WriteItems([], tail, parent))
  {
    hide WriteDatum, DatumFor, DatumText, PlainDatum, Supported, FloatFree;
    assert [] + [CLOSE] == [CLOSE];
    if tail.Some? {
      var d := DatumText(DatumFor(tail.value));
      DottedPlain(DatumFor(tail.value), first);
      var text := [SPACE, DOT, SPACE] + d + [CLOSE];
      assert [SPACE] + ([DOT] + ([SPACE] + (d + ([] + [CLOSE])))) == text && [] + text == text;
    }
  }

  lemma DottedPlain(d: Datum, first: bool)
    requires PlainDatum(d)
    ensures PlainItems(Dotted([SPACE], [SPACE], d, []), first)
  {
    assert Ascii(" ") == [SPACE];
    hide PlainDatum;
  }

  // The text of several items, and what they are written as, after the first one.
  lemma ItemsHead(items: seq<Value>, tail: Option<Value>, parent: Value, first: bool)
    requires items != [] && (forall k :: 0 <= k < |items| ==> Supported(items[k])) && (tail.Some? ==> Supported(tail.value))
    requires AllFloatFree(items) && (tail.Some? ==> FloatFree(tail.value)) && PartsOf(items, tail, parent)
    requires WriteDatum(items[0]).Ok? && WriteItems(items[1..], tail, parent).Ok?
    ensures WriteItems(items, tail, parent)
      == Ok(WriteDatum(items[0]).value + (if |items| > 1 then [SPACE] else []) + WriteItems(items[1..], tail, parent).value)
    ensures ItemsFor(items, tail, parent, first)
      == More(if first then [] else [SPACE], DatumFor(items[0]), ItemsFor(items[1..], tail, parent, false))
  {
    hide WriteDatum, DatumFor, Supported, FloatFree;
  }

  lemma NextIs(items: seq<Value>, tail: Option<Value>, parent: Value, first: bool)
    requires items != [] && (forall k :: 0 <= k < |items| ==> Supported(items[k])) && (tail.Some? ==> Supported(tail.value))
    requires AllFloatFree(items) && (tail.Some? ==> FloatFree(tail.value)) && PartsOf(items, tail, parent)
    requires Is(items[0], WriteDatum(items[0]))
    requires ItemsAre(ItemsFor(items[1..], tail, parent, false), false, |items| > 1, WriteItems(items[1..], tail, parent))
    ensures ItemsAre(ItemsFor(items, tail, parent, first), first, true, WriteItems(items, tail, parent))
  {
    hide WriteDatum, WriteItems, DatumFor, ItemsFor, DatumText, PlainDatum, Supported, FloatFree, PlainItems,
      WireDocument.ItemsText;
    ItemsHead(items, tail, parent, first);
    var more := ItemsFor(items[1..], tail, parent, false);
    var gap := if first then [] else [SPACE];
    MoreText(gap, DatumFor(items[0]), more);
    MorePlain(gap, DatumFor(items[0]), more, first);
    var d, m := DatumText(DatumFor(items[0])), WriteItems(items[1..], tail, parent).value;
    Associates(d, if |items| > 1 then [SPACE] else [], m);
  }

  lemma MoreText(gap: Bytes, item: Datum, more: Items)
    ensures WireDocument.ItemsText(More(gap, item, more)) == gap + (DatumText(item) + WireDocument.ItemsText(more))
  {
    hide DatumText;
  }

  lemma MorePlain(gap: Bytes, item: Datum, more: Items, first: bool)
    requires gap == if first then [] else [SPACE]
    requires PlainDatum(item) && PlainItems(more, false)
    ensures PlainItems(More(gap, item, more), first)
  {
    assert Ascii(" ") == [SPACE];
    hide PlainDatum;
  }

  lemma {:induction false} ItemsIs(items: seq<Value>, tail: Option<Value>, parent: Value, first: bool)
    requires (forall k :: 0 <= k < |items| ==> Supported(items[k])) && (tail.Some? ==> Supported(tail.value))
    requires AllFloatFree(items) && (tail.Some? ==> FloatFree(tail.value)) && PartsOf(items, tail, parent)
    ensures ItemsAre(ItemsFor(items, tail, parent, first), first, items != [], WriteItems(items, tail, parent))
    decreases parent, 0, |items|
  {
    hide Is, ItemsAre, WriteItems, ItemsFor, WriteDatum, Supported, FloatFree;
    if items == [] {
      if tail.Some? {
        ValueIs(tail.value);
      }
      EndIs(tail, parent, first);
    } else {
      ValueIs(items[0]);
      ItemsIs(items[1..], tail, parent, false);
      NextIs(items, tail, parent, first);
    }
  }

  lemma AtomIs(v: Value)
    requires Supported(v) && FloatFree(v) && !v.Pair? && !v.Vector? && !v.Record?
    ensures Is(v, WriteDatum(v))
  {
    match v
    case Char(code) =>
      CharIs(code);
      hide DatumText, DatumFor, PlainDatum, WriteChar;
    case Str(s) =>
      StringIs(s);
      hide DatumText, WriteString, PlainChars, CharsFor;
    case Ref(uri) =>
      StringIs(REF_TAG + uri);
      hide DatumText, WriteString, PlainChars, CharsFor;
    case Nil =>
      assert [OPEN] + ([] + [CLOSE]) == [OPEN, CLOSE];
    case _ =>
      hide DecimalText;
  }

  lemma ListIs(v: Value)
    requires (v.Pair? || v.Vector?) && Supported(v) && FloatFree(v)
    requires v.Pair? ==>
      && (forall k :: 0 <= k < |ListItems(v)| ==> Supported(ListItems(v)[k])) && Supported(LastCdr(v))
      && AllFloatFree(ListItems(v)) && FloatFree(LastCdr(v))
    requires var items := if v.Pair? then ListItems(v) else v.items;
      var tail := if v.Vector? || LastCdr(v).Nil? then None else Some(LastCdr(v));
      PartsOf(items, tail, v) && AllFloatFree(items)
      && ItemsAre(ItemsFor(items, tail, v, true), true, items != [], WriteItems(items, tail, v))
    ensures Is(v, WriteDatum(v))
  {
    var items := if v.Pair? then ListItems(v) else v.items;
    var tail := if v.Vector? || LastCdr(v).Nil? then None else Some(LastCdr(v));
    var t := WriteItems(items, tail, v).value;
    hide WriteItems, ItemsFor, PlainItems, WireDocument.ItemsText, ListItems, LastCdr, FloatFree, AllFloatFree;
    assert [] + t == t;
  }

  lemma TaggedText(name: Bytes, fields: Items, f: Bytes)
    requires WireDocument.ItemsText(fields) == f && PlainItems(fields, false)
    ensures var i := More([], Quoted(CharsFor(RECORD_TAG)), More([SPACE], Quoted(CharsFor(name)), fields));
      PlainItems(i, true)
      && WireDocument.ItemsText(i) == WriteString(RECORD_TAG) + [SPACE] + WriteString(name) + f
  {
    StringIs(RECORD_TAG);
    StringIs(name);
    var a, b := Quoted(CharsFor(RECORD_TAG)), Quoted(CharsFor(name));
    assert PlainDatum(a) && PlainDatum(b);
    hide DatumText, WriteString, PlainItems, WireDocument.ItemsText, PlainDatum, RECORD_TAG;
    MoreText([SPACE], b, fields);
    MorePlain([SPACE], b, fields, false);
    MoreText([], a, More([SPACE], b, fields));
    MorePlain([], a, More([SPACE], b, fields), true);
    var x, y := WriteString(RECORD_TAG), WriteString(name);
    assert [] + (x + ([SPACE] + (y + f))) == x + [SPACE] + y + f;
  }

  lemma RecordForms(v: Value)
    requires v.Record? && Supported(v) && FloatFree(v) && AllFloatFree(v.fields) && PartsOf(v.fields, None, v)
    requires WriteFields(v.fields, v).Ok?
    ensures WriteDatum(v)
      == Ok([OPEN] + WriteString(RECORD_TAG) + [SPACE] + WriteString(v.typeName) + WriteFields(v.fields, v).value)
    ensures var i := More([], Quoted(CharsFor(RECORD_TAG)),
                          More([SPACE], Quoted(CharsFor(v.typeName)), ItemsFor(v.fields, None, v, false)));
      DatumFor(v) == ListOf(i) && DatumText(ListOf(i)) == [OPEN] + WireDocument.ItemsText(i)
      && (PlainItems(i, true) ==> PlainDatum(ListOf(i)))
  {
    hide WriteFields, WriteString, ItemsFor, CharsFor, WireDocument.ItemsText, RECORD_TAG, PlainItems;
  }

  lemma RecordIs(v: Value)
    requires v.Record? && Supported(v) && FloatFree(v) && AllFloatFree(v.fields) && PartsOf(v.fields, None, v)
    requires ItemsAre(ItemsFor(v.fields, None, v, false), false, v.fields != [], WriteItems(v.fields, None, v))
    ensures Is(v, WriteDatum(v))
  {
    hide WriteDatum, WriteItems, WriteFields, WriteString, DatumFor, DatumText, PlainDatum, ItemsFor, PlainItems,
      WireDocument.ItemsText, RECORD_TAG, FloatFree, AllFloatFree, CharsFor;
    FieldsText(v.fields, v);
    RecordForms(v);
    var f := WriteFields(v.fields, v).value;
    TaggedText(v.typeName, ItemsFor(v.fields, None, v, false), f);
    var x, y := WriteString(RECORD_TAG), WriteString(v.typeName);
    assert [OPEN] + (x + [SPACE] + y + f) == [OPEN] + x + [SPACE] + y + f;
  }

  lemma {:induction false} ValueIs(v: Value)
    requires Supported(v) && FloatFree(v)
    ensures Is(v, WriteDatum(v))
    decreases v, 1, 0
  {
    if v.Pair? {
      ListFloatFree(v);
      LastFloatFree(v);
      PartsSupported(v);
      hide Is, ItemsAre, Supported, FloatFree, WriteDatum, WriteItems, ItemsFor, ListItems, LastCdr;
      ItemsIs(ListItems(v), if LastCdr(v).Nil? then None else Some(LastCdr(v)), v, true);
      ListIs(v);
    } else if v.Vector? {
      hide Is, ItemsAre, WriteDatum, WriteItems, ItemsFor;
      ItemsIs(v.items, None, v, true);
      ListIs(v);
    } else if v.Record? {
      hide Is, ItemsAre, WriteDatum, WriteItems, ItemsFor;
      ItemsIs(v.fields, None, v, false);
      RecordIs(v);
    } else {
      AtomIs(v);
      hide Is, WriteDatum;
    }
  }

  // What a supported message is written as is a datum of the grammar with single spaces between the parts of a list, a
  // backslash only before quotes and backslashes, and a hex code only for characters that are not printable.
  lemma WritesPlainly(v: Value) returns (d: Datum)
    requires Supported(v) && FloatFree(v)
    ensures PlainDatum(d) && WriteDatum(v) == Ok(DatumText(d))
  {
    ValueIs(v);
    d := DatumFor(v);
    hide WriteDatum, DatumFor, DatumText, PlainDatum;
  }
}
