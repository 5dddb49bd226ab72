/** What json-read makes of any text at all: the grammar of the texts it accepts, sections 2 to 5 of RFC 8259, and the
    value that each of them stands for. */
module JsonDocument {
  import opened Util
  import opened Decimal
  import opened SchemeValue
  import opened TextReading
  import opened Json
  import opened JsonTokens

  // ---- the grammar

  datatype Tree =
    | Null | Boolean(b: bool) | Num(number: Number) | Text(chars: seq<Chr>)
    | EmptyArray(gap: seq<byte>) | Array(items: Items)
    | EmptyObject(gap: seq<byte>) | Object(entries: Entries)

  // The elements of an array, each with the white space around it.
  datatype Items =
    | LastItem(before: seq<byte>, value: Tree, after: seq<byte>)
    | Item(before: seq<byte>, value: Tree, after: seq<byte>, more: Items)

  datatype Entries =
    | LastEntry(before: seq<byte>, key: seq<Chr>, afterKey: seq<byte>, beforeValue: seq<byte>, value: Tree, after: seq<byte>)
    | Entry(before: seq<byte>, key: seq<Chr>, afterKey: seq<byte>, beforeValue: seq<byte>, value: Tree, after: seq<byte>,
            more: Entries)

  predicate Spaces(s: seq<byte>) {
    forall k :: 0 <= k < |s| ==> IsSpace(s[k])
  }

  function StringText(chars: seq<Chr>): seq<byte> {
    [QUOTE] + (CharsText(chars) + [QUOTE])
  }

  function TreeText(t: Tree): seq<byte> {
    match t
    case Null => NULL_TEXT
    case Boolean(b) => if b then TRUE_TEXT else FALSE_TEXT
    case Num(n) => NumberText(n)
    case Text(chars) => StringText(chars)
    case EmptyArray(gap) => [OPEN_BRACKET] + (gap + [CLOSE_BRACKET])
    case Array(items) => [OPEN_BRACKET] + ItemsText(items)
    case EmptyObject(gap) => [OPEN_BRACE] + (gap + [CLOSE_BRACE])
    case Object(entries) => [OPEN_BRACE] + EntriesText(entries)
  }

  // Through the closing bracket.
  function ItemsText(i: Items): seq<byte> {
    i.before + (TreeText(i.value) + (i.after + if i.Item? then [COMMA] + ItemsText(i.more) else [CLOSE_BRACKET]))
  }

  function EntriesText(e: Entries): seq<byte> {
    e.before + (StringText(e.key) + (e.afterKey + ([COLON] + (e.beforeValue + (TreeText(e.value) + (e.after
      + if e.Entry? then [COMMA] + EntriesText(e.more) else [CLOSE_BRACE]))))))
  }

  ghost predicate TreeOk(t: Tree) {
    match t
    case Num(n) => NumberOk(n)
    case Text(chars) => CharsOk(chars)
    case EmptyArray(gap) => Spaces(gap)
    case Array(items) => ItemsOk(items)
    case EmptyObject(gap) => Spaces(gap)
    case Object(entries) => EntriesOk(entries)
    case _ => true
  }

  ghost predicate ItemsOk(i: Items) {
    Spaces(i.before) && TreeOk(i.value) && Spaces(i.after) && (i.Item? ==> ItemsOk(i.more))
  }

  ghost predicate EntriesOk(e: Entries) {
    && Spaces(e.before) && CharsOk(e.key) && Spaces(e.afterKey) && Spaces(e.beforeValue) && TreeOk(e.value)
    && Spaces(e.after) && (e.Entry? ==> EntriesOk(e.more))
  }

  // ---- what it stands for

  // Arrays are vectors and objects association lists; the empty object is nil, as null is.
  ghost function TreeMeans(t: Tree): Value
    requires TreeOk(t)
  {
    match t
    case Null => Nil
    case Boolean(b) => Value.Bool(b)
    case Num(n) => if NumberValue(n).Some? then NumberValue(n).value else Other
    case Text(chars) => Str(CharsBytes(chars))
    case EmptyArray(_) => Vector([])
    case Array(items) => Vector(ItemsMean(items))
    case EmptyObject(_) => Nil
    case Object(entries) => Prepend(EntriesMean(entries), Nil)
  }

  ghost function ItemsMean(i: Items): seq<Value>
    requires ItemsOk(i)
  {
    [TreeMeans(i.value)] + if i.Item? then ItemsMean(i.more) else []
  }

  ghost function EntriesMean(e: Entries): seq<Value>
    requires EntriesOk(e)
  {
    [Pair(Str(CharsBytes(e.key)), TreeMeans(e.value))] + if e.Entry? then EntriesMean(e.more) else []
  }

  // Nested at most 1000 deep, this deep inside, and no integer beyond 64 bits.
  ghost predicate Accepted(t: Tree, depth: nat)
    requires TreeOk(t)
  {
    && depth < 1000
    && match t
       case Num(n) => NumberValue(n).Some?
       case Array(items) => ItemsAccepted(items, depth + 1)
       case Object(entries) => EntriesAccepted(entries, depth + 1)
       case _ => true
  }

  ghost predicate ItemsAccepted(i: Items, depth: nat)
    requires ItemsOk(i)
  {
    Accepted(i.value, depth) && (i.Item? ==> ItemsAccepted(i.more, depth))
  }

  ghost predicate EntriesAccepted(e: Entries, depth: nat)
    requires EntriesOk(e)
  {
    Accepted(e.value, depth) && (e.Entry? ==> EntriesAccepted(e.more, depth))
  }

  ghost function If<T>(accepted: bool, v: T, rest: seq<byte>): Result<(T, seq<byte>)> {
    if accepted then Ok((v, rest)) else Abort
  }

  // ---- every text of the grammar is read as what it stands for

  lemma {:induction false} SkipSpaces(gap: seq<byte>, s: seq<byte>)
    requires Spaces(gap)
    ensures SkipWs(gap + s) == SkipWs(s)
    ensures s != [] && !IsSpace(s[0]) ==> SkipWs(gap + s) == s
  {
    if gap == [] {
      assert gap + s == s;
      if s != [] && !IsSpace(s[0]) {
        SkipNothing(s);
      }
    } else {
      SkipSpaces(gap[1..], s);
      assert (gap + s)[1..] == gap[1..] + s;
    }
  }

  lemma SpacesFirst(gap: seq<byte>, s: seq<byte>)
    requires Spaces(gap) && Delimits(s)
    ensures Delimits(gap + s)
  {
    assert gap == [] ==> gap + s == s;
  }

  // A string, a number or a word.
  predicate IsScalar(t: Tree) {
    t.Null? || t.Boolean? || t.Num? || t.Text?
  }

  lemma TreeStarts(t: Tree, rest: seq<byte>)
    requires TreeOk(t)
    ensures var s := TreeText(t) + rest;
      && s != [] && !IsSpace(s[0]) && s[0] != CLOSE_BRACKET && s[0] != CLOSE_BRACE
      && (IsScalar(t) <==> s[0] != OPEN_BRACKET && s[0] != OPEN_BRACE)
  {
    if t.Num? {
      NumberStarts(t.number);
      hide NumberText, NumberOk;
    } else {
      hide NumberText, CharsText, ItemsText, EntriesText;
    }
  }

  lemma WordRead(t: Tree, rest: seq<byte>)
    requires t.Null? || t.Boolean?
    ensures TreeText(t) + rest != [] && TreeOk(t)
    ensures Scalar(TreeText(t) + rest) == Ok((TreeMeans(t), rest))
  {
    var word := TreeText(t);
    var s := word + rest;
    assert s[..|word|] == word && s[|word|..] == rest;
    hide ParseChars, ParseNumber, TreeText;
    assert word == if t.Null? then NULL_TEXT else if t.b then TRUE_TEXT else FALSE_TEXT by {
      WordText(t);
    }
  }

  lemma WordText(t: Tree)
    requires t.Null? || t.Boolean?
    ensures TreeText(t) == if t.Null? then NULL_TEXT else if t.b then TRUE_TEXT else FALSE_TEXT
  {
  }

  lemma NumRead(n: Number, rest: seq<byte>)
    requires NumberOk(n) && Delimits(rest)
    ensures NumberText(n) + rest != []
    ensures Scalar(NumberText(n) + rest) == If(NumberValue(n).Some?, TreeMeans(Num(n)), rest)
  {
    NumberStarts(n);
    NumberRead(n, rest);
    hide NumberText, NumberOk, ParseNumber, NumberValue, ParseChars, StartsWith;
  }

  lemma TextRead(chars: seq<Chr>, rest: seq<byte>)
    requires CharsOk(chars)
    ensures StringText(chars) + rest != []
    ensures Scalar(StringText(chars) + rest) == Ok((Str(CharsBytes(chars)), rest))
  {
    hide *;
    CharsRead(chars, rest);
    QuotedText(chars, rest);
    QuotedScalar(CharsText(chars) + [QUOTE] + rest);
  }

  lemma QuotedText(chars: seq<Chr>, rest: seq<byte>)
    ensures StringText(chars) + rest == [QUOTE] + (CharsText(chars) + [QUOTE] + rest)
  {
    hide CharsText;
    Regroup([QUOTE], CharsText(chars), [QUOTE], rest);
    Associates([QUOTE], CharsText(chars) + [QUOTE], rest);
  }

  lemma QuotedScalar(s: seq<byte>)
    requires ParseChars(s).Ok?
    ensures Scalar([QUOTE] + s) == Ok((Str(ParseChars(s).value.0), ParseChars(s).value.1))
  {
    hide ParseChars, ParseNumber, StartsWith;
    assert ([QUOTE] + s)[1..] == s;
  }

  lemma ScalarRead(t: Tree, rest: seq<byte>, depth: nat)
    requires TreeOk(t) && Delimits(rest) && IsScalar(t) && depth < 1000
    ensures TreeText(t) + rest != []
    ensures Scalar(TreeText(t) + rest) == If(Accepted(t, depth), TreeMeans(t), rest)
  {
    hide Scalar, NumberText, StringText, NumberOk, CharsOk, Delimits;
    match t
    case Num(n) => NumRead(n, rest);
    case Text(chars) => TextRead(chars, rest);
    case _ => WordRead(t, rest);
  }

  // What comes after the value of an item.
  function ItemTail(i: Items, rest: seq<byte>): seq<byte> {
    if i.Item? then [COMMA] + (ItemsText(i.more) + rest) else [CLOSE_BRACKET] + rest
  }

  lemma ItemsApart(i: Items, rest: seq<byte>)
    ensures ItemsText(i) + rest == i.before + (TreeText(i.value) + (i.after + ItemTail(i, rest)))
    ensures Delimits(ItemTail(i, rest)) && ItemTail(i, rest) != [] && !IsSpace(ItemTail(i, rest)[0])
  {
    hide TreeText;
    var v := TreeText(i.value);
    if i.Item? {
      var m := ItemsText(i.more);
      assert ItemsText(i) == i.before + (v + (i.after + ([COMMA] + m)));
      hide ItemsText;
      FivePieces(i.before, v, i.after, [COMMA], m, rest);
    } else {
      FivePieces(i.before, v, i.after, [], [CLOSE_BRACKET], rest);
      assert [] + [CLOSE_BRACKET] == [CLOSE_BRACKET] && [] + ([CLOSE_BRACKET] + rest) == [CLOSE_BRACKET] + rest;
    }
  }

  lemma FivePieces(a: seq<byte>, b: seq<byte>, c: seq<byte>, d: seq<byte>, e: seq<byte>, rest: seq<byte>)
    ensures a + (b + (c + (d + e))) + rest == a + (b + (c + (d + (e + rest))))
  {
  }

  lemma {:induction false} TreeRead(t: Tree, rest: seq<byte>, depth: nat)
    requires TreeOk(t) && Delimits(rest)
    ensures Parse(TreeText(t) + rest, depth) == If(Accepted(t, depth), TreeMeans(t), rest)
    decreases t, 0
  {
    hide *;
    TreeStarts(t, rest);
    var s := TreeText(t) + rest;
    SkipNothing(s);
    ValueStep(s, depth);
    TooDeep(t, depth, rest);
    if depth < 1000 {
      if IsScalar(t) {
        ScalarRead(t, rest, depth);
      } else {
        ContainerOk(t);
        match t
        case EmptyArray(gap) => EmptyArrayRead(gap, rest, depth);
        case EmptyObject(gap) => EmptyObjectRead(gap, rest, depth);
        case Array(items) =>
          ItemsRead(items, rest, depth + 1);
          ArrayRead(items, rest, depth);
        case Object(entries) =>
          EntriesRead(entries, rest, depth + 1);
          ObjectRead(entries, rest, depth);
        case _ =>
      }
    }
  }

  lemma TooDeep(t: Tree, depth: nat, rest: seq<byte>)
    requires TreeOk(t)
    ensures depth >= 1000 ==> If(Accepted(t, depth), TreeMeans(t), rest) == Abort && depth >= JSON_MAX_DEPTH
    ensures depth < 1000 ==> depth < JSON_MAX_DEPTH
  {
    hide TreeMeans;
  }

  lemma ContainerOk(t: Tree)
    requires TreeOk(t) && !IsScalar(t)
    ensures t.EmptyArray? || t.EmptyObject? ==> Spaces(t.gap)
    ensures t.Array? ==> ItemsOk(t.items)
    ensures t.Object? ==> EntriesOk(t.entries)
    ensures t.EmptyArray? || t.EmptyObject? || t.Array? || t.Object?
  {
  }

  lemma EmptyArrayRead(gap: seq<byte>, rest: seq<byte>, depth: nat)
    requires Spaces(gap) && depth < 1000
    ensures TreeOk(EmptyArray(gap))
    ensures Parse(TreeText(EmptyArray(gap)) + rest, depth)
      == If(Accepted(EmptyArray(gap), depth), TreeMeans(EmptyArray(gap)), rest)
  {
    hide Parse, SkipWs, ParseItems;
    EmptyRead(gap, CLOSE_BRACKET, OPEN_BRACKET, rest);
    ArrayStep(TreeText(EmptyArray(gap)) + rest, depth);
  }

  lemma EmptyObjectRead(gap: seq<byte>, rest: seq<byte>, depth: nat)
    requires Spaces(gap) && depth < 1000
    ensures TreeOk(EmptyObject(gap))
    ensures Parse(TreeText(EmptyObject(gap)) + rest, depth)
      == If(Accepted(EmptyObject(gap), depth), TreeMeans(EmptyObject(gap)), rest)
  {
    hide Parse, SkipWs, ParseEntries;
    EmptyRead(gap, CLOSE_BRACE, OPEN_BRACE, rest);
    ObjectStep(TreeText(EmptyObject(gap)) + rest, depth);
  }

  lemma ArrayRead(items: Items, rest: seq<byte>, depth: nat)
    requires ItemsOk(items) && depth < 1000
    requires ParseItems(ItemsText(items) + rest, depth + 1) == If(ItemsAccepted(items, depth + 1), ItemsMean(items), rest)
    ensures TreeOk(Array(items))
    ensures Parse(TreeText(Array(items)) + rest, depth)
      == If(Accepted(Array(items), depth), TreeMeans(Array(items)), rest)
  {
    hide Parse, SkipWs, ParseItems, ItemsText, ItemsMean, ItemsAccepted, ItemsOk;
    var s := TreeText(Array(items)) + rest;
    assert s == [OPEN_BRACKET] + (ItemsText(items) + rest) && s[1..] == ItemsText(items) + rest;
    ItemsStart(items, rest);
    ArrayStep(s, depth);
  }

  lemma ObjectRead(entries: Entries, rest: seq<byte>, depth: nat)
    requires EntriesOk(entries) && depth < 1000
    requires ParseEntries(EntriesText(entries) + rest, depth + 1)
      == If(EntriesAccepted(entries, depth + 1), EntriesMean(entries), rest)
    ensures TreeOk(Object(entries))
    ensures Parse(TreeText(Object(entries)) + rest, depth)
      == If(Accepted(Object(entries), depth), TreeMeans(Object(entries)), rest)
  {
    hide Parse, SkipWs, ParseEntries, EntriesText, EntriesMean, EntriesAccepted, EntriesOk, AfterKey, CharsText, Prepend;
    var s := TreeText(Object(entries)) + rest;
    assert s == [OPEN_BRACE] + (EntriesText(entries) + rest) && s[1..] == EntriesText(entries) + rest;
    EntriesStart(entries, rest);
    ObjectStep(s, depth);
  }

  lemma EmptyRead(gap: seq<byte>, close: byte, open: byte, rest: seq<byte>)
    requires Spaces(gap) && !IsSpace(close)
    ensures var s := [open] + (gap + [close]) + rest; SkipWs(s[1..]) == [close] + rest && ([close] + rest)[1..] == rest
  {
    var s := [open] + (gap + [close]) + rest;
    assert s[1..] == gap + ([close] + rest);
    SkipSpaces(gap, [close] + rest);
  }

  lemma ItemsStart(i: Items, rest: seq<byte>)
    requires ItemsOk(i)
    ensures var u := SkipWs(ItemsText(i) + rest); u != [] && u[0] != CLOSE_BRACKET
  {
    ItemsApart(i, rest);
    TreeStarts(i.value, i.after + ItemTail(i, rest));
    hide ItemsText, TreeText, ItemTail;
    SkipSpaces(i.before, TreeText(i.value) + (i.after + ItemTail(i, rest)));
  }

  // The outcome of the items, from that of the first one.
  lemma ItemsOutcome(i: Items, depth: nat, rest: seq<byte>)
    requires ItemsOk(i)
    ensures Spaces(i.before) && TreeOk(i.value) && Spaces(i.after) && (i.Item? ==> ItemsOk(i.more))
    ensures !Accepted(i.value, depth) ==> If(ItemsAccepted(i, depth), ItemsMean(i), rest) == Abort
    ensures Accepted(i.value, depth) ==>
      If(ItemsAccepted(i, depth), ItemsMean(i), rest)
      == if i.Item? then After([TreeMeans(i.value)], If(ItemsAccepted(i.more, depth), ItemsMean(i.more), rest))
         else Ok(([TreeMeans(i.value)], rest))
  {
    hide TreeMeans, Accepted, TreeOk;
    assert i.LastItem? ==> ItemsMean(i) == [TreeMeans(i.value)];
    assert i.Item? ==> ItemsMean(i) == [TreeMeans(i.value)] + ItemsMean(i.more);
  }

  lemma {:induction false} ItemsRead(i: Items, rest: seq<byte>, depth: nat)
    requires ItemsOk(i)
    ensures ParseItems(ItemsText(i) + rest, depth) == If(ItemsAccepted(i, depth), ItemsMean(i), rest)
    decreases i, 0
  {
    var tail := ItemTail(i, rest);
    assert tail == if i.Item? then [COMMA] + (ItemsText(i.more) + rest) else [CLOSE_BRACKET] + rest;
    hide *;
    ItemsOutcome(i, depth, rest);
    ItemsApart(i, rest);
    SpacesFirst(i.after, tail);
    TreeStarts(i.value, i.after + tail);
    TreeRead(i.value, i.after + tail, depth);
    SkipSpaces(i.before, TreeText(i.value) + (i.after + tail));
    SkipSpaces(i.after, tail);
    ItemsStep(ItemsText(i) + rest, depth, i.after + tail, TreeMeans(i.value));
    IfIs(Accepted(i.value, depth), TreeMeans(i.value), i.after + tail, rest);
    if i.Item? {
      ItemsRead(i.more, rest, depth);
      assert tail[1..] == ItemsText(i.more) + rest;
    } else {
      assert tail[1..] == rest;
    }
  }

  lemma IfIs<T>(accepted: bool, v: T, more: seq<byte>, rest: seq<byte>)
    ensures If(accepted, v, more) == if accepted then Ok((v, more)) else Abort
    ensures If(accepted, v, rest).Abort? <==> !accepted
  {
  }

  function EntryTail(e: Entries, rest: seq<byte>): seq<byte> {
    if e.Entry? then [COMMA] + (EntriesText(e.more) + rest) else [CLOSE_BRACE] + rest
  }

  // What comes after the key of an entry.
  function AfterKey(e: Entries, rest: seq<byte>): seq<byte> {
    e.afterKey + ([COLON] + (e.beforeValue + (TreeText(e.value) + (e.after + EntryTail(e, rest)))))
  }

  lemma EntriesApart(e: Entries, rest: seq<byte>)
    ensures EntriesText(e) + rest == e.before + ([QUOTE] + (CharsText(e.key) + [QUOTE] + AfterKey(e, rest)))
    ensures Delimits(EntryTail(e, rest)) && EntryTail(e, rest) != [] && !IsSpace(EntryTail(e, rest)[0])
  {
    var k, v := CharsText(e.key), TreeText(e.value);
    var end := if e.Entry? then [COMMA] + EntriesText(e.more) else [CLOSE_BRACE];
    assert EntryTail(e, rest) == end + rest by {
      if e.Entry? {
        Associates([COMMA], EntriesText(e.more), rest);
      }
      hide EntriesText;
    }
    assert EntriesText(e)
      == e.before + (([QUOTE] + (k + [QUOTE])) + (e.afterKey + ([COLON] + (e.beforeValue + (v + (e.after + end))))));
    assert AfterKey(e, rest) == e.afterKey + ([COLON] + (e.beforeValue + (v + (e.after + EntryTail(e, rest)))));
    hide EntriesText, TreeText, CharsText, AfterKey;
    TenPieces(e.before, k, e.afterKey, e.beforeValue, v, e.after, end, rest);
  }

  lemma TenPieces(
    a: seq<byte>, k: seq<byte>, b: seq<byte>, c: seq<byte>, v: seq<byte>, d: seq<byte>, end: seq<byte>, rest: seq<byte>)
    ensures a + (([QUOTE] + (k + [QUOTE])) + (b + ([COLON] + (c + (v + (d + end)))))) + rest
      == a + ([QUOTE] + (k + [QUOTE] + (b + ([COLON] + (c + (v + (d + (end + rest))))))))
  {
    FivePieces(b, [COLON], c, v, d + end, rest);
    Associates(d, end, rest);
    var x := b + ([COLON] + (c + (v + (d + end))));
    assert a + (([QUOTE] + (k + [QUOTE])) + x) + rest == a + ([QUOTE] + (k + [QUOTE] + (x + rest)));
  }

  lemma EntriesStart(e: Entries, rest: seq<byte>)
    requires EntriesOk(e)
    ensures var u := SkipWs(EntriesText(e) + rest);
      u == [QUOTE] + (CharsText(e.key) + [QUOTE] + AfterKey(e, rest)) && u[0] != CLOSE_BRACE
  {
    EntriesApart(e, rest);
    hide EntriesText, AfterKey, CharsText;
    SkipSpaces(e.before, [QUOTE] + (CharsText(e.key) + [QUOTE] + AfterKey(e, rest)));
  }

  lemma ColonRead(e: Entries, rest: seq<byte>)
    requires EntriesOk(e)
    ensures var u := SkipWs(AfterKey(e, rest));
      && u != [] && u[0] == COLON
      && SkipWs(u[1..]) == TreeText(e.value) + (e.after + EntryTail(e, rest))
  {
    var v := TreeText(e.value) + (e.after + EntryTail(e, rest));
    TreeStarts(e.value, e.after + EntryTail(e, rest));
    hide TreeText, EntryTail, SkipWs;
    SkipSpaces(e.afterKey, [COLON] + (e.beforeValue + v));
    SkipSpaces(e.beforeValue, v);
    assert ([COLON] + (e.beforeValue + v))[1..] == e.beforeValue + v;
  }

  lemma EntryRead(e: Entries, rest: seq<byte>, depth: nat)
    requires EntriesOk(e)
    requires Parse(TreeText(e.value) + (e.after + EntryTail(e, rest)), depth)
      == If(Accepted(e.value, depth), TreeMeans(e.value), e.after + EntryTail(e, rest))
    ensures EntryOf(EntriesText(e) + rest, depth)
      == If(Accepted(e.value, depth), Pair(Str(CharsBytes(e.key)), TreeMeans(e.value)), e.after + EntryTail(e, rest))
  {
    EntriesStart(e, rest);
    ColonRead(e, rest);
    CharsRead(e.key, AfterKey(e, rest));
    hide Parse, ParseChars, SkipWs, TreeText, EntriesText, AfterKey, EntryTail, CharsText, CharsBytes, Accepted, TreeMeans;
    assert ([QUOTE] + (CharsText(e.key) + [QUOTE] + AfterKey(e, rest)))[1..]
      == CharsText(e.key) + [QUOTE] + AfterKey(e, rest);
  }

  lemma EntriesOutcome(e: Entries, depth: nat, rest: seq<byte>)
    requires EntriesOk(e)
    ensures Spaces(e.after) && TreeOk(e.value) && CharsOk(e.key) && (e.Entry? ==> EntriesOk(e.more))
    ensures !Accepted(e.value, depth) ==> If(EntriesAccepted(e, depth), EntriesMean(e), rest) == Abort
    ensures Accepted(e.value, depth) ==>
      var first := Pair(Str(CharsBytes(e.key)), TreeMeans(e.value));
      If(EntriesAccepted(e, depth), EntriesMean(e), rest)
      == if e.Entry? then After([first], If(EntriesAccepted(e.more, depth), EntriesMean(e.more), rest))
         else Ok(([first], rest))
  {
    hide TreeMeans, Accepted, TreeOk, CharsOk, CharsBytes;
    var first := Pair(Str(CharsBytes(e.key)), TreeMeans(e.value));
    assert e.LastEntry? ==> EntriesMean(e) == [first];
    assert e.Entry? ==> EntriesMean(e) == [first] + EntriesMean(e.more);
  }

  lemma {:induction false} EntriesRead(e: Entries, rest: seq<byte>, depth: nat)
    requires EntriesOk(e)
    ensures ParseEntries(EntriesText(e) + rest, depth) == If(EntriesAccepted(e, depth), EntriesMean(e), rest)
    decreases e, 0
  {
    var tail := EntryTail(e, rest);
    assert tail == if e.Entry? then [COMMA] + (EntriesText(e.more) + rest) else [CLOSE_BRACE] + rest;
    hide *;
    EntriesOutcome(e, depth, rest);
    EntriesApart(e, rest);
    SpacesFirst(e.after, tail);
    TreeRead(e.value, e.after + tail, depth);
    EntryRead(e, rest, depth);
    SkipSpaces(e.after, tail);
    var first := Pair(Str(CharsBytes(e.key)), TreeMeans(e.value));
    IfIs(Accepted(e.value, depth), first, e.after + tail, rest);
    EntriesStep(EntriesText(e) + rest, depth, e.after + tail, first);
    if e.Entry? {
      EntriesRead(e.more, rest, depth);
      assert tail[1..] == EntriesText(e.more) + rest;
    } else {
      assert tail[1..] == rest;
    }
  }

  // ---- what is read is a text of the grammar

  lemma {:induction false} SpacesOf(s: seq<byte>) returns (gap: seq<byte>)
    ensures Spaces(gap) && s == gap + SkipWs(s)
  {
    if s != [] && IsSpace(s[0]) {
      var more := SpacesOf(s[1..]);
      gap := [s[0]] + more;
    } else {
      gap := [];
    }
  }

  lemma WordOf(s: seq<byte>, word: seq<byte>)
    requires StartsWith(s, word)
    ensures s == word + s[|word|..]
  {
  }

  lemma ScalarOf(s: seq<byte>, depth: nat) returns (t: Tree)
    requires s != [] && Scalar(s).Ok? && depth < 1000
    ensures TreeOk(t) && s == TreeText(t) + Scalar(s).value.1 && TreeMeans(t) == Scalar(s).value.0
    ensures Accepted(t, depth)
  {
    hide ParseChars, ParseNumber, StartsWith, NumberText, NumberOk, CharsText, CharsOk, CharsBytes, NumberValue;
    if s[0] == QUOTE {
      var chars := CharsOf(s[1..]);
      t := Text(chars);
      assert s == [QUOTE] + s[1..];
      var rest := ParseChars(s[1..]).value.1;
      assert [QUOTE] + (CharsText(chars) + [QUOTE] + rest) == [QUOTE] + (CharsText(chars) + [QUOTE]) + rest;
    } else if s[0] == 116 {
      t := Boolean(true);
      WordOf(s, TRUE_TEXT);
    } else if s[0] == 102 {
      t := Boolean(false);
      WordOf(s, FALSE_TEXT);
    } else if s[0] == 110 {
      t := Null;
      WordOf(s, NULL_TEXT);
    } else {
      var n := NumberOf(s);
      t := Num(n);
    }
  }

  lemma EmptyOf(s: seq<byte>, open: byte, close: byte) returns (gap: seq<byte>)
    requires s != [] && s[0] == open && SkipWs(s[1..]) != [] && SkipWs(s[1..])[0] == close
    ensures Spaces(gap) && s == [open] + (gap + [close]) + SkipWs(s[1..])[1..]
  {
    gap := SpacesOf(s[1..]);
    hide SkipWs;
    var u := SkipWs(s[1..]);
    assert u == [close] + u[1..] && s == [open] + s[1..];
    assert [open] + (gap + ([close] + u[1..])) == [open] + (gap + [close]) + u[1..];
  }

  lemma {:induction false} TreeOf(s: seq<byte>, depth: nat) returns (gap: seq<byte>, t: Tree)
    requires Parse(s, depth).Ok?
    ensures Spaces(gap) && TreeOk(t) && s == gap + (TreeText(t) + Parse(s, depth).value.1)
    ensures TreeMeans(t) == Parse(s, depth).value.0 && Accepted(t, depth)
    decreases |s|, 1
  {
    hide *;
    gap := SpacesOf(s);
    ValueStep(s, depth);
    var u := SkipWs(s);
    assert |s| == |gap| + |u|;
    NullOk();
    TooDeep(Null, depth, []);
    if u[0] == OPEN_BRACKET {
      ArrayStep(u, depth);
      var w := SkipWs(u[1..]);
      if w != [] && w[0] == CLOSE_BRACKET {
        var inside := EmptyOf(u, OPEN_BRACKET, CLOSE_BRACKET);
        t := EmptyArray(inside);
      } else {
        var items := ItemsOf(u[1..], depth + 1);
        t := Array(items);
        assert u == [OPEN_BRACKET] + u[1..];
      }
      ContainerMeans(t, depth);
    } else if u[0] == OPEN_BRACE {
      ObjectStep(u, depth);
      var w := SkipWs(u[1..]);
      if w != [] && w[0] == CLOSE_BRACE {
        var inside := EmptyOf(u, OPEN_BRACE, CLOSE_BRACE);
        t := EmptyObject(inside);
      } else {
        var entries := EntriesOf(u[1..], depth + 1);
        t := Object(entries);
        assert u == [OPEN_BRACE] + u[1..];
      }
      ContainerMeans(t, depth);
    } else {
      t := ScalarOf(u, depth);
    }
  }

  lemma NullOk()
    ensures TreeOk(Null)
  {
  }

  lemma ContainerMeans(t: Tree, depth: nat)
    ensures t.EmptyArray? ==>
      TreeText(t) == [OPEN_BRACKET] + (t.gap + [CLOSE_BRACKET]) && (Spaces(t.gap) ==> TreeOk(t) && TreeMeans(t) == Vector([]))
    ensures t.EmptyObject? ==>
      TreeText(t) == [OPEN_BRACE] + (t.gap + [CLOSE_BRACE]) && (Spaces(t.gap) ==> TreeOk(t) && TreeMeans(t) == Nil)
    ensures (t.EmptyArray? || t.EmptyObject?) && Spaces(t.gap) && depth < 1000 ==> TreeOk(t) && Accepted(t, depth)
    ensures t.Array? ==> TreeText(t) == [OPEN_BRACKET] + ItemsText(t.items)
    ensures t.Object? ==> TreeText(t) == [OPEN_BRACE] + EntriesText(t.entries)
    ensures t.Array? && ItemsOk(t.items) ==> TreeOk(t) && TreeMeans(t) == Vector(ItemsMean(t.items))
    ensures t.Object? && EntriesOk(t.entries) ==> TreeOk(t) && TreeMeans(t) == Prepend(EntriesMean(t.entries), Nil)
    ensures t.Array? && ItemsOk(t.items) && depth < 1000 && ItemsAccepted(t.items, depth + 1) ==> Accepted(t, depth)
    ensures t.Object? && EntriesOk(t.entries) && depth < 1000 && EntriesAccepted(t.entries, depth + 1) ==> Accepted(t, depth)
  {
    hide ItemsOk, EntriesOk, ItemsMean, EntriesMean, ItemsText, EntriesText, ItemsAccepted, EntriesAccepted, Prepend;
  }

  lemma {:induction false} ItemsOf(s: seq<byte>, depth: nat) returns (i: Items)
    requires ParseItems(s, depth).Ok?
    ensures ItemsOk(i) && s == ItemsText(i) + ParseItems(s, depth).value.1
    ensures ItemsMean(i) == ParseItems(s, depth).value.0 && ItemsAccepted(i, depth)
    decreases |s|, 2
  {
    hide *;
    ValueStep(s, depth);
    ItemsStep(s, depth, [], Nil);
    var (v, more) := Parse(s, depth).value;
    ItemsStep(s, depth, more, v);
    var before, t := TreeOf(s, depth);
    var after := SpacesOf(more);
    var u := SkipWs(more);
    assert |s| == |before| + |TreeText(t)| + |more| && |more| == |after| + |u|;
    assert u != [] && (u[0] == COMMA || u[0] == CLOSE_BRACKET);
    TreeStarts(t, []);
    var rest := ParseItems(s, depth).value.1;
    if u[0] == COMMA {
      AfterEnd([v], ParseItems(u[1..], depth));
      var tail := ItemsOf(u[1..], depth);
      i := Item(before, t, after, tail);
      assert u == [COMMA] + u[1..];
    } else {
      i := LastItem(before, t, after);
      assert u == [CLOSE_BRACKET] + u[1..];
    }
    ItemsPut(i, depth);
    ItemsApart(i, rest);
    ItemTailIs(i, rest);
  }

  lemma ItemTailIs(i: Items, rest: seq<byte>)
    ensures ItemTail(i, rest) == if i.Item? then [COMMA] + (ItemsText(i.more) + rest) else [CLOSE_BRACKET] + rest
  {
    hide ItemsText;
  }

  lemma ItemsPut(i: Items, depth: nat)
    requires Spaces(i.before) && TreeOk(i.value) && Spaces(i.after) && (i.Item? ==> ItemsOk(i.more))
    ensures ItemsOk(i)
    ensures ItemsMean(i) == if i.Item? then [TreeMeans(i.value)] + ItemsMean(i.more) else [TreeMeans(i.value)]
    ensures ItemsAccepted(i, depth) <==> Accepted(i.value, depth) && (i.Item? ==> ItemsAccepted(i.more, depth))
  {
    hide TreeMeans, Accepted, TreeOk;
    if i.LastItem? {
      assert [TreeMeans(i.value)] + [] == [TreeMeans(i.value)];
    }
  }

  // The first entry of a text that has one.
  lemma EntryIs(s: seq<byte>, depth: nat)
    requires EntryOf(s, depth).Ok?
    ensures var t := SkipWs(s);
      && t != [] && t[0] == QUOTE && ParseChars(t[1..]).Ok?
      && var (key, afterKey) := ParseChars(t[1..]).value;
         var u := SkipWs(afterKey);
         && u != [] && u[0] == COLON && Parse(u[1..], depth).Ok?
         && var (v, more) := Parse(u[1..], depth).value;
            EntryOf(s, depth) == Ok((Pair(Str(key), v), more))
  {
    hide Parse, SkipWs, ParseChars;
    ValueStep(SkipWs(ParseChars(SkipWs(s)[1..]).value.1)[1..], depth);
  }

  lemma {:induction false} EntriesOf(s: seq<byte>, depth: nat) returns (e: Entries)
    requires ParseEntries(s, depth).Ok?
    ensures EntriesOk(e) && s == EntriesText(e) + ParseEntries(s, depth).value.1
    ensures EntriesMean(e) == ParseEntries(s, depth).value.0 && EntriesAccepted(e, depth)
    decreases |s|, 2
  {
    hide *;
    EntriesStep(s, depth, [], Nil);
    EntryIs(s, depth);
    var (entry, more) := EntryOf(s, depth).value;
    EntriesStep(s, depth, more, entry);
    var before := SpacesOf(s);
    var w := SkipWs(s);
    var key := CharsOf(w[1..]);
    var keyEnd := ParseChars(w[1..]).value.1;
    var afterKey := SpacesOf(keyEnd);
    var x := SkipWs(keyEnd);
    assert w == [QUOTE] + w[1..] && x == [COLON] + x[1..];
    assert |x| < |s|;
    var beforeValue, t := TreeOf(x[1..], depth);
    var after := SpacesOf(more);
    var u := SkipWs(more);
    assert |more| <= |x| && |u| <= |more|;
    assert u != [] && (u[0] == COMMA || u[0] == CLOSE_BRACE);
    var rest := ParseEntries(s, depth).value.1;
    if u[0] == COMMA {
      AfterEnd([entry], ParseEntries(u[1..], depth));
      var tail := EntriesOf(u[1..], depth);
      e := Entry(before, key, afterKey, beforeValue, t, after, tail);
      assert u == [COMMA] + u[1..];
    } else {
      e := LastEntry(before, key, afterKey, beforeValue, t, after);
      assert u == [CLOSE_BRACE] + u[1..];
    }
    EntriesPut(e, depth);
    EntriesApart(e, rest);
    EntryTailIs(e, rest);
  }

  lemma EntryTailIs(e: Entries, rest: seq<byte>)
    ensures EntryTail(e, rest) == if e.Entry? then [COMMA] + (EntriesText(e.more) + rest) else [CLOSE_BRACE] + rest
    ensures AfterKey(e, rest)
      == e.afterKey + ([COLON] + (e.beforeValue + (TreeText(e.value) + (e.after + EntryTail(e, rest)))))
  {
    hide EntriesText, TreeText;
  }

  lemma EntriesPut(e: Entries, depth: nat)
    requires Spaces(e.before) && CharsOk(e.key) && Spaces(e.afterKey) && Spaces(e.beforeValue) && TreeOk(e.value)
    requires Spaces(e.after) && (e.Entry? ==> EntriesOk(e.more))
    ensures EntriesOk(e)
    ensures var first := Pair(Str(CharsBytes(e.key)), TreeMeans(e.value));
      EntriesMean(e) == if e.Entry? then [first] + EntriesMean(e.more) else [first]
    ensures EntriesAccepted(e, depth) <==> Accepted(e.value, depth) && (e.Entry? ==> EntriesAccepted(e.more, depth))
  {
    hide TreeMeans, Accepted, TreeOk, CharsOk, CharsBytes;
    var first := Pair(Str(CharsBytes(e.key)), TreeMeans(e.value));
    if e.LastEntry? {
      assert [first] + [] == [first];
    }
  }

  // ---- documents

  // White space, a value, and white space.
  datatype Document = Document(before: seq<byte>, tree: Tree, after: seq<byte>)

  ghost predicate DocumentOk(d: Document) {
    Spaces(d.before) && TreeOk(d.tree) && Spaces(d.after)
  }

  function DocumentText(d: Document): seq<byte> {
    d.before + (TreeText(d.tree) + d.after)
  }

  lemma OnlySpaces(s: seq<byte>)
    ensures SkipWs(s) == [] <==> Spaces(s)
    ensures Spaces(s) ==> Delimits(s)
  {
    var gap := SpacesOf(s);
    if SkipWs(s) == [] {
      assert gap + [] == gap;
    }
    if Spaces(s) {
      SkipSpaces(s, []);
      assert s + [] == s;
    }
    hide SkipWs;
  }

  lemma DocumentRead(d: Document)
    requires DocumentOk(d)
    ensures JsonRead(DocumentText(d)) == if Accepted(d.tree, 0) then Ok(TreeMeans(d.tree)) else Abort
  {
    var s := TreeText(d.tree) + d.after;
    OnlySpaces(d.after);
    TreeStarts(d.tree, d.after);
    TreeRead(d.tree, d.after, 0);
    SkipSpaces(d.before, s);
    ValueStep(d.before + s, 0);
    hide Parse, SkipWs, TreeText, Accepted, TreeMeans, TreeOk, Spaces;
  }

  // json-read accepts exactly the documents that nest at most 1000 deep and hold no integer beyond 64 bits, and answers
  // what they stand for.
  lemma ReadsExactlyDocuments(s: seq<byte>, v: Value)
    ensures JsonRead(s) == Ok(v) <==>
      exists d :: DocumentOk(d) && DocumentText(d) == s && Accepted(d.tree, 0) && TreeMeans(d.tree) == v
  {
    if JsonRead(s) == Ok(v) {
      var gap, t := TreeOf(s, 0);
      var rest := Parse(s, 0).value.1;
      OnlySpaces(rest);
      hide Parse, SkipWs, TreeText, Accepted, TreeMeans, TreeOk, Spaces;
      var d := Document(gap, t, rest);
      assert DocumentOk(d) && DocumentText(d) == s;
    }
    if d :| DocumentOk(d) && DocumentText(d) == s && Accepted(d.tree, 0) && TreeMeans(d.tree) == v {
      DocumentRead(d);
    }
    hide JsonRead, DocumentOk, DocumentText, Accepted, TreeMeans;
  }

  // ---- nesting

  function Nesting(t: Tree): nat {
    match t
    case Array(items) => 1 + ItemsNesting(items)
    case Object(entries) => 1 + EntriesNesting(entries)
    case _ => 1
  }

  function ItemsNesting(i: Items): nat {
    if i.Item? then Max(Nesting(i.value), ItemsNesting(i.more)) else Nesting(i.value)
  }

  function EntriesNesting(e: Entries): nat {
    if e.Entry? then Max(Nesting(e.value), EntriesNesting(e.more)) else Nesting(e.value)
  }

  ghost predicate NumbersFit(t: Tree)
    requires TreeOk(t)
  {
    match t
    case Num(n) => NumberValue(n).Some?
    case Array(items) => ItemsFit(items)
    case Object(entries) => EntriesFit(entries)
    case _ => true
  }

  ghost predicate ItemsFit(i: Items)
    requires ItemsOk(i)
  {
    NumbersFit(i.value) && (i.Item? ==> ItemsFit(i.more))
  }

  ghost predicate EntriesFit(e: Entries)
    requires EntriesOk(e)
  {
    NumbersFit(e.value) && (e.Entry? ==> EntriesFit(e.more))
  }

  lemma {:induction false} AcceptedIff(t: Tree, depth: nat)
    requires TreeOk(t)
    ensures Accepted(t, depth) <==> depth + Nesting(t) <= 1000 && NumbersFit(t)
  {
    match t
    case Array(items) => ItemsAcceptedIff(items, depth + 1);
    case Object(entries) => EntriesAcceptedIff(entries, depth + 1);
    case _ =>
  }

  lemma {:induction false} ItemsAcceptedIff(i: Items, depth: nat)
    requires ItemsOk(i)
    ensures ItemsAccepted(i, depth) <==> depth + ItemsNesting(i) <= 1000 && ItemsFit(i)
  {
    AcceptedIff(i.value, depth);
    if i.Item? {
      ItemsAcceptedIff(i.more, depth);
    }
  }

  lemma {:induction false} EntriesAcceptedIff(e: Entries, depth: nat)
    requires EntriesOk(e)
    ensures EntriesAccepted(e, depth) <==> depth + EntriesNesting(e) <= 1000 && EntriesFit(e)
  {
    AcceptedIff(e.value, depth);
    if e.Entry? {
      EntriesAcceptedIff(e.more, depth);
    }
  }

  // ---- white space

  function Compact(t: Tree): Tree {
    match t
    case EmptyArray(_) => EmptyArray([])
    case Array(items) => Array(CompactItems(items))
    case EmptyObject(_) => EmptyObject([])
    case Object(entries) => Object(CompactEntries(entries))
    case _ => t
  }

  function CompactItems(i: Items): Items {
    if i.Item? then Item([], Compact(i.value), [], CompactItems(i.more)) else LastItem([], Compact(i.value), [])
  }

  function CompactEntries(e: Entries): Entries {
    if e.Entry? then Entry([], e.key, [], [], Compact(e.value), [], CompactEntries(e.more))
    else LastEntry([], e.key, [], [], Compact(e.value), [])
  }

  lemma {:induction false} CompactMeans(t: Tree, depth: nat)
    requires TreeOk(t)
    ensures TreeOk(Compact(t)) && TreeMeans(Compact(t)) == TreeMeans(t)
    ensures Accepted(Compact(t), depth) == Accepted(t, depth)
  {
    match t
    case Array(items) => CompactItemsMean(items, depth + 1);
    case Object(entries) => CompactEntriesMean(entries, depth + 1);
    case _ =>
  }

  lemma {:induction false} CompactItemsMean(i: Items, depth: nat)
    requires ItemsOk(i)
    ensures ItemsOk(CompactItems(i)) && ItemsMean(CompactItems(i)) == ItemsMean(i)
    ensures ItemsAccepted(CompactItems(i), depth) == ItemsAccepted(i, depth)
  {
    CompactMeans(i.value, depth);
    if i.Item? {
      CompactItemsMean(i.more, depth);
    }
    hide TreeMeans, Accepted, TreeOk, Compact;
  }

  lemma {:induction false} CompactEntriesMean(e: Entries, depth: nat)
    requires EntriesOk(e)
    ensures EntriesOk(CompactEntries(e)) && EntriesMean(CompactEntries(e)) == EntriesMean(e)
    ensures EntriesAccepted(CompactEntries(e), depth) == EntriesAccepted(e, depth)
  {
    CompactMeans(e.value, depth);
    if e.Entry? {
      CompactEntriesMean(e.more, depth);
    }
    hide TreeMeans, Accepted, TreeOk, Compact, CharsOk, CharsBytes;
  }

  // White space between the tokens of a document changes nothing.
  lemma SpacesDoNotMatter(d: Document)
    requires DocumentOk(d)
    ensures JsonRead(DocumentText(d)) == JsonRead(TreeText(Compact(d.tree)))
  {
    CompactMeans(d.tree, 0);
    var bare := Document([], Compact(d.tree), []);
    DocumentRead(d);
    DocumentRead(bare);
    hide JsonRead, TreeText, Compact, TreeOk, Accepted, TreeMeans;
    assert [] + (TreeText(Compact(d.tree)) + []) == TreeText(Compact(d.tree));
  }

  // The bytes that the grammar above is written with.
  lemma Punctuation()
    ensures [QUOTE] == Ascii("\"") && [BACKSLASH] == Ascii("\\") && [LOWER_U] == Ascii("u") && [DOT] == Ascii(".")
    ensures [OPEN_BRACKET] == Ascii("[") && [CLOSE_BRACKET] == Ascii("]")
    ensures [OPEN_BRACE] == Ascii("{") && [CLOSE_BRACE] == Ascii("}")
    ensures [COMMA] == Ascii(",") && [COLON] == Ascii(":")
    ensures TRUE_TEXT == Ascii("true") && FALSE_TEXT == Ascii("false") && NULL_TEXT == Ascii("null")
    ensures forall c: byte :: IsSpace(c) <==> c in Ascii(" \t\n\r")
    ensures LOWER_HEX == Ascii("0123456789abcdef") && UPPER_HEX == Ascii("0123456789ABCDEF")
  {
    var row := Ascii(" \t\n\r");
    assert row[0] == 32 && row[1] == 9 && row[2] == 10 && row[3] == 13;
  }
}
