/** csv-read and csv-write (icecreme/csv.c), section 2 of RFC 4180. */
module Csv {
  import opened Util
  import opened Decimal
  import opened SchemeValue

  const QUOTE: byte := 34
  const LF: byte := 10
  const CR: byte := 13

  type Bytes = seq<byte>

  datatype Quoting = QuoteNone | QuoteRfc | QuoteAll

  predicate IsNewline(c: byte) {
    c == CR || c == LF
  }

  // ---- reading; each function returns what it read and the text that is left

  // A carriage return takes a line feed after it along.
  function SkipNewline(s: Bytes): (r: Bytes)
    requires s != []
    ensures |r| < |s|
  {
    if s[0] == CR && |s| > 1 && s[1] == LF then s[2..] else s[1..]
  }

  // After the opening quote; a quote that is never closed ends with the text.
  function ParseQuoted(s: Bytes, quote: byte): (r: (Bytes, Bytes))
    ensures |r.1| <= |s|
  {
    if s == [] then ([], [])
    else if s[0] != quote then
      var (cell, rest) := ParseQuoted(s[1..], quote);
      ([s[0]] + cell, rest)
    else if |s| > 1 && s[1] == quote then
      var (cell, rest) := ParseQuoted(s[2..], quote);
      ([quote] + cell, rest)
    else ([], s[1..])
  }

  predicate EndsBare(c: byte, sep: byte) {
    c == sep || IsNewline(c)
  }

  function ParseBare(s: Bytes, sep: byte): (r: (Bytes, Bytes))
    ensures |r.1| <= |s|
    ensures s != [] && !EndsBare(s[0], sep) ==> |r.1| < |s|
    ensures s != [] && EndsBare(s[0], sep) ==> r.1 == s
  {
    if s == [] || EndsBare(s[0], sep) then ([], s)
    else
      var (cell, rest) := ParseBare(s[1..], sep);
      ([s[0]] + cell, rest)
  }

  function ParseCell(s: Bytes, sep: byte, quote: byte): (r: (Bytes, Bytes))
    requires s != []
    ensures |r.1| <= |s|
    ensures s[0] != sep && !IsNewline(s[0]) ==> |r.1| < |s|
  {
    if s[0] == quote then ParseQuoted(s[1..], quote) else ParseBare(s, sep)
  }

  // The cells of a row.  A separator at the end of the row is followed by one more, empty cell; anything else after a
  // closing quote starts the next row.
  function ParseCells(s: Bytes, sep: byte, quote: byte): (r: (seq<Bytes>, Bytes))
    requires s != []
    ensures |r.1| <= |s|
    ensures !IsNewline(s[0]) ==> |r.1| < |s|
    decreases |s|
  {
    var (cell, t) := ParseCell(s, sep, quote);
    if t == [] then ([cell], t)
    else if t[0] == sep then
      if |t| == 1 then ([cell, []], [])
      else if IsNewline(t[1]) then ([cell, []], SkipNewline(t[1..]))
      else
        var (more, rest) := ParseCells(t[1..], sep, quote);
        ([cell] + more, rest)
    else if IsNewline(t[0]) then ([cell], SkipNewline(t))
    else ([cell], t)
  }

  // A newline at the start of a row is a row without cells.
  function ParseRow(s: Bytes, sep: byte, quote: byte): (r: (seq<Bytes>, Bytes))
    requires s != []
    ensures |r.1| < |s|
  {
    if IsNewline(s[0]) then ([], SkipNewline(s)) else ParseCells(s, sep, quote)
  }

  function CsvRead(s: Bytes, sep: byte, quote: byte): seq<seq<Bytes>>
    decreases |s|
  {
    if s == [] then []
    else
      var (row, rest) := ParseRow(s, sep, quote);
      [row] + CsvRead(rest, sep, quote)
  }

  // ---- writing

  predicate CanWrite(v: Value) {
    v.Str? || v.Char? || v.Bool? || v.Int?
  }

  const TRUE_TEXT: Bytes := [116, 114, 117, 101]
  const FALSE_TEXT: Bytes := [102, 97, 108, 115, 101]

  function CellBytes(v: Value): Bytes
    requires CanWrite(v)
  {
    match v
    case Str(bytes) => bytes
    case Char(code) => [code % 256]
    case Bool(b) => if b then TRUE_TEXT else FALSE_TEXT
    case Int(i) => DecimalText(i)
  }

  predicate NeedsRfcQuote(bytes: Bytes, sep: byte) {
    exists j :: 0 <= j < |bytes| && (bytes[j] == sep || bytes[j] == QUOTE || bytes[j] == LF)
  }

  predicate Quoted(v: Value, sep: byte, mode: Quoting)
    requires CanWrite(v)
  {
    mode == QuoteAll || (mode == QuoteRfc && (v.Str? || v.Char?) && NeedsRfcQuote(CellBytes(v), sep))
  }

  function DoubleQuotes(s: Bytes, quote: byte): Bytes {
    if s == [] then [] else (if s[0] == quote then [quote, quote] else [s[0]]) + DoubleQuotes(s[1..], quote)
  }

  function WriteCell(v: Value, sep: byte, mode: Quoting): Bytes
    requires CanWrite(v)
  {
    if Quoted(v, sep, mode) then [QUOTE] + DoubleQuotes(CellBytes(v), QUOTE) + [QUOTE] else CellBytes(v)
  }

  predicate AllCanWrite(row: seq<Value>) {
    forall k :: 0 <= k < |row| ==> CanWrite(row[k])
  }

  function WriteRow(row: seq<Value>, sep: byte, mode: Quoting): (r: Bytes)
    requires AllCanWrite(row)
    ensures r != []
  {
    if row == [] then [LF]
    else WriteCell(row[0], sep, mode) + (if |row| > 1 then [sep] else []) + WriteRow(row[1..], sep, mode)
  }

  predicate RowsCanWrite(rows: seq<seq<Value>>) {
    forall i :: 0 <= i < |rows| ==> AllCanWrite(rows[i])
  }

  function CsvWrite(rows: seq<seq<Value>>, sep: byte, mode: Quoting): Bytes
    requires RowsCanWrite(rows)
  {
    if rows == [] then [] else WriteRow(rows[0], sep, mode) + CsvWrite(rows[1..], sep, mode)
  }

  // What reading should give back.
  function RowBytes(row: seq<Value>): (r: seq<Bytes>)
    requires AllCanWrite(row)
    ensures |r| == |row| && forall k :: 0 <= k < |r| ==> r[k] == CellBytes(row[k])
  {
    seq(|row|, k requires 0 <= k < |row| => CellBytes(row[k]))
  }

  function AllBytes(rows: seq<seq<Value>>): (r: seq<seq<Bytes>>)
    requires RowsCanWrite(rows)
    ensures |r| == |rows| && forall i :: 0 <= i < |r| ==> r[i] == RowBytes(rows[i])
  {
    seq(|rows|, i requires 0 <= i < |rows| => RowBytes(rows[i]))
  }

  // ---- round trip

  // What a caller can check of a cell that will not be quoted.
  predicate PlainSafe(bytes: Bytes, sep: byte) {
    && (bytes != [] ==> bytes[0] != QUOTE)
    && forall j :: 0 <= j < |bytes| ==> !EndsBare(bytes[j], sep)
  }

  predicate CellSafe(v: Value, sep: byte, mode: Quoting)
    requires CanWrite(v)
  {
    Quoted(v, sep, mode) || PlainSafe(CellBytes(v), sep)
  }

  predicate RowSafe(row: seq<Value>, sep: byte, mode: Quoting)
    requires AllCanWrite(row)
  {
    && (forall k :: 0 <= k < |row| ==> CellSafe(row[k], sep, mode))
    && !(|row| == 1 && CellBytes(row[0]) == [] && !Quoted(row[0], sep, mode))
  }

  lemma {:induction false} QuotedRoundTrip(bytes: Bytes, quote: byte, rest: Bytes)
    requires rest == [] || rest[0] != quote
    ensures ParseQuoted(DoubleQuotes(bytes, quote) + [quote] + rest, quote) == (bytes, rest)
  {
    if bytes == [] {
      assert DoubleQuotes(bytes, quote) + [quote] + rest == [quote] + rest;
    } else {
      var c := if bytes[0] == quote then [quote, quote] else [bytes[0]];
      var after := DoubleQuotes(bytes[1..], quote) + [quote] + rest;
      assert DoubleQuotes(bytes, quote) == c + DoubleQuotes(bytes[1..], quote);
      hide DoubleQuotes, ParseQuoted;
      QuotedRoundTrip(bytes[1..], quote, rest);
      Regroup(c, DoubleQuotes(bytes[1..], quote), [quote], rest);
      QuotedStep(bytes[0], quote, after, bytes[1..], rest);
      assert bytes == [bytes[0]] + bytes[1..];
    }
  }

  lemma QuotedStep(c: byte, quote: byte, after: Bytes, more: Bytes, rest: Bytes)
    requires ParseQuoted(after, quote) == (more, rest)
    ensures ParseQuoted((if c == quote then [quote, quote] else [c]) + after, quote) == ([c] + more, rest)
  {
    var s := (if c == quote then [quote, quote] else [c]) + after;
    assert if c == quote then s[2..] == after else s[1..] == after;
  }

  lemma {:induction false} BareRoundTrip(bytes: Bytes, sep: byte, rest: Bytes)
    requires forall j :: 0 <= j < |bytes| ==> !EndsBare(bytes[j], sep)
    requires rest == [] || EndsBare(rest[0], sep)
    ensures ParseBare(bytes + rest, sep) == (bytes, rest)
  {
    if bytes == [] {
      assert bytes + rest == rest;
    } else {
      BareRoundTrip(bytes[1..], sep, rest);
      assert (bytes + rest)[1..] == bytes[1..] + rest && bytes == [bytes[0]] + bytes[1..];
    }
  }

  lemma TailOf(c: byte, s: Bytes)
    ensures ([c] + s)[0] == c && ([c] + s)[1..] == s
  {
  }

  lemma QuotedCell(bytes: Bytes, sep: byte, quote: byte, rest: Bytes)
    requires rest == [] || rest[0] != quote
    ensures ParseCell([quote] + DoubleQuotes(bytes, quote) + [quote] + rest, sep, quote) == (bytes, rest)
  {
    hide ParseQuoted, ParseBare, DoubleQuotes;
    QuotedRoundTrip(bytes, quote, rest);
    Regroup([quote], DoubleQuotes(bytes, quote), [quote], rest);
    TailOf(quote, DoubleQuotes(bytes, quote) + [quote] + rest);
  }

  lemma BareCell(bytes: Bytes, sep: byte, quote: byte, rest: Bytes)
    requires (bytes != [] ==> bytes[0] != quote) && forall j :: 0 <= j < |bytes| ==> !EndsBare(bytes[j], sep)
    requires (rest == [] || (EndsBare(rest[0], sep) && rest[0] != quote)) && bytes + rest != []
    ensures ParseCell(bytes + rest, sep, quote) == (bytes, rest)
  {
    BareRoundTrip(bytes, sep, rest);
    hide ParseQuoted, ParseBare;
    assert (bytes + rest)[0] == if bytes == [] then rest[0] else bytes[0];
  }

  lemma CellRoundTrip(v: Value, sep: byte, mode: Quoting, rest: Bytes)
    requires CanWrite(v) && CellSafe(v, sep, mode) && sep != QUOTE && rest != [] && EndsBare(rest[0], sep)
    ensures ParseCell(WriteCell(v, sep, mode) + rest, sep, QUOTE) == (CellBytes(v), rest)
  {
    hide ParseCell, DoubleQuotes, CellBytes, Quoted;
    if Quoted(v, sep, mode) {
      QuotedCell(CellBytes(v), sep, QUOTE, rest);
    } else {
      BareCell(CellBytes(v), sep, QUOTE, rest);
    }
  }

  // The text of a row, taken apart after its first cell.
  function RowTail(row: seq<Value>, sep: byte, mode: Quoting, rest: Bytes): (r: Bytes)
    requires AllCanWrite(row) && row != []
    ensures r != []
  {
    if |row| > 1 then [sep] + (WriteRow(row[1..], sep, mode) + rest) else [LF] + rest
  }

  lemma RowText(row: seq<Value>, sep: byte, mode: Quoting, rest: Bytes)
    requires AllCanWrite(row) && row != []
    ensures WriteRow(row, sep, mode) + rest == WriteCell(row[0], sep, mode) + RowTail(row, sep, mode, rest)
  {
    hide WriteCell;
    assert |row| == 1 ==> row[1..] == [];
  }

  lemma CellStart(v: Value, sep: byte, mode: Quoting)
    requires CanWrite(v) && CellSafe(v, sep, mode)
    ensures var c := WriteCell(v, sep, mode);
      && (c != [] ==> !IsNewline(c[0]))
      && (c == [] ==> mode != QuoteAll && CellBytes(v) == [])
  {
    hide CellBytes, DoubleQuotes, NeedsRfcQuote;
    if Quoted(v, sep, mode) {
      assert WriteCell(v, sep, mode)[0] == QUOTE;
    }
  }

  // What follows a separator: the end of the row just when a last, bare, empty cell follows.
  lemma LastCellEmpty(row: seq<Value>, sep: byte, mode: Quoting, rest: Bytes)
    requires AllCanWrite(row) && row != [] && sep != LF && (sep != CR || mode == QuoteAll)
    requires forall k :: 0 <= k < |row| ==> CellSafe(row[k], sep, mode)
    ensures var s := WriteRow(row, sep, mode) + rest;
      IsNewline(s[0]) ==> |row| == 1 && CellBytes(row[0]) == [] && s == [LF] + rest
  {
    var cell, tail := WriteCell(row[0], sep, mode), RowTail(row, sep, mode, rest);
    assert tail == if |row| > 1 then [sep] + (WriteRow(row[1..], sep, mode) + rest) else [LF] + rest;
    hide CellBytes, CellSafe, WriteRow, WriteCell, RowTail;
    RowText(row, sep, mode, rest);
    CellStart(row[0], sep, mode);
    if cell == [] {
      assert cell + tail == tail;
    } else {
      assert (cell + tail)[0] == cell[0];
    }
  }

  lemma {:induction false} CellsRoundTrip(row: seq<Value>, sep: byte, mode: Quoting, rest: Bytes)
    requires AllCanWrite(row) && row != [] && sep != QUOTE && sep != LF && (sep != CR || mode == QuoteAll)
    requires forall k :: 0 <= k < |row| ==> CellSafe(row[k], sep, mode)
    ensures ParseCells(WriteRow(row, sep, mode) + rest, sep, QUOTE) == (RowBytes(row), rest)
  {
    hide WriteCell, ParseCell, ParseCells, CellBytes, CellSafe, WriteRow;
    var text, tail := WriteRow(row, sep, mode) + rest, RowTail(row, sep, mode, rest);
    RowText(row, sep, mode, rest);
    RowBytesParts(row);
    CellRoundTrip(row[0], sep, mode, tail);
    if |row| == 1 {
      LastCell(text, CellBytes(row[0]), rest, sep);
    } else {
      var s := WriteRow(row[1..], sep, mode) + rest;
      LastCellEmpty(row[1..], sep, mode, rest);
      NextCell(text, CellBytes(row[0]), s, sep);
      if IsNewline(s[0]) {
        RowBytesParts(row[1..]);
        assert s[1..] == rest;
      } else {
        CellsRoundTrip(row[1..], sep, mode, rest);
      }
    }
  }

  lemma RowBytesParts(row: seq<Value>)
    requires AllCanWrite(row) && row != []
    ensures RowBytes(row) == [CellBytes(row[0])] + RowBytes(row[1..])
    ensures |row| == 1 ==> RowBytes(row) == [CellBytes(row[0])]
  {
    hide CellBytes;
  }

  // ParseCells at a cell that a line feed ends, and at one that a separator ends.
  lemma LastCell(text: Bytes, cell: Bytes, rest: Bytes, sep: byte)
    requires text != [] && sep != LF && ParseCell(text, sep, QUOTE) == (cell, [LF] + rest)
    ensures ParseCells(text, sep, QUOTE) == ([cell], rest)
  {
    hide ParseCell;
    assert ([LF] + rest)[1..] == rest;
  }

  lemma NextCell(text: Bytes, cell: Bytes, s: Bytes, sep: byte)
    requires text != [] && s != [] && ParseCell(text, sep, QUOTE) == (cell, [sep] + s)
    ensures ParseCells(text, sep, QUOTE) ==
      if IsNewline(s[0]) then ([cell] + [[]], SkipNewline(s))
      else ([cell] + ParseCells(s, sep, QUOTE).0, ParseCells(s, sep, QUOTE).1)
  {
    hide ParseCell, SkipNewline;
    var t := [sep] + s;
    assert t[1..] == s && t[1] == s[0];
    assert [cell] + [[]] == [cell, []];
  }

  lemma RowRoundTrip(row: seq<Value>, sep: byte, mode: Quoting, rest: Bytes)
    requires AllCanWrite(row) && RowSafe(row, sep, mode)
    requires sep != QUOTE && sep != LF && (sep != CR || mode == QuoteAll)
    ensures ParseRow(WriteRow(row, sep, mode) + rest, sep, QUOTE) == (RowBytes(row), rest)
  {
    hide ParseCells, WriteCell, CellBytes;
    var s := WriteRow(row, sep, mode) + rest;
    if row == [] {
      assert s == [LF] + rest && s[1..] == rest;
    } else {
      CellsRoundTrip(row, sep, mode, rest);
      RowStart(row, sep, mode, rest);
    }
  }

  lemma RowStart(row: seq<Value>, sep: byte, mode: Quoting, rest: Bytes)
    requires AllCanWrite(row) && row != [] && RowSafe(row, sep, mode)
    requires sep != LF && (sep != CR || mode == QuoteAll)
    ensures !IsNewline((WriteRow(row, sep, mode) + rest)[0])
  {
    LastCellEmpty(row, sep, mode, rest);
    if |row| == 1 {
      assert CellSafe(row[0], sep, mode);
      assert WriteCell(row[0], sep, mode) != [];
    }
  }

  lemma {:induction false} BytesComeBack(rows: seq<seq<Value>>, sep: byte, mode: Quoting)
    requires RowsCanWrite(rows) && forall i :: 0 <= i < |rows| ==> RowSafe(rows[i], sep, mode)
    requires sep != QUOTE && sep != LF && (sep != CR || mode == QuoteAll)
    ensures CsvRead(CsvWrite(rows, sep, mode), sep, QUOTE) == AllBytes(rows)
  {
    hide ParseRow, WriteRow, RowSafe;
    if rows != [] {
      RowRoundTrip(rows[0], sep, mode, CsvWrite(rows[1..], sep, mode));
      BytesComeBack(rows[1..], sep, mode);
      assert AllBytes(rows) == [RowBytes(rows[0])] + AllBytes(rows[1..]);
    }
  }

  // ---- the condition is exact

  lemma {:induction false} BareStops(bytes: Bytes, sep: byte, rest: Bytes, j: nat)
    requires j < |bytes| && EndsBare(bytes[j], sep)
    ensures |ParseBare(bytes + rest, sep).0| <= j
  {
    if j > 0 && !EndsBare(bytes[0], sep) {
      assert (bytes + rest)[1..] == bytes[1..] + rest;
      BareStops(bytes[1..], sep, rest, j - 1);
    }
  }

  // A bare cell that starts with a quote is taken for a quoted one, and never comes back.
  function LeadingQuotes(s: Bytes): (r: nat)
    ensures r <= |s| && (forall i :: 0 <= i < r ==> s[i] == QUOTE) && (r < |s| ==> s[r] != QUOTE)
  {
    if s == [] || s[0] != QUOTE then 0 else 1 + LeadingQuotes(s[1..])
  }

  lemma {:induction false} QuotesDoubled(s: Bytes, i: nat)
    requires i < |s| && forall j :: 0 <= j <= i ==> s[j] == QUOTE
    ensures i < |DoubleQuotes(s, QUOTE)| && forall j :: 0 <= j <= i ==> DoubleQuotes(s, QUOTE)[j] == QUOTE
  {
    if i > 0 {
      QuotesDoubled(s[1..], i - 1);
      assert DoubleQuotes(s, QUOTE) == [QUOTE, QUOTE] + DoubleQuotes(s[1..], QUOTE);
    }
  }

  lemma {:induction false} ReadsDoubled(s: Bytes)
    ensures DoubleQuotes(ParseQuoted(s, QUOTE).0, QUOTE) <= s
  {
    var cell := ParseQuoted(s, QUOTE).0;
    if s == [] {
    } else if s[0] != QUOTE {
      ReadsDoubled(s[1..]);
      assert cell[1..] == ParseQuoted(s[1..], QUOTE).0;
    } else if |s| > 1 && s[1] == QUOTE {
      ReadsDoubled(s[2..]);
      assert cell[1..] == ParseQuoted(s[2..], QUOTE).0;
    }
  }

  lemma QuoteLedDiffers(bytes: Bytes, rest: Bytes)
    requires bytes != [] && bytes[0] == QUOTE && rest != [] && rest[0] != QUOTE
    ensures ParseQuoted((bytes + rest)[1..], QUOTE).0 != bytes
  {
    var s := (bytes + rest)[1..];
    var m := LeadingQuotes(bytes);
    ReadsDoubled(s);
    QuotesDoubled(bytes, m - 1);
    assert s[m - 1] == (bytes + rest)[m] != QUOTE;
    hide DoubleQuotes, ParseQuoted, LeadingQuotes;
  }

  // A cell that is neither quoted nor safe starts with a quote, or holds a separator or a newline.
  lemma UnsafeCell(v: Value, sep: byte, mode: Quoting) returns (j: nat)
    requires CanWrite(v) && !CellSafe(v, sep, mode)
    ensures WriteCell(v, sep, mode) == CellBytes(v) && CellBytes(v) != []
    ensures CellBytes(v)[0] == QUOTE || (j < |CellBytes(v)| && EndsBare(CellBytes(v)[j], sep))
  {
    var bytes := CellBytes(v);
    j := 0;
    hide CellBytes, Quoted;
    if bytes == [] || bytes[0] != QUOTE {
      j :| 0 <= j < |bytes| && EndsBare(bytes[j], sep);
    }
  }

  lemma UnsafeCellDiffers(v: Value, sep: byte, mode: Quoting, rest: Bytes)
    requires CanWrite(v) && !CellSafe(v, sep, mode) && rest != [] && rest[0] != QUOTE
    ensures CellBytes(v) != [] && ParseCell(WriteCell(v, sep, mode) + rest, sep, QUOTE).0 != CellBytes(v)
  {
    var j := UnsafeCell(v, sep, mode);
    var bytes := CellBytes(v);
    hide CellSafe, WriteCell, CellBytes, ParseBare, ParseQuoted;
    assert (bytes + rest)[0] == bytes[0];
    if bytes[0] == QUOTE {
      QuoteLedDiffers(bytes, rest);
    } else {
      BareStops(bytes, sep, rest, j);
    }
  }

  predicate CellsSafe(row: seq<Value>, sep: byte, mode: Quoting)
    requires AllCanWrite(row)
  {
    forall k :: 0 <= k < |row| ==> CellSafe(row[k], sep, mode)
  }

  lemma FirstCellDiffers(row: seq<Value>, sep: byte, mode: Quoting, rest: Bytes)
    requires AllCanWrite(row) && row != [] && !CellSafe(row[0], sep, mode) && sep != QUOTE
    ensures ParseCells(WriteRow(row, sep, mode) + rest, sep, QUOTE).0 != RowBytes(row)
  {
    var s := WriteRow(row, sep, mode) + rest;
    RowText(row, sep, mode, rest);
    assert RowTail(row, sep, mode, rest)[0] != QUOTE;
    UnsafeCellDiffers(row[0], sep, mode, RowTail(row, sep, mode, rest));
    hide WriteCell, ParseCell, CellBytes, CellSafe, WriteRow, RowTail;
    assert ParseCells(s, sep, QUOTE).0[0] == ParseCell(s, sep, QUOTE).0;
  }

  lemma {:induction false} UnsafeCellsDiffer(row: seq<Value>, sep: byte, mode: Quoting, rest: Bytes)
    requires AllCanWrite(row) && !CellsSafe(row, sep, mode) && sep != QUOTE && !IsNewline(sep)
    ensures ParseCells(WriteRow(row, sep, mode) + rest, sep, QUOTE).0 != RowBytes(row)
  {
    hide WriteCell, ParseCell, ParseCells, CellBytes, CellSafe, WriteRow;
    if !CellSafe(row[0], sep, mode) {
      FirstCellDiffers(row, sep, mode, rest);
    } else {
      var k :| 0 < k < |row| && !CellSafe(row[k], sep, mode);
      assert row[1..][k - 1] == row[k];
      RowText(row, sep, mode, rest);
      var s := WriteRow(row[1..], sep, mode) + rest;
      CellRoundTrip(row[0], sep, mode, [sep] + s);
      NextCell(WriteRow(row, sep, mode) + rest, CellBytes(row[0]), s, sep);
      var inner := if IsNewline(s[0]) then [[]] else ParseCells(s, sep, QUOTE).0;
      assert inner != RowBytes(row[1..]) by {
        NotOneEmptyCell(row[1..], sep, mode);
        UnsafeCellsDiffer(row[1..], sep, mode, rest);
      }
      RowBytesParts(row);
      assert ([CellBytes(row[0])] + inner)[1..] == inner;
    }
  }

  // An unsafe row is not one empty cell.
  lemma NotOneEmptyCell(row: seq<Value>, sep: byte, mode: Quoting)
    requires AllCanWrite(row) && !CellsSafe(row, sep, mode)
    ensures |row| > 1 || (|row| == 1 && CellBytes(row[0]) != [])
  {
    hide CellBytes, Quoted;
  }

  lemma UnsafeRowDiffers(row: seq<Value>, sep: byte, mode: Quoting, rest: Bytes)
    requires AllCanWrite(row) && !RowSafe(row, sep, mode) && sep != QUOTE && !IsNewline(sep)
    ensures ParseRow(WriteRow(row, sep, mode) + rest, sep, QUOTE).0 != RowBytes(row)
  {
    if CellsSafe(row, sep, mode) {
      assert row[1..] == [];
      hide CellSafe;
      assert WriteRow(row, sep, mode) == [LF];
      assert |RowBytes(row)| == 1;
    } else {
      hide CellSafe, WriteRow, WriteCell, CellBytes, ParseCells;
      UnsafeCellsDiffer(row, sep, mode, rest);
      assert |RowBytes(row)| == |row| > 0;
    }
  }

  lemma {:induction false} BytesComeBackIff(rows: seq<seq<Value>>, sep: byte, mode: Quoting)
    requires RowsCanWrite(rows) && sep != QUOTE && !IsNewline(sep)
    ensures CsvRead(CsvWrite(rows, sep, mode), sep, QUOTE) == AllBytes(rows)
      <==> forall i :: 0 <= i < |rows| ==> RowSafe(rows[i], sep, mode)
  {
    hide ParseRow, WriteRow, RowSafe, RowBytes;
    if rows != [] {
      var rest := CsvWrite(rows[1..], sep, mode);
      if RowSafe(rows[0], sep, mode) {
        RowRoundTrip(rows[0], sep, mode, rest);
        BytesComeBackIff(rows[1..], sep, mode);
        assert AllBytes(rows) == [RowBytes(rows[0])] + AllBytes(rows[1..]);
        assert AllBytes(rows)[1..] == AllBytes(rows[1..]);
        assert (forall i :: 0 <= i < |rows[1..]| ==> RowSafe(rows[1..][i], sep, mode)) ==>
            forall i :: 0 < i < |rows| ==> rows[i] == rows[1..][i - 1];
      } else {
        UnsafeRowDiffers(rows[0], sep, mode, rest);
        assert AllBytes(rows)[0] == RowBytes(rows[0]);
      }
    }
  }

  // ---- what the cells stand for

  // A string stands as its own bytes, a character as the low byte of its code, a boolean as the word true or false,
  // and an integer as a plain numeral.
  ghost predicate StandsFor(cell: Bytes, v: Value)
    requires CanWrite(v)
  {
    match v
    case Str(bytes) => cell == bytes
    case Char(code) => |cell| == 1 && (code - cell[0] as int) % 256 == 0
    case Bool(b) => cell == if b then [116, 114, 117, 101] else [102, 97, 108, 115, 101]
    case Int(i) => ParseInteger(cell) == Some(i as int) && PlainNumeral(cell)
  }

  lemma OnlyItsBytes(cell: Bytes, v: Value)
    requires CanWrite(v)
    ensures StandsFor(cell, v) <==> cell == CellBytes(v)
  {
    match v
    case Str(_) =>
    case Char(code) =>
      assert |cell| == 1 ==> cell == [cell[0]];
    case Bool(_) =>
    case Int(i) =>
      PlainNumeralIs(cell, i);
  }

  ghost predicate RowReadsAs(cells: seq<Bytes>, row: seq<Value>)
    requires AllCanWrite(row)
  {
    |cells| == |row| && forall k :: 0 <= k < |row| ==> StandsFor(cells[k], row[k])
  }

  ghost predicate ReadsAs(table: seq<seq<Bytes>>, rows: seq<seq<Value>>)
    requires RowsCanWrite(rows)
  {
    |table| == |rows| && forall i :: 0 <= i < |rows| ==> RowReadsAs(table[i], rows[i])
  }

  lemma OnlyRowBytes(cells: seq<Bytes>, row: seq<Value>)
    requires AllCanWrite(row)
    ensures RowReadsAs(cells, row) <==> cells == RowBytes(row)
  {
    forall k | 0 <= k < |row| && k < |cells| ensures StandsFor(cells[k], row[k]) <==> cells[k] == CellBytes(row[k]) {
      OnlyItsBytes(cells[k], row[k]);
    }
    hide StandsFor, CellBytes, CanWrite;
  }

  lemma OnlyAllBytes(table: seq<seq<Bytes>>, rows: seq<seq<Value>>)
    requires RowsCanWrite(rows)
    ensures ReadsAs(table, rows) <==> table == AllBytes(rows)
  {
    forall i | 0 <= i < |rows| && i < |table| ensures RowReadsAs(table[i], rows[i]) <==> table[i] == RowBytes(rows[i]) {
      OnlyRowBytes(table[i], rows[i]);
    }
    hide RowReadsAs, RowBytes, AllCanWrite;
  }

  // Rows whose bare cells hold no separator, newline or leading quote, and that are not one bare, empty cell, are read
  // back as what they were.
  lemma CsvRoundTrip(rows: seq<seq<Value>>, sep: byte, mode: Quoting)
    requires RowsCanWrite(rows) && forall i :: 0 <= i < |rows| ==> RowSafe(rows[i], sep, mode)
    requires sep != QUOTE && sep != LF && (sep != CR || mode == QuoteAll)
    ensures ReadsAs(CsvRead(CsvWrite(rows, sep, mode), sep, QUOTE), rows)
  {
    BytesComeBack(rows, sep, mode);
    OnlyAllBytes(CsvRead(CsvWrite(rows, sep, mode), sep, QUOTE), rows);
    hide *;
  }

  // In every mode that condition is exact.
  lemma RoundTripIff(rows: seq<seq<Value>>, sep: byte, mode: Quoting)
    requires RowsCanWrite(rows) && sep != QUOTE && !IsNewline(sep)
    ensures ReadsAs(CsvRead(CsvWrite(rows, sep, mode), sep, QUOTE), rows)
      <==> forall i :: 0 <= i < |rows| ==> RowSafe(rows[i], sep, mode)
  {
    BytesComeBackIff(rows, sep, mode);
    OnlyAllBytes(CsvRead(CsvWrite(rows, sep, mode), sep, QUOTE), rows);
    hide *;
  }

  // What it means in the default mode, for the cells as they stand: no row is one empty cell; no string or character
  // holds a carriage return unless a separator, quote or line feed in it makes it quoted; and no number or boolean
  // holds the separator.
  lemma RfcSafeIff(row: seq<Value>, cells: seq<Bytes>, sep: byte)
    requires AllCanWrite(row) && RowReadsAs(cells, row) && sep != QUOTE && !IsNewline(sep)
    ensures RowSafe(row, sep, QuoteRfc) <==>
      && cells != [[]]
      && forall k :: 0 <= k < |row| ==>
        if row[k].Bool? || row[k].Int? then sep !in cells[k]
        else CR in cells[k] ==> sep in cells[k] || QUOTE in cells[k] || LF in cells[k]
  {
    OnlyRowBytes(cells, row);
    forall k | 0 <= k < |row|
      ensures CellSafe(row[k], sep, QuoteRfc) <==>
        if row[k].Bool? || row[k].Int? then sep !in cells[k]
        else CR in cells[k] ==> sep in cells[k] || QUOTE in cells[k] || LF in cells[k]
    {
      RfcCellSafeIff(row[k], sep);
    }
    EmptyCellBare(row, sep);
    hide CellSafe, CellBytes, Quoted, StandsFor, RowReadsAs;
  }

  lemma EmptyCellBare(row: seq<Value>, sep: byte)
    requires AllCanWrite(row)
    ensures |row| == 1 && CellBytes(row[0]) == [] ==> !Quoted(row[0], sep, QuoteRfc)
  {
    hide CellBytes;
  }

  lemma NeedsQuoteIff(bytes: Bytes, sep: byte)
    ensures NeedsRfcQuote(bytes, sep) <==> sep in bytes || QUOTE in bytes || LF in bytes
  {
    assert forall c: byte :: c in bytes <==> exists j :: 0 <= j < |bytes| && bytes[j] == c;
  }

  lemma RfcCellSafeIff(v: Value, sep: byte)
    requires CanWrite(v) && sep != QUOTE && !IsNewline(sep)
    ensures CellSafe(v, sep, QuoteRfc) <==>
      if v.Bool? || v.Int? then sep !in CellBytes(v)
      else CR in CellBytes(v) ==> sep in CellBytes(v) || QUOTE in CellBytes(v) || LF in CellBytes(v)
  {
    var bytes := CellBytes(v);
    NeedsQuoteIff(bytes, sep);
    if v.Bool? || v.Int? {
      TextOfNumber(v);
      hide CellBytes, NeedsRfcQuote;
      if sep in bytes {
        var j :| 0 <= j < |bytes| && bytes[j] == sep;
        assert EndsBare(bytes[j], sep);
      }
    } else {
      hide CellBytes, NeedsRfcQuote;
      if CR in bytes {
        var j :| 0 <= j < |bytes| && bytes[j] == CR;
        assert EndsBare(bytes[j], sep);
      }
    }
  }

  // Nothing is quoted without need: in mode none no cell is, in the default mode a string or character that holds a
  // separator, quote or line feed, in mode all every cell.  A quoted cell starts and ends with a quote.
  lemma QuotedOnlyIfNeeded(v: Value, cell: Bytes, sep: byte, mode: Quoting)
    requires CanWrite(v) && StandsFor(cell, v)
    ensures var text := WriteCell(v, sep, mode);
      var needed := match mode {
        case QuoteNone => false
        case QuoteRfc => (v.Str? || v.Char?) && (sep in cell || QUOTE in cell || LF in cell)
        case QuoteAll => true
      };
      if needed then text == [QUOTE] + DoubleQuotes(cell, QUOTE) + [QUOTE] else text == cell
  {
    OnlyItsBytes(cell, v);
    NeedsQuoteIff(cell, sep);
    hide CellBytes, StandsFor, DoubleQuotes, NeedsRfcQuote;
  }

  lemma TextOfNumber(v: Value)
    requires v.Bool? || v.Int?
    ensures CellBytes(v) != [] && CellBytes(v)[0] != QUOTE
    ensures forall j :: 0 <= j < |CellBytes(v)| ==> !IsNewline(CellBytes(v)[j])
  {
    if v.Int? {
      var i: int := v.i;
      var digits := Digits(if i < 0 then -i else i);
      assert forall k :: 0 <= k < |digits| ==> IsDigit(digits[k]);
      hide Digits;
    }
  }

  // With every cell quoted, any rows come back under any separator but a quote or a line feed, and only under those.
  lemma AllQuotedRoundTripIff(sep: byte)
    ensures (forall rows :: RowsCanWrite(rows) ==>
               ReadsAs(CsvRead(CsvWrite(rows, sep, QuoteAll), sep, QUOTE), rows))
      <==> sep != QUOTE && sep != LF
  {
    if sep != QUOTE && sep != LF {
      forall rows | RowsCanWrite(rows)
        ensures ReadsAs(CsvRead(CsvWrite(rows, sep, QuoteAll), sep, QUOTE), rows)
      {
        AllQuotedIsSafe(rows, sep);
        CsvRoundTrip(rows, sep, QuoteAll);
      }
    } else {
      var rows := [[Str([65]), Str([66])]];
      assert RowsCanWrite(rows);
      TwoCellsFail(sep);
      OnlyAllBytes(CsvRead(CsvWrite(rows, sep, QuoteAll), sep, QUOTE), rows);
    }
    hide ReadsAs, CsvRead, CsvWrite, RowSafe;
  }

  lemma AllQuotedIsSafe(rows: seq<seq<Value>>, sep: byte)
    requires RowsCanWrite(rows)
    ensures forall i :: 0 <= i < |rows| ==> RowSafe(rows[i], sep, QuoteAll)
  {
  }

  lemma TwoCellsFail(sep: byte)
    requires sep == QUOTE || sep == LF
    ensures var rows := [[Str([65]), Str([66])]];
      RowsCanWrite(rows) && CsvRead(CsvWrite(rows, sep, QuoteAll), sep, QUOTE) != AllBytes(rows)
  {
    var rows := [[Str([65]), Str([66])]];
    var s := TwoCellsText(sep);
    var row := ParseCells(s, sep, QUOTE).0;
    if sep == QUOTE {
      OneCellRead(s);
    } else {
      ThreeCellsRead(s);
    }
    hide ParseCells;
    assert CsvRead(s, sep, QUOTE)[0] == row;
    assert |AllBytes(rows)[0]| == 2;
  }

  lemma OneCellRead(s: Bytes)
    requires s == [QUOTE, 65, QUOTE, QUOTE, QUOTE, 66, QUOTE, LF]
    ensures ParseCells(s, QUOTE, QUOTE).0 == [[65, QUOTE]]
  {
    var t: Bytes := [QUOTE, 66, QUOTE, LF];
    assert ParseQuoted(t, QUOTE) == ([], t[1..]);
    var u: Bytes := [QUOTE, QUOTE] + t;
    assert u[2..] == t && [QUOTE] + [] == [QUOTE];
    assert ParseQuoted(u, QUOTE) == ([QUOTE], t[1..]);
    assert s[1..][1..] == u && s[1..][0] == 65 && [65] + [QUOTE] == [65, QUOTE];
    assert ParseQuoted(s[1..], QUOTE) == ([65, QUOTE], t[1..]);
  }

  lemma ThreeCellsRead(s: Bytes)
    requires s == [QUOTE, 65, QUOTE, LF, QUOTE, 66, QUOTE, LF]
    ensures ParseCells(s, LF, QUOTE).0 == [[65], [66], []]
  {
    var t: Bytes := [QUOTE, 66, QUOTE, LF];
    assert DoubleQuotes([65], QUOTE) == [65] && DoubleQuotes([66], QUOTE) == [66];
    QuotedCell([66], LF, QUOTE, [LF]);
    assert t == [QUOTE] + DoubleQuotes([66], QUOTE) + [QUOTE] + [LF];
    QuotedCell([65], LF, QUOTE, [LF] + t);
    assert s == [QUOTE] + DoubleQuotes([65], QUOTE) + [QUOTE] + ([LF] + t);
    hide ParseCell;
    assert ParseCells(t, LF, QUOTE).0 == [[66], []];
    NextCell(s, [65], t, LF);
  }

  lemma TwoCellsText(sep: byte) returns (s: Bytes)
    ensures s == [QUOTE, 65, QUOTE, sep, QUOTE, 66, QUOTE, LF]
    ensures CsvWrite([[Str([65]), Str([66])]], sep, QuoteAll) == s
  {
    var a, b := Str([65]), Str([66]);
    s := [QUOTE, 65, QUOTE, sep, QUOTE, 66, QUOTE, LF];
    assert DoubleQuotes([65], QUOTE) == [65] && DoubleQuotes([66], QUOTE) == [66];
    assert WriteCell(a, sep, QuoteAll) == [QUOTE, 65, QUOTE] && WriteCell(b, sep, QuoteAll) == [QUOTE, 66, QUOTE];
    hide WriteCell;
    assert [a, b][1..] == [b] && [b][1..] == [];
    assert WriteRow([b], sep, QuoteAll) == [QUOTE, 66, QUOTE, LF];
    assert WriteRow([a, b], sep, QuoteAll) == s;
    assert [[a, b]][1..] == [];
  }
}
