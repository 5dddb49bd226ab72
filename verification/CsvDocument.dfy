/** What csv-read makes of any text at all: a grammar of rows that every text belongs to, section 2 of RFC 4180 with the
    lenient cases of icecreme/csv.c. */
module CsvDocument {
  import opened Util
  import opened Decimal
  import opened Csv

  // A quote that is never closed can only be in the last cell of the text.
  datatype Cell = Bare(bytes: Bytes) | InQuotes(bytes: Bytes) | Unclosed(bytes: Bytes)

  // A row that ends without a newline is the last one, or ends in a quoted cell that the next row follows directly.
  datatype RowEnd = NoNewline | Lf | Cr | CrLf

  datatype Row = Row(cells: seq<Cell>, end: RowEnd)

  // Separator and quote are told apart from each other and from newlines.
  predicate Distinguished(sep: byte, quote: byte) {
    sep != quote && !IsNewline(sep) && !IsNewline(quote)
  }

  // ---- texts

  function CellText(c: Cell, quote: byte): Bytes {
    match c
    case Bare(bytes) => bytes
    case InQuotes(bytes) => [quote] + DoubleQuotes(bytes, quote) + [quote]
    case Unclosed(bytes) => [quote] + DoubleQuotes(bytes, quote)
  }

  function CellsText(cells: seq<Cell>, sep: byte, quote: byte): Bytes {
    if cells == [] then []
    else CellText(cells[0], quote) + (if |cells| > 1 then [sep] + CellsText(cells[1..], sep, quote) else [])
  }

  function EndText(end: RowEnd): Bytes {
    match end
    case NoNewline => []
    case Lf => [LF]
    case Cr => [CR]
    case CrLf => [CR, LF]
  }

  function RowText(r: Row, sep: byte, quote: byte): Bytes {
    CellsText(r.cells, sep, quote) + EndText(r.end)
  }

  function DocumentText(rows: seq<Row>, sep: byte, quote: byte): Bytes {
    if rows == [] then [] else RowText(rows[0], sep, quote) + DocumentText(rows[1..], sep, quote)
  }

  // What the rows hold.
  function CellsHeld(cells: seq<Cell>): (r: seq<Bytes>)
    ensures |r| == |cells| && forall k :: 0 <= k < |r| ==> r[k] == cells[k].bytes
  {
    seq(|cells|, k requires 0 <= k < |cells| => cells[k].bytes)
  }

  function RowsHeld(rows: seq<Row>): (r: seq<seq<Bytes>>)
    ensures |r| == |rows| && forall i :: 0 <= i < |r| ==> r[i] == CellsHeld(rows[i].cells)
  {
    seq(|rows|, i requires 0 <= i < |rows| => CellsHeld(rows[i].cells))
  }

  // ---- which rows can stand in a text

  predicate CellOk(c: Cell, sep: byte, quote: byte) {
    c.Bare? ==> (c.bytes != [] ==> c.bytes[0] != quote) && forall j :: 0 <= j < |c.bytes| ==> !EndsBare(c.bytes[j], sep)
  }

  predicate CellsOk(cells: seq<Cell>, sep: byte, quote: byte) {
    && (forall k :: 0 <= k < |cells| ==> CellOk(cells[k], sep, quote))
    && (forall k :: 0 <= k < |cells| - 1 ==> !cells[k].Unclosed?)
  }

  // How a row whose last cell is this can end before the rest of the text.
  predicate EndOk(last: Cell, end: RowEnd, rest: Bytes, sep: byte, quote: byte) {
    && (last.Unclosed? ==> end == NoNewline && rest == [])
    && (end == NoNewline && rest != [] ==> last.InQuotes? && rest[0] != quote && !EndsBare(rest[0], sep))
    && (end == Cr && rest != [] ==> rest[0] != LF)
  }

  // One bare, empty cell alone is no row: its text is that of a row without cells.
  predicate RowOk(r: Row, rest: Bytes, sep: byte, quote: byte) {
    && CellsOk(r.cells, sep, quote)
    && r.cells != [Bare([])]
    && if r.cells == [] then r.end != NoNewline && (r.end == Cr && rest != [] ==> rest[0] != LF)
       else EndOk(r.cells[|r.cells| - 1], r.end, rest, sep, quote)
  }

  predicate DocumentOk(rows: seq<Row>, sep: byte, quote: byte) {
    rows != [] ==>
      RowOk(rows[0], DocumentText(rows[1..], sep, quote), sep, quote) && DocumentOk(rows[1..], sep, quote)
  }

  // ---- such a text is read as what its rows hold

  lemma {:induction false} UnclosedRead(bytes: Bytes, quote: byte)
    ensures ParseQuoted(DoubleQuotes(bytes, quote), quote) == (bytes, [])
  {
    if bytes != [] {
      UnclosedRead(bytes[1..], quote);
      QuotedStep(bytes[0], quote, DoubleQuotes(bytes[1..], quote), bytes[1..], []);
      assert [bytes[0]] + bytes[1..] == bytes;
    }
  }

  // What can follow a cell.
  predicate FollowsCell(c: Cell, tail: Bytes, sep: byte, quote: byte) {
    match c
    case Bare(_) => tail == [] || EndsBare(tail[0], sep)
    case InQuotes(_) => tail == [] || tail[0] != quote
    case Unclosed(_) => tail == []
  }

  lemma UnclosedCell(bytes: Bytes, sep: byte, quote: byte)
    ensures ParseCell([quote] + DoubleQuotes(bytes, quote), sep, quote) == (bytes, [])
  {
    hide ParseQuoted, ParseBare, DoubleQuotes;
    UnclosedRead(bytes, quote);
    TailOf(quote, DoubleQuotes(bytes, quote));
  }

  lemma CellRead(c: Cell, tail: Bytes, sep: byte, quote: byte)
    requires Distinguished(sep, quote) && CellOk(c, sep, quote) && FollowsCell(c, tail, sep, quote)
    requires CellText(c, quote) + tail != []
    ensures ParseCell(CellText(c, quote) + tail, sep, quote) == (c.bytes, tail)
  {
    hide ParseCell, DoubleQuotes;
    match c
    case Bare(bytes) =>
      BareCell(bytes, sep, quote, tail);
    case InQuotes(bytes) =>
      QuotedCell(bytes, sep, quote, tail);
    case Unclosed(bytes) =>
      UnclosedCell(bytes, sep, quote);
      assert CellText(c, quote) + [] == CellText(c, quote);
  }

  lemma EndRead(end: RowEnd, rest: Bytes)
    requires end != NoNewline && (end == Cr && rest != [] ==> rest[0] != LF)
    ensures var s := EndText(end) + rest; IsNewline(s[0]) && SkipNewline(s) == rest
  {
  }

  // ParseCells, after its first cell was read.
  lemma AfterCell(s: Bytes, cell: Bytes, t: Bytes, sep: byte, quote: byte)
    requires s != [] && ParseCell(s, sep, quote) == (cell, t) && Distinguished(sep, quote)
    ensures t == [] || (t[0] != sep && !IsNewline(t[0])) ==> ParseCells(s, sep, quote) == ([cell], t)
    ensures t != [] && IsNewline(t[0]) ==> ParseCells(s, sep, quote) == ([cell], SkipNewline(t))
    ensures |t| == 1 && t[0] == sep ==> ParseCells(s, sep, quote) == ([cell, []], [])
    ensures |t| > 1 && t[0] == sep && IsNewline(t[1]) ==>
      ParseCells(s, sep, quote) == ([cell, []], SkipNewline(t[1..]))
    ensures |t| > 1 && t[0] == sep && !IsNewline(t[1]) ==>
      ParseCells(s, sep, quote) == ([cell] + ParseCells(t[1..], sep, quote).0, ParseCells(t[1..], sep, quote).1)
  {
    hide ParseCell, SkipNewline;
  }

  // The text behind the first of several cells.
  function CellsTail(cells: seq<Cell>, end: RowEnd, rest: Bytes, sep: byte, quote: byte): Bytes
    requires cells != []
  {
    if |cells| > 1 then [sep] + (CellsText(cells[1..], sep, quote) + (EndText(end) + rest)) else EndText(end) + rest
  }

  lemma CellsApart(cells: seq<Cell>, end: RowEnd, rest: Bytes, sep: byte, quote: byte)
    requires cells != []
    ensures CellsText(cells, sep, quote) + (EndText(end) + rest)
      == CellText(cells[0], quote) + CellsTail(cells, end, rest, sep, quote)
  {
    hide CellText, EndText;
    var c, e := CellText(cells[0], quote), EndText(end) + rest;
    if |cells| > 1 {
      var more := CellsText(cells[1..], sep, quote);
      assert c + ([sep] + more) + e == c + ([sep] + (more + e));
    } else {
      assert c + [] + e == c + e;
    }
  }

  // A row starts with a newline just when it is a single empty cell, or none.
  lemma RowStarts(cells: seq<Cell>, end: RowEnd, rest: Bytes, sep: byte, quote: byte)
    requires Distinguished(sep, quote) && cells != [] && CellsOk(cells, sep, quote)
    requires EndOk(cells[|cells| - 1], end, rest, sep, quote)
    ensures var s := CellsText(cells, sep, quote) + (EndText(end) + rest);
      if cells == [Bare([])] then s == EndText(end) + rest && (s == [] || IsNewline(s[0]))
      else s != [] && !IsNewline(s[0])
  {
    CellsApart(cells, end, rest, sep, quote);
    var c, tail := CellText(cells[0], quote), CellsTail(cells, end, rest, sep, quote);
    hide CellsText, DoubleQuotes;
    if c != [] {
      assert (c + tail)[0] == c[0];
    } else {
      assert c + tail == tail && cells[0] == Bare([]);
      assert |cells| == 1 ==> cells == [cells[0]];
    }
  }

  lemma TailFollows(cells: seq<Cell>, end: RowEnd, rest: Bytes, sep: byte, quote: byte)
    requires Distinguished(sep, quote) && cells != [] && CellsOk(cells, sep, quote)
    requires EndOk(cells[|cells| - 1], end, rest, sep, quote)
    ensures FollowsCell(cells[0], CellsTail(cells, end, rest, sep, quote), sep, quote)
  {
    hide CellsText, CellOk;
  }

  lemma {:induction false} CellsRead(cells: seq<Cell>, end: RowEnd, rest: Bytes, sep: byte, quote: byte)
    requires Distinguished(sep, quote) && cells != [] && cells != [Bare([])] && CellsOk(cells, sep, quote)
    requires EndOk(cells[|cells| - 1], end, rest, sep, quote)
    ensures ParseCells(CellsText(cells, sep, quote) + (EndText(end) + rest), sep, quote) == (CellsHeld(cells), rest)
    decreases |cells|
  {
    var s := CellsText(cells, sep, quote) + (EndText(end) + rest);
    hide *;
    FirstCellRead(cells, end, rest, sep, quote);
    HeldParts(cells);
    if |cells| == 1 {
      LastCellRead(s, cells[0], end, rest, sep, quote);
    } else {
      var more := cells[1..];
      MoreOk(cells, end, rest, sep, quote);
      if more == [Bare([])] {
        EmptyCellRead(s, cells[0], end, rest, sep, quote);
      } else {
        CellsRead(more, end, rest, sep, quote);
        RowStarts(more, end, rest, sep, quote);
        NextCellRead(s, cells[0], CellsText(more, sep, quote) + (EndText(end) + rest), sep, quote);
      }
    }
  }

  lemma HeldParts(cells: seq<Cell>)
    requires cells != []
    ensures CellsHeld(cells) == [cells[0].bytes] + CellsHeld(cells[1..])
    ensures |cells| == 1 ==> CellsHeld(cells) == [cells[0].bytes]
    ensures |cells| > 1 && cells[1..] == [Bare([])] ==> CellsHeld(cells) == [cells[0].bytes, []]
  {
    assert |cells| > 1 && cells[1..] == [Bare([])] ==> cells[1] == cells[1..][0];
  }

  lemma FirstCellRead(cells: seq<Cell>, end: RowEnd, rest: Bytes, sep: byte, quote: byte)
    requires Distinguished(sep, quote) && cells != [] && cells != [Bare([])] && CellsOk(cells, sep, quote)
    requires EndOk(cells[|cells| - 1], end, rest, sep, quote)
    ensures var s := CellsText(cells, sep, quote) + (EndText(end) + rest);
      s != [] && ParseCell(s, sep, quote) == (cells[0].bytes,
        if |cells| > 1 then [sep] + (CellsText(cells[1..], sep, quote) + (EndText(end) + rest)) else EndText(end) + rest)
  {
    CellsApart(cells, end, rest, sep, quote);
    RowStarts(cells, end, rest, sep, quote);
    TailFollows(cells, end, rest, sep, quote);
    assert CellOk(cells[0], sep, quote);
    hide CellsText, EndText, CellText, ParseCell, CellOk, CellsOk, EndOk, FollowsCell;
    CellRead(cells[0], CellsTail(cells, end, rest, sep, quote), sep, quote);
  }

  lemma LastCellRead(s: Bytes, last: Cell, end: RowEnd, rest: Bytes, sep: byte, quote: byte)
    requires Distinguished(sep, quote) && EndOk(last, end, rest, sep, quote)
    requires s != [] && ParseCell(s, sep, quote) == (last.bytes, EndText(end) + rest)
    ensures ParseCells(s, sep, quote) == ([last.bytes], rest)
  {
    LastEnds(last, end, rest, sep, quote);
    AfterCell(s, last.bytes, EndText(end) + rest, sep, quote);
    hide *;
  }

  // A separator, a single empty cell behind it, and the end of the row.
  lemma EmptyCellRead(s: Bytes, c: Cell, end: RowEnd, rest: Bytes, sep: byte, quote: byte)
    requires Distinguished(sep, quote) && EndOk(Bare([]), end, rest, sep, quote)
    requires s != [] && ParseCell(s, sep, quote)
      == (c.bytes, [sep] + (CellsText([Bare([])], sep, quote) + (EndText(end) + rest)))
    ensures ParseCells(s, sep, quote) == ([c.bytes, []], rest)
  {
    LastEnds(Bare([]), end, rest, sep, quote);
    var line := EndText(end) + rest;
    assert CellsText([Bare([])], sep, quote) + line == line;
    assert end == NoNewline ==> rest == [];
    hide CellsText, EndText, EndOk, ParseCell, ParseCells, SkipNewline;
    var t := [sep] + line;
    assert t[1..] == line && (line != [] ==> t[1] == line[0]);
    AfterCell(s, c.bytes, t, sep, quote);
  }

  lemma NextCellRead(s: Bytes, c: Cell, after: Bytes, sep: byte, quote: byte)
    requires Distinguished(sep, quote) && after != [] && !IsNewline(after[0])
    requires s != [] && ParseCell(s, sep, quote) == (c.bytes, [sep] + after)
    ensures ParseCells(s, sep, quote)
      == ([c.bytes] + ParseCells(after, sep, quote).0, ParseCells(after, sep, quote).1)
  {
    hide ParseCell, ParseCells, SkipNewline;
    var t := [sep] + after;
    assert t[1..] == after && t[1] == after[0];
    AfterCell(s, c.bytes, t, sep, quote);
  }

  lemma MoreOk(cells: seq<Cell>, end: RowEnd, rest: Bytes, sep: byte, quote: byte)
    requires |cells| > 1 && CellsOk(cells, sep, quote) && EndOk(cells[|cells| - 1], end, rest, sep, quote)
    ensures CellsOk(cells[1..], sep, quote)
    ensures EndOk(cells[1..][|cells| - 2], end, rest, sep, quote)
  {
    hide CellOk, EndOk;
  }

  lemma LastEnds(last: Cell, end: RowEnd, rest: Bytes, sep: byte, quote: byte)
    requires Distinguished(sep, quote) && EndOk(last, end, rest, sep, quote)
    ensures var s := EndText(end) + rest;
      if end == NoNewline then s == rest && (rest == [] || (rest[0] != sep && !IsNewline(rest[0])))
      else s != [] && IsNewline(s[0]) && SkipNewline(s) == rest
  {
    if end != NoNewline {
      EndRead(end, rest);
    }
  }

  lemma RowRead(r: Row, rest: Bytes, sep: byte, quote: byte)
    requires Distinguished(sep, quote) && RowOk(r, rest, sep, quote)
    ensures var s := RowText(r, sep, quote) + rest;
      s != [] && ParseRow(s, sep, quote) == (CellsHeld(r.cells), rest)
  {
    hide CellsText, EndText, ParseCells, CellsHeld, CellsOk, EndOk, SkipNewline;
    var s, line := RowText(r, sep, quote) + rest, EndText(r.end) + rest;
    assert s == CellsText(r.cells, sep, quote) + line;
    if r.cells == [] {
      NoCells(sep, quote);
      assert s == line;
      EndRead(r.end, rest);
    } else {
      CellsRead(r.cells, r.end, rest, sep, quote);
      RowStarts(r.cells, r.end, rest, sep, quote);
    }
  }

  lemma NoCells(sep: byte, quote: byte)
    ensures CellsText([], sep, quote) == [] && CellsHeld([]) == []
  {
  }

  // A text is read as what its rows hold.
  lemma {:induction false} DocumentRead(rows: seq<Row>, sep: byte, quote: byte)
    requires Distinguished(sep, quote) && DocumentOk(rows, sep, quote)
    ensures CsvRead(DocumentText(rows, sep, quote), sep, quote) == RowsHeld(rows)
  {
    if rows != [] {
      RowRead(rows[0], DocumentText(rows[1..], sep, quote), sep, quote);
      DocumentRead(rows[1..], sep, quote);
      hide ParseRow, RowText, RowOk, CellsHeld;
      assert RowsHeld(rows) == [CellsHeld(rows[0].cells)] + RowsHeld(rows[1..]);
    }
  }

  // ---- every text is such a text

  lemma {:induction false} QuotedShape(s: Bytes, quote: byte) returns (bytes: Bytes, closed: bool, t: Bytes)
    ensures closed ==> s == DoubleQuotes(bytes, quote) + [quote] + t && (t == [] || t[0] != quote)
    ensures !closed ==> s == DoubleQuotes(bytes, quote)
  {
    if s == [] {
      bytes, closed, t := [], false, [];
    } else if s[0] != quote {
      var more;
      more, closed, t := QuotedShape(s[1..], quote);
      bytes := [s[0]] + more;
      OneMoreQuoted(s[0], more, quote, [s[0]], s[1..], closed, t);
      assert s == [s[0]] + s[1..];
    } else if |s| > 1 && s[1] == quote {
      var more;
      more, closed, t := QuotedShape(s[2..], quote);
      bytes := [quote] + more;
      OneMoreQuoted(quote, more, quote, [quote, quote], s[2..], closed, t);
      assert s == [quote, quote] + s[2..];
    } else {
      bytes, closed, t := [], true, s[1..];
      assert s == [] + [quote] + s[1..];
    }
  }

  lemma OneMoreQuoted(c: byte, more: Bytes, quote: byte, written: Bytes, s: Bytes, closed: bool, t: Bytes)
    requires written == if c == quote then [quote, quote] else [c]
    requires s == if closed then DoubleQuotes(more, quote) + [quote] + t else DoubleQuotes(more, quote)
    ensures written + s
      == if closed then DoubleQuotes([c] + more, quote) + [quote] + t else DoubleQuotes([c] + more, quote)
  {
    assert ([c] + more)[1..] == more;
    var d := DoubleQuotes(more, quote);
    assert DoubleQuotes([c] + more, quote) == written + d;
    hide DoubleQuotes;
    assert written + (d + [quote] + t) == written + d + [quote] + t;
  }

  lemma {:induction false} BareShape(s: Bytes, sep: byte) returns (bytes: Bytes, t: Bytes)
    ensures s == bytes + t && (forall j :: 0 <= j < |bytes| ==> !EndsBare(bytes[j], sep))
    ensures t == [] || EndsBare(t[0], sep)
  {
    if s == [] || EndsBare(s[0], sep) {
      bytes, t := [], s;
      assert [] + s == s;
    } else {
      var more;
      more, t := BareShape(s[1..], sep);
      bytes := [s[0]] + more;
    }
  }

  lemma TakeCell(s: Bytes, sep: byte, quote: byte) returns (c: Cell, t: Bytes)
    requires Distinguished(sep, quote)
    ensures s == CellText(c, quote) + t && CellOk(c, sep, quote) && FollowsCell(c, t, sep, quote)
    ensures s != [] && s[0] == quote ==> !c.Bare?
  {
    if s != [] && s[0] == quote {
      var bytes, closed;
      bytes, closed, t := QuotedShape(s[1..], quote);
      hide DoubleQuotes;
      var d := DoubleQuotes(bytes, quote);
      if closed {
        c := InQuotes(bytes);
        assert s == [quote] + (d + [quote] + t);
        assert [quote] + (d + [quote] + t) == [quote] + d + [quote] + t;
      } else {
        c, t := Unclosed(bytes), [];
        assert s == [quote] + d + [];
      }
    } else {
      var bytes;
      bytes, t := BareShape(s, sep);
      c := Bare(bytes);
    }
  }

  lemma TakeEnd(s: Bytes) returns (end: RowEnd, rest: Bytes)
    ensures s == EndText(end) + rest && (end == Cr && rest != [] ==> rest[0] != LF)
    ensures end == NoNewline <==> s == [] || !IsNewline(s[0])
  {
    if s == [] || !IsNewline(s[0]) {
      end, rest := NoNewline, s;
    } else if s[0] == LF {
      end, rest := Lf, s[1..];
    } else if |s| > 1 && s[1] == LF {
      end, rest := CrLf, s[2..];
    } else {
      end, rest := Cr, s[1..];
    }
  }

  lemma LastCellOk(c: Cell, t: Bytes, end: RowEnd, rest: Bytes, sep: byte, quote: byte)
    requires Distinguished(sep, quote) && CellOk(c, sep, quote) && FollowsCell(c, t, sep, quote)
    requires t == [] || t[0] != sep
    requires t == EndText(end) + rest && (end == Cr && rest != [] ==> rest[0] != LF)
    requires end == NoNewline <==> t == [] || !IsNewline(t[0])
    ensures CellsOk([c], sep, quote) && EndOk(c, end, rest, sep, quote)
  {
  }

  // The cells of a row, from a place where a cell starts.
  lemma {:induction false} TakeCells(s: Bytes, sep: byte, quote: byte) returns (cells: seq<Cell>, end: RowEnd, rest: Bytes)
    requires Distinguished(sep, quote)
    ensures cells != [] && s == CellsText(cells, sep, quote) + (EndText(end) + rest)
    ensures CellsOk(cells, sep, quote) && EndOk(cells[|cells| - 1], end, rest, sep, quote)
    decreases |s|
  {
    hide *;
    var c, t := TakeCell(s, sep, quote);
    if t != [] && t[0] == sep {
      var more;
      more, end, rest := TakeCells(t[1..], sep, quote);
      cells := [c] + more;
      OneMoreCell(c, more, sep, quote, t);
      assert t == [sep] + t[1..];
      assert cells[|cells| - 1] == more[|more| - 1];
    } else {
      end, rest := TakeEnd(t);
      cells := [c];
      LastCellOk(c, t, end, rest, sep, quote);
    }
    CellsPut(cells, end, rest, sep, quote);
  }

  lemma CellsPut(cells: seq<Cell>, end: RowEnd, rest: Bytes, sep: byte, quote: byte)
    requires cells != []
    ensures CellsText(cells, sep, quote) + (EndText(end) + rest) == CellText(cells[0], quote)
      + if |cells| > 1 then [sep] + (CellsText(cells[1..], sep, quote) + (EndText(end) + rest)) else EndText(end) + rest
  {
    CellsApart(cells, end, rest, sep, quote);
    hide CellsText, CellText, EndText;
  }

  lemma OneMoreCell(c: Cell, more: seq<Cell>, sep: byte, quote: byte, t: Bytes)
    requires Distinguished(sep, quote) && CellOk(c, sep, quote) && CellsOk(more, sep, quote) && more != []
    requires FollowsCell(c, t, sep, quote) && t != [] && t[0] == sep
    ensures CellsOk([c] + more, sep, quote) && ([c] + more)[1..] == more
  {
    hide CellOk;
    var cells := [c] + more;
    assert forall k :: 0 < k < |cells| ==> cells[k] == more[k - 1];
  }

  lemma TakeRow(s: Bytes, sep: byte, quote: byte) returns (r: Row, rest: Bytes)
    requires Distinguished(sep, quote) && s != []
    ensures s == RowText(r, sep, quote) + rest && RowOk(r, rest, sep, quote) && |rest| < |s|
  {
    if IsNewline(s[0]) {
      var end;
      end, rest := TakeEnd(s);
      r := Row([], end);
      NoCells(sep, quote);
      assert [] + EndText(end) == EndText(end);
    } else {
      var cells, end;
      cells, end, rest := TakeCells(s, sep, quote);
      r := Row(cells, end);
      RowStarts(cells, end, rest, sep, quote);
      assert cells != [Bare([])];
      hide CellsText, EndText, CellsOk, EndOk;
      Associates(CellsText(cells, sep, quote), EndText(end), rest);
    }
    RowRead(r, rest, sep, quote);
    hide *;
    ShorterAfterRow(s, sep, quote);
  }

  lemma ShorterAfterRow(s: Bytes, sep: byte, quote: byte)
    requires s != []
    ensures |ParseRow(s, sep, quote).1| < |s|
  {
  }

  // Every text is one that rows stand in, so DocumentRead says what csv-read makes of any text.
  lemma {:induction false} EveryTextIsADocument(s: Bytes, sep: byte, quote: byte) returns (rows: seq<Row>)
    requires Distinguished(sep, quote)
    ensures DocumentOk(rows, sep, quote) && DocumentText(rows, sep, quote) == s
    decreases |s|
  {
    if s == [] {
      rows := [];
    } else {
      var r, rest := TakeRow(s, sep, quote);
      hide RowOk, RowText, Distinguished;
      var more := EveryTextIsADocument(rest, sep, quote);
      rows := [r] + more;
      assert rows[1..] == more;
    }
  }

  // ---- newlines

  function Unix(r: Row): Row {
    if r.end == NoNewline then r else r.(end := Lf)
  }

  function AllUnix(rows: seq<Row>): (r: seq<Row>)
    ensures |r| == |rows| && forall i :: 0 <= i < |r| ==> r[i] == Unix(rows[i])
  {
    seq(|rows|, i requires 0 <= i < |rows| => Unix(rows[i]))
  }

  lemma AllUnixParts(rows: seq<Row>)
    requires rows != []
    ensures AllUnix(rows) == [Unix(rows[0])] + AllUnix(rows[1..]) && AllUnix(rows)[1..] == AllUnix(rows[1..])
  {
  }

  // The two texts start alike, or both with a newline.
  predicate StartAlike(s: Bytes, t: Bytes) {
    if s == [] then t == [] else t != [] && (s[0] == t[0] || (IsNewline(s[0]) && t[0] == LF))
  }

  lemma RowStartsAlike(r: Row, rest: Bytes, rest': Bytes, sep: byte, quote: byte)
    requires Distinguished(sep, quote) && RowOk(r, rest, sep, quote) && StartAlike(rest, rest')
    ensures RowOk(Unix(r), rest', sep, quote)
    ensures StartAlike(RowText(r, sep, quote) + rest, RowText(Unix(r), sep, quote) + rest')
  {
    var cells, s := r.cells, CellsText(r.cells, sep, quote);
    RowRead(r, rest, sep, quote);
    assert s == [] || (s + EndText(r.end) + rest)[0] == (s + EndText(Unix(r).end) + rest')[0];
    hide CellsText, CellsHeld, ParseRow, CellsOk, Distinguished;
  }

  // A text with carriage returns, or with pairs of a carriage return and a line feed, at the ends of its rows reads as
  // the one with line feeds.
  lemma {:induction false} NewlinesAreAlike(rows: seq<Row>, sep: byte, quote: byte)
    requires Distinguished(sep, quote) && DocumentOk(rows, sep, quote)
    ensures DocumentOk(AllUnix(rows), sep, quote)
    ensures StartAlike(DocumentText(rows, sep, quote), DocumentText(AllUnix(rows), sep, quote))
    ensures CsvRead(DocumentText(rows, sep, quote), sep, quote)
      == CsvRead(DocumentText(AllUnix(rows), sep, quote), sep, quote)
  {
    if rows != [] {
      NewlinesAreAlike(rows[1..], sep, quote);
      AllUnixParts(rows);
      RowStartsAlike(rows[0], DocumentText(rows[1..], sep, quote), DocumentText(AllUnix(rows[1..]), sep, quote),
                     sep, quote);
    }
    hide RowOk, RowText, Distinguished, StartAlike, CsvRead;
    DocumentRead(rows, sep, quote);
    DocumentRead(AllUnix(rows), sep, quote);
    assert RowsHeld(rows) == RowsHeld(AllUnix(rows));
  }

  // The bytes that the texts above are written with.
  lemma Punctuation()
    ensures [QUOTE] == Ascii("\"") && [LF] == Ascii("\n") && [CR] == Ascii("\r")
    ensures TRUE_TEXT == Ascii("true") && FALSE_TEXT == Ascii("false")
  {
  }
}
