/** The row parser and the row writer of icecreme/csv.c as they run: a source read byte by byte with one byte of
    look-ahead, and an output buffer that is only appended to. */
module CsvCodec {
  import opened Util
  import opened Decimal
  import opened SchemeValue
  import opened Csv

  // What is read, put after what was read before.
  ghost function Onto<T>(done: seq<T>, r: (seq<T>, Bytes)): (seq<T>, Bytes) {
    (done + r.0, r.1)
  }

  lemma OntoNothing<T>(r: (seq<T>, Bytes))
    ensures Onto([], r) == r
  {
    assert [] + r.0 == r.0;
  }

  lemma OntoTwice<T>(a: seq<T>, b: seq<T>, r: (seq<T>, Bytes))
    ensures Onto(a, Onto(b, r)) == Onto(a + b, r)
  {
    assert a + (b + r.0) == a + b + r.0;
  }

  class BufSrc {
    const buf: Bytes
    var pos: nat

    ghost predicate Valid()
      reads this
    {
      pos <= |buf|
    }

    ghost function Rest(): Bytes
      requires Valid()
      reads this
    {
      buf[pos..]
    }

    constructor (buf: Bytes)
      ensures Valid() && this.buf == buf && Rest() == buf
    {
      this.buf := buf;
      pos := 0;
    }

    method Peek() returns (c: Option<byte>)
      requires Valid()
      ensures c == if Rest() == [] then None else Some(Rest()[0])
    {
      c := if pos < |buf| then Some(buf[pos]) else None;
    }

    method Next() returns (c: Option<byte>)
      requires Valid()
      modifies this
      ensures Valid() && c == if old(Rest()) == [] then None else Some(old(Rest())[0])
      ensures Rest() == if old(Rest()) == [] then [] else old(Rest())[1..]
      ensures pos >= old(pos) && (c.Some? ==> pos == old(pos) + 1)
    {
      if pos >= |buf| {
        return None;
      }
      c := Some(buf[pos]);
      pos := pos + 1;
    }

    // After a carriage return or a line feed was seen.
    method TakeNewline()
      requires Valid() && Rest() != []
      modifies this
      ensures Valid() && pos > old(pos) && Rest() == SkipNewline(old(Rest()))
    {
      var c := Next();
      var after := Peek();
      if c == Some(CR) && after == Some(LF) {
        var lf := Next();
      }
    }

    method QuotedCell(quote: byte) returns (cell: Bytes)
      requires Valid()
      modifies this
      ensures Valid() && pos >= old(pos) && (cell, Rest()) == ParseQuoted(old(Rest()), quote)
    {
      cell := [];
      OntoNothing(ParseQuoted(Rest(), quote));
      while true
        invariant Valid() && pos >= old(pos)
        invariant ParseQuoted(old(Rest()), quote) == Onto(cell, ParseQuoted(Rest(), quote))
        decreases |buf| - pos
      {
        ghost var here := Rest();
        var ch := Next();
        if ch.None? {
          assert here == [] && cell + [] == cell;
          return;
        }
        if ch.value == quote {
          var after := Peek();
          if after == Some(quote) {
            var second := Next();
            assert Rest() == here[2..];
            OntoTwice(cell, [quote], ParseQuoted(Rest(), quote));
            cell := cell + [quote];
          } else {
            assert cell + [] == cell;
            return;
          }
        } else {
          OntoTwice(cell, [ch.value], ParseQuoted(Rest(), quote));
          cell := cell + [ch.value];
        }
      }
    }

    method BareCell(sep: byte) returns (cell: Bytes)
      requires Valid()
      modifies this
      ensures Valid() && pos >= old(pos) && (cell, Rest()) == ParseBare(old(Rest()), sep)
    {
      cell := [];
      OntoNothing(ParseBare(Rest(), sep));
      while true
        invariant Valid() && pos >= old(pos)
        invariant ParseBare(old(Rest()), sep) == Onto(cell, ParseBare(Rest(), sep))
        decreases |buf| - pos
      {
        var pk := Peek();
        if pk.None? || EndsBare(pk.value, sep) {
          assert cell + [] == cell;
          return;
        }
        var ch := Next();
        OntoTwice(cell, [pk.value], ParseBare(Rest(), sep));
        cell := cell + [pk.value];
      }
    }

    method Cell(sep: byte, quote: byte) returns (cell: Bytes)
      requires Valid() && Rest() != []
      modifies this
      ensures Valid() && pos >= old(pos) && (cell, Rest()) == ParseCell(old(Rest()), sep, quote)
    {
      var cc := Peek();
      if cc == Some(quote) {
        var open := Next();
        cell := QuotedCell(quote);
      } else {
        cell := BareCell(sep);
      }
    }

    // csv_parse_row on a source that is not at its end.
    method Row(sep: byte, quote: byte) returns (cells: seq<Bytes>)
      requires Valid() && Rest() != []
      modifies this
      ensures Valid() && (cells, Rest()) == ParseRow(old(Rest()), sep, quote) && pos > old(pos)
    {
      hide ParseCell;
      cells := [];
      var c := Peek();
      if IsNewline(c.value) {
        TakeNewline();
        return;
      }
      ghost var start := Rest();
      OntoNothing(ParseCells(start, sep, quote));
      while true
        invariant Valid() && pos >= old(pos) && Rest() != [] && !IsNewline(Rest()[0])
        invariant ParseCells(start, sep, quote) == Onto(cells, ParseCells(Rest(), sep, quote))
        decreases |buf| - pos
      {
        ghost var here := Rest();
        ghost var before := cells;
        var cell := Cell(sep, quote);
        cells := cells + [cell];
        var term := Peek();
        if term == Some(sep) {
          var taken := Next();
          var after := Peek();
          if after.None? || IsNewline(after.value) {
            cells := cells + [[]];
            if after.Some? {
              TakeNewline();
            }
            assert cells == before + [cell, []];
            return;
          }
          OntoTwice(before, [cell], ParseCells(Rest(), sep, quote));
        } else {
          if term.Some? && IsNewline(term.value) {
            TakeNewline();
          }
          return;
        }
      }
    }

    // bi_csv_read
    method Read(sep: byte, quote: byte) returns (rows: seq<seq<Bytes>>)
      requires Valid() && pos == 0
      modifies this
      ensures rows == CsvRead(buf, sep, quote)
    {
      hide ParseRow;
      rows := [];
      assert Rest() == buf;
      while pos < |buf|
        invariant Valid() && rows + CsvRead(Rest(), sep, quote) == CsvRead(buf, sep, quote)
        decreases |buf| - pos
      {
        var row := Row(sep, quote);
        rows := rows + [row];
      }
    }
  }

  // What is still to be written of a row.
  ghost function Still(rest: seq<Value>, later: bool, sep: byte, mode: Quoting): Bytes
    requires AllCanWrite(rest)
  {
    if later && rest != [] then [sep] + WriteRow(rest, sep, mode) else WriteRow(rest, sep, mode)
  }

  lemma RowStep(rest: seq<Value>, sep: byte, mode: Quoting)
    requires AllCanWrite(rest) && rest != []
    ensures WriteRow(rest, sep, mode) == WriteCell(rest[0], sep, mode) + Still(rest[1..], true, sep, mode)
  {
    hide WriteCell;
    var cell, more := WriteCell(rest[0], sep, mode), WriteRow(rest[1..], sep, mode);
    assert WriteRow(rest, sep, mode) == cell + (if |rest| > 1 then [sep] else []) + more;
    assert |rest| > 1 <==> rest[1..] != [];
    hide WriteRow;
    Gap(cell, sep, more);
  }

  lemma Gap(cell: Bytes, sep: byte, more: Bytes)
    ensures cell + [sep] + more == cell + ([sep] + more) && cell + [] + more == cell + more
  {
  }

  lemma Apart(out: Bytes, sep: byte, cell: Bytes, more: Bytes)
    ensures out + ([sep] + (cell + more)) == out + [sep] + cell + more
    ensures out + (cell + more) == out + cell + more
  {
  }

  lemma StillStep(rest: seq<Value>, later: bool, sep: byte, mode: Quoting, out: Bytes)
    requires AllCanWrite(rest) && rest != []
    ensures out + Still(rest, later, sep, mode)
      == (if later then out + [sep] else out) + WriteCell(rest[0], sep, mode) + Still(rest[1..], true, sep, mode)
  {
    RowStep(rest, sep, mode);
    assert Still(rest, later, sep, mode)
      == if later then [sep] + WriteRow(rest, sep, mode) else WriteRow(rest, sep, mode);
    hide *;
    Apart(out, sep, WriteCell(rest[0], sep, mode), Still(rest[1..], true, sep, mode));
  }

  lemma StillEnd(rest: seq<Value>, later: bool, sep: byte, mode: Quoting)
    requires rest == []
    ensures Still(rest, later, sep, mode) == [LF]
  {
  }

  class DynBuf {
    var out: Bytes

    constructor ()
      ensures out == []
    {
      out := [];
    }

    method Append(bytes: Bytes)
      modifies this
      ensures out == old(out) + bytes
    {
      out := out + bytes;
    }

    method AppendQuoted(bytes: Bytes)
      modifies this
      ensures out == old(out) + [QUOTE] + DoubleQuotes(bytes, QUOTE) + [QUOTE]
    {
      out := out + [QUOTE];
      ghost var afterQuote := out;
      var j := 0;
      while j < |bytes|
        invariant j <= |bytes| && out + DoubleQuotes(bytes[j..], QUOTE) == afterQuote + DoubleQuotes(bytes, QUOTE)
      {
        assert bytes[j..][1..] == bytes[j + 1..];
        if bytes[j] == QUOTE {
          out := out + [QUOTE];
        }
        out := out + [bytes[j]];
        j := j + 1;
      }
      assert out == afterQuote + DoubleQuotes(bytes, QUOTE);
      out := out + [QUOTE];
    }

    // csv_write_row
    method Row(cells: seq<Value>, sep: byte, mode: Quoting)
      requires AllCanWrite(cells)
      modifies this
      ensures out == old(out) + WriteRow(cells, sep, mode)
    {
      hide WriteCell, WriteRow;
      var i := 0;
      assert cells[0..] == cells;
      while i < |cells|
        invariant i <= |cells|
        invariant out + Still(cells[i..], i > 0, sep, mode) == old(out) + WriteRow(cells, sep, mode)
      {
        StillStep(cells[i..], i > 0, sep, mode, out);
        assert cells[i..][1..] == cells[i + 1..] && cells[i..][0] == cells[i];
        if i > 0 {
          out := out + [sep];
        }
        Cell(cells[i], sep, mode);
        i := i + 1;
      }
      StillEnd(cells[i..], i > 0, sep, mode);
      out := out + [LF];
    }

    method Cell(v: Value, sep: byte, mode: Quoting)
      requires CanWrite(v)
      modifies this
      ensures out == old(out) + WriteCell(v, sep, mode)
    {
      var bytes := CellBytes(v);
      if Quoted(v, sep, mode) {
        AppendQuoted(bytes);
      } else {
        Append(bytes);
      }
    }

    // bi_csv_write, its rows already taken from their lists or vectors
    method Write(rows: seq<seq<Value>>, sep: byte, mode: Quoting)
      requires RowsCanWrite(rows)
      modifies this
      ensures out == old(out) + CsvWrite(rows, sep, mode)
    {
      hide WriteRow;
      var i := 0;
      while i < |rows|
        invariant i <= |rows| && out + CsvWrite(rows[i..], sep, mode) == old(out) + CsvWrite(rows, sep, mode)
      {
        assert rows[i..][1..] == rows[i + 1..];
        Row(rows[i], sep, mode);
        i := i + 1;
      }
    }
  }
}
