/** The reader and the writer of icecreme/json.c as they run: a cursor with a depth count, and an output buffer
    that is only appended to. */
module JsonCodec {
  import opened Util
  import opened Decimal
  import opened SchemeValue
  import opened TextReading
  import J = Json

  // The number that hex digits stand for, most significant first.
  ghost function HexNumber(s: seq<byte>): Option<nat> {
    if s == [] then Some(0)
    else
      match (HexNumber(s[..|s| - 1]), J.HexValue(s[|s| - 1]))
      case (Some(n), Some(d)) => Some(n * 16 + d)
      case _ => None
  }

  ghost function Power16(k: nat): nat {
    if k == 0 then 1 else 16 * Power16(k - 1)
  }

  lemma {:induction false} NotHex(s: seq<byte>, k: nat)
    requires k < |s| && J.HexValue(s[k]).None?
    ensures HexNumber(s).None?
  {
    if k < |s| - 1 {
      NotHex(s[..|s| - 1], k);
    }
  }

  lemma NextHexDigit(s: seq<byte>, k: nat)
    requires k < |s|
    ensures HexNumber(s[..k + 1]) == match (HexNumber(s[..k]), J.HexValue(s[k])) {
      case (Some(n), Some(d)) => Some(n * 16 + d)
      case _ => None
    }
  {
    assert s[..k + 1][..k] == s[..k];
    hide J.HexValue;
  }

  lemma FourHexDigits(four: seq<byte>, s: seq<byte>)
    requires |four| == 4 && |s| >= 4 && forall k :: 0 <= k < 4 ==> four[k] == s[k]
    ensures HexNumber(four) == J.CodePoint(s)
    ensures Power16(4) == 0x10000
  {
    hide J.HexValue;
    assert four[..3][..2] == four[..2] && four[..2][..1] == four[..1] && four[..1][..0] == [];
    assert HexNumber([]) == Some(0);
    assert HexNumber(four[..1]) == J.HexValue(s[0]);
    assert HexNumber(four[..2])
      == if J.HexValue(s[0]).Some? && J.HexValue(s[1]).Some?
         then Some(J.HexValue(s[0]).value * 16 + J.HexValue(s[1]).value) else None;
    assert HexNumber(four[..3])
      == if J.HexValue(s[0]).Some? && J.HexValue(s[1]).Some? && J.HexValue(s[2]).Some?
         then Some((J.HexValue(s[0]).value * 16 + J.HexValue(s[1]).value) * 16 + J.HexValue(s[2]).value) else None;
    assert Power16(2) == 256 && Power16(3) == 16 * Power16(2);
  }

  method PutUtf8(cp: nat) returns (r: seq<byte>)
    requires cp < 0x10000
    ensures r == J.Utf8(cp)
  {
    if cp < 0x80 {
      return [cp];
    } else if cp < 0x800 {
      return [0xC0 + cp / 64, 0x80 + cp % 64];
    }
    return [0xE0 + cp / 4096, 0x80 + cp / 64 % 64, 0x80 + cp % 64];
  }

  class JReader {
    const s: seq<byte>
    var pos: nat
    var depth: nat

    ghost predicate Valid()
      reads this
    {
      pos <= |s|
    }

    ghost function Rest(): seq<byte>
      requires Valid()
      reads this
    {
      s[pos..]
    }

    // Left by a read that computes `want`: its value and the text after it, or an abort.
    ghost predicate Does<T>(want: Result<(T, seq<byte>)>, got: Result<T>)
      requires Valid()
      reads this
    {
      match want
      case Abort => got.Abort?
      case Ok((v, rest)) => got == Ok(v) && Rest() == rest
    }

    constructor (s: seq<byte>)
      ensures Valid() && this.s == s && Rest() == s && depth == 0
    {
      this.s := s;
      pos, depth := 0, 0;
    }

    method SkipWs()
      requires Valid()
      modifies this`pos
      ensures Valid() && pos >= old(pos) && Rest() == J.SkipWs(old(Rest()))
    {
      while pos < |s| && J.IsSpace(s[pos])
        invariant Valid() && pos >= old(pos) && J.SkipWs(Rest()) == J.SkipWs(old(Rest()))
      {
        assert Rest()[1..] == s[pos + 1..];
        pos := pos + 1;
      }
    }

    // One escape sequence, from its backslash on.
    method ParseEscape() returns (r: Result<seq<byte>>)
      requires Valid() && pos < |s|
      modifies this`pos
      ensures Valid() && pos > old(pos)
      ensures match J.Unescape(s[old(pos) + 1..])
        case Abort => r.Abort?
        case Ok((bytes, n)) => r == Ok(bytes) && Rest() == old(Rest())[1 + n..]
    {
      hide J.CodePoint, J.Utf8;
      pos := pos + 1;
      ghost var here := s[pos..];
      if pos >= |s| {
        return Abort;
      }
      var e := s[pos];
      pos := pos + 1;
      match e {
        case 34 => r := Ok([J.QUOTE]);
        case 92 => r := Ok([J.BACKSLASH]);
        case 47 => r := Ok([47]);
        case 110 => r := Ok([10]);
        case 116 => r := Ok([9]);
        case 114 => r := Ok([13]);
        case 98 => r := Ok([8]);
        case 102 => r := Ok([12]);
        case 117 =>
          assert s[pos..] == here[1..];
          r := ParseCodePoint();
        case _ => r := Abort;
      }
      assert Rest() == old(Rest())[pos - old(pos)..];
    }

    // The loop over the four hex digits.
    method HexDigits(from: nat) returns (cp: Option<nat>)
      requires from + 4 <= |s|
      ensures cp == HexNumber(s[from..from + 4]) && (cp.Some? ==> cp.value < Power16(4))
    {
      ghost var four := s[from..from + 4];
      var n := 0;
      for k := 0 to 4
        invariant HexNumber(four[..k]) == Some(n) && n < Power16(k)
      {
        var h := s[from + k];
        NextHexDigit(four, k);
        hide HexNumber;
        var d := 0;
        if 48 <= h <= 57 {
          d := h - 48;
        } else if 97 <= h <= 102 {
          d := h - 97 + 10;
        } else if 65 <= h <= 70 {
          d := h - 65 + 10;
        } else {
          NotHex(four, k);
          return None;
        }
        n := n * 16 + d;
      }
      assert four[..4] == four;
      return Some(n);
    }

    // The four hex digits of a code point, and the code point in UTF-8.
    method ParseCodePoint() returns (r: Result<seq<byte>>)
      requires Valid()
      modifies this`pos
      ensures Valid() && pos >= old(pos)
      ensures if |old(Rest())| < 4 then r.Abort?
        else match J.CodePoint(old(Rest()))
          case None => r.Abort?
          case Some(cp) => cp < 0x10000 && r == Ok(J.Utf8(cp)) && pos == old(pos) + 4
    {
      hide J.CodePoint, J.Utf8, HexNumber, Power16;
      if pos + 4 > |s| {
        return Abort;
      }
      var digits := HexDigits(pos);
      FourHexDigits(s[pos..pos + 4], s[pos..]);
      if digits.None? {
        return Abort;
      }
      pos := pos + 4;
      var bytes := PutUtf8(digits.value);
      return Ok(bytes);
    }

    // The bytes up to the closing quote or the end of the text.
    method ParseBytes() returns (r: Result<seq<byte>>)
      requires Valid()
      modifies this`pos
      ensures Valid() && pos >= old(pos) && (r.Ok? && pos < |s| ==> s[pos] == J.QUOTE)
      ensures r.Abort? ==> J.ParseChars(old(Rest())).Abort?
      ensures r.Ok? ==> J.ParseChars(old(Rest())) == After(r.value, J.ParseChars(Rest()))
    {
      hide J.ParseChars, J.Unescape, After;
      var b: seq<byte> := [];
      ghost var start := Rest();
      AfterNothing(J.ParseChars(start));
      while pos < |s| && s[pos] != J.QUOTE
        invariant old(pos) <= pos <= |s| && J.ParseChars(start) == After(b, J.ParseChars(Rest()))
        decreases |s| - pos
      {
        ghost var here := Rest();
        J.CharsStep(here);
        AfterEnd(b, J.ParseChars(here));
        if s[pos] == J.BACKSLASH {
          assert here[1..] == s[pos + 1..];
          var bytes := ParseEscape();
          if bytes.Abort? {
            return Abort;
          }
          AfterTwice(b, bytes.value, J.ParseChars(Rest()));
          b := b + bytes.value;
        } else {
          AfterTwice(b, [s[pos]], J.ParseChars(here[1..]));
          b := b + [s[pos]];
          pos := pos + 1;
          assert Rest() == here[1..];
        }
      }
      return Ok(b);
    }

    method ParseString() returns (r: Result<seq<byte>>)
      requires Valid() && pos < |s|
      modifies this`pos
      ensures Valid() && pos > old(pos)
      ensures Does(J.ParseChars(s[old(pos) + 1..]), r)
    {
      hide J.ParseChars;
      pos := pos + 1;
      var b := ParseBytes();
      if b.Abort? {
        return Abort;
      }
      J.CharsStep(Rest());
      AfterEnd(b.value, J.ParseChars(Rest()));
      if pos >= |s| {
        return Abort;
      }
      assert Rest()[1..] == s[pos + 1..];
      pos := pos + 1;
      return b;
    }

    method SkipDigits()
      requires Valid()
      modifies this`pos
      ensures Valid() && pos == old(pos) + CountDigits(old(Rest()))
    {
      while pos < |s| && IsDigit(s[pos])
        invariant Valid() && pos + CountDigits(Rest()) == old(pos) + CountDigits(old(Rest()))
      {
        assert Rest()[1..] == s[pos + 1..];
        pos := pos + 1;
      }
    }

    // The scan of a number token, part by part.
    method SkipInteger()
      requires Valid()
      modifies this`pos
      ensures Valid() && pos == old(pos) + J.IntegerLength(old(Rest()))
    {
      if pos < |s| && s[pos] == MINUS {
        assert Rest()[1..] == s[pos + 1..];
        pos := pos + 1;
      }
      SkipDigits();
    }

    method SkipFraction()
      requires Valid()
      modifies this`pos
      ensures Valid() && pos == old(pos) + J.FractionLength(old(Rest()))
    {
      if pos < |s| && s[pos] == J.DOT {
        assert Rest()[1..] == s[pos + 1..];
        pos := pos + 1;
        SkipDigits();
      }
    }

    method SkipExponent()
      requires Valid()
      modifies this`pos
      ensures Valid() && pos == old(pos) + J.ExponentLength(old(Rest()))
    {
      if pos < |s| && (s[pos] == 101 || s[pos] == 69) {
        assert Rest()[1..] == s[pos + 1..];
        pos := pos + 1;
        if pos < |s| && (s[pos] == 43 || s[pos] == MINUS) {
          assert Rest()[1..] == s[pos + 1..] && old(Rest())[2..] == s[pos + 1..];
          pos := pos + 1;
        }
        SkipDigits();
      }
    }

    method ScanNumber() returns (isFloat: bool)
      requires Valid()
      modifies this`pos
      ensures Valid() && (pos - old(pos), isFloat) == J.NumberLength(old(Rest())) && pos >= old(pos)
    {
      hide J.IntegerLength, J.FractionLength, J.ExponentLength;
      SkipInteger();
      var n := pos;
      assert Rest() == old(Rest())[n - old(pos)..];
      SkipFraction();
      assert Rest() == old(Rest())[pos - old(pos)..];
      SkipExponent();
      isFloat := pos > n;
    }

    method ParseNumber() returns (r: Result<Value>)
      requires Valid()
      modifies this`pos
      ensures Valid() && Does(J.ParseNumber(old(Rest())), r) && pos >= old(pos)
    {
      var start := pos;
      var isFloat := ScanNumber();
      var token := s[start..pos];
      assert token == old(Rest())[..pos - start] && Rest() == old(Rest())[pos - start..];
      if |token| == 0 || token == [MINUS] {
        return Abort;
      }
      if isFloat {
        return Ok(Float(token));
      }
      var n := ParseInteger(token);
      match n
      case None => return Abort;
      case Some(i) =>
        if -0x8000_0000_0000_0000 <= i < 0x8000_0000_0000_0000 {
          return Ok(Int(i));
        }
        return Abort;
    }

    method ParseValue() returns (r: Result<Value>)
      requires Valid()
      modifies this`pos, this`depth
      ensures Valid() && pos >= old(pos) && Does(J.Parse(old(Rest()), old(depth)), r)
      ensures r.Ok? ==> depth == old(depth)
      decreases |s| - pos, 1
    {
      hide J.Parse, J.SkipWs, J.Scalar;
      J.ValueStep(Rest(), depth);
      depth := depth + 1;
      if depth > J.JSON_MAX_DEPTH {
        return Abort;
      }
      SkipWs();
      if pos >= |s| {
        return Abort;
      }
      assert Rest()[0] == s[pos];
      if s[pos] == J.OPEN_BRACE {
        r := ParseObject();
      } else if s[pos] == J.OPEN_BRACKET {
        r := ParseArray();
      } else {
        r := ParseScalar();
      }
      depth := if r.Ok? then depth - 1 else depth;
    }

    // The other cases of the switch.
    method ParseScalar() returns (r: Result<Value>)
      requires Valid() && pos < |s|
      modifies this`pos
      ensures Valid() && pos >= old(pos) && Does(J.Scalar(old(Rest())), r)
    {
      hide J.ParseNumber, J.ParseChars, J.StartsWith;
      var c := s[pos];
      assert Rest()[0] == c && Rest()[1..] == s[pos + 1..];
      if c == J.QUOTE {
        var t := ParseString();
        r := match t case Abort => Abort case Ok(bytes) => Ok(Str(bytes));
      } else if c == 116 {
        r := ParseWord(J.TRUE_TEXT, Bool(true));
      } else if c == 102 {
        r := ParseWord(J.FALSE_TEXT, Bool(false));
      } else if c == 110 {
        r := ParseWord(J.NULL_TEXT, Nil);
      } else if c == MINUS || IsDigit(c) {
        r := ParseNumber();
      } else {
        r := Abort;
      }
    }

    method ParseWord(word: seq<byte>, v: Value) returns (r: Result<Value>)
      requires Valid()
      modifies this`pos
      ensures Valid() && pos >= old(pos) && r == (if J.StartsWith(old(Rest()), word) then Ok(v) else Abort)
      ensures r.Ok? ==> Rest() == old(Rest())[|word|..]
    {
      if pos + |word| > |s| || s[pos..pos + |word|] != word {
        return Abort;
      }
      assert Rest()[..|word|] == s[pos..pos + |word|];
      pos := pos + |word|;
      return Ok(v);
    }

    method ParseArray() returns (r: Result<Value>)
      requires Valid() && pos < |s| && s[pos] == J.OPEN_BRACKET && 0 < depth <= J.JSON_MAX_DEPTH
      modifies this`pos, this`depth
      ensures Valid() && pos >= old(pos) && Does(J.Parse(old(Rest()), old(depth) - 1), r)
      ensures r.Ok? ==> depth == old(depth)
      decreases |s| - pos, 0
    {
      hide J.Parse, J.ParseItems, J.SkipWs;
      J.ArrayStep(Rest(), depth - 1);
      assert Rest()[1..] == s[pos + 1..];
      pos := pos + 1;
      ghost var start := Rest();
      SkipWs();
      if pos < |s| && s[pos] == J.CLOSE_BRACKET {
        assert Rest()[1..] == s[pos + 1..];
        pos := pos + 1;
        return Ok(Vector([]));
      }
      J.SkipTwice(start);
      var items := ParseArrayItems();
      r := match items case Abort => Abort case Ok(vs) => Ok(Vector(vs));
    }

    method ParseArrayItems() returns (r: Result<seq<Value>>)
      requires Valid() && depth <= J.JSON_MAX_DEPTH
      modifies this`pos, this`depth
      ensures Valid() && pos >= old(pos) && Does(J.ParseItems(old(Rest()), old(depth)), r)
      ensures r.Ok? ==> depth == old(depth)
      decreases |s| - pos, 2
    {
      hide J.Parse, J.ParseItems, J.SkipWs, After;
      ghost var start := Rest();
      var items: seq<Value> := [];
      AfterNothing(J.ParseItems(start, depth));
      while true
        invariant Valid() && pos >= old(pos) && depth == old(depth)
        invariant J.ParseItems(start, old(depth)) == After(items, J.ParseItems(Rest(), old(depth)))
        decreases |s| - pos
      {
        AfterEnd(items, J.ParseItems(Rest(), depth));
        var v, more := ParseItem();
        if v.Abort? {
          return Abort;
        }
        AfterTwice(items, [v.value], J.ParseItems(Rest(), depth));
        items := items + [v.value];
        if !more {
          return Ok(items);
        }
      }
    }

    // One element, and the comma or the bracket after it.
    method ParseItem() returns (v: Result<Value>, more: bool)
      requires Valid() && depth <= J.JSON_MAX_DEPTH
      modifies this`pos, this`depth
      ensures Valid() && pos >= old(pos) && (v.Ok? ==> pos > old(pos) && depth == old(depth))
      ensures v.Abort? ==> J.ParseItems(old(Rest()), old(depth)).Abort?
      ensures v.Ok? ==>
        J.ParseItems(old(Rest()), old(depth))
        == if more then After([v.value], J.ParseItems(Rest(), old(depth))) else Ok(([v.value], Rest()))
      decreases |s| - pos, 2, 0
    {
      hide J.Parse, J.ParseItems, J.SkipWs, After;
      more := false;
      ghost var here := Rest();
      SkipWs();
      v := ParseValue();
      J.ItemsStep(here, old(depth), Rest(), if v.Ok? then v.value else Nil);
      if v.Abort? {
        return;
      }
      SkipWs();
      if pos < |s| && (s[pos] == J.COMMA || s[pos] == J.CLOSE_BRACKET) {
        assert Rest()[1..] == s[pos + 1..];
        more := s[pos] == J.COMMA;
        pos := pos + 1;
      } else {
        v := Abort;
      }
    }

    method ParseObject() returns (r: Result<Value>)
      requires Valid() && pos < |s| && s[pos] == J.OPEN_BRACE && 0 < depth <= J.JSON_MAX_DEPTH
      modifies this`pos, this`depth
      ensures Valid() && pos >= old(pos) && Does(J.Parse(old(Rest()), old(depth) - 1), r)
      ensures r.Ok? ==> depth == old(depth)
      decreases |s| - pos, 0
    {
      hide J.Parse, J.ParseEntries, J.SkipWs;
      J.ObjectStep(Rest(), depth - 1);
      assert Rest()[1..] == s[pos + 1..];
      pos := pos + 1;
      ghost var start := Rest();
      SkipWs();
      if pos < |s| && s[pos] == J.CLOSE_BRACE {
        assert Rest()[1..] == s[pos + 1..];
        pos := pos + 1;
        return Ok(Nil);
      }
      J.SkipTwice(start);
      var entries := ParseObjectEntries();
      match entries
      case Abort => return Abort;
      case Ok(es) =>
        var result := Nil;
        var i := |es|;
        while i > 0
          invariant 0 <= i <= |es| && result == Prepend(es[i..], Nil)
        {
          i := i - 1;
          assert es[i..][0] == es[i] && es[i..][1..] == es[i + 1..];
          result := Pair(es[i], result);
        }
        assert es[0..] == es;
        return Ok(result);
    }

    // A key, its colon and its value.
    method ParseEntry() returns (r: Result<Value>)
      requires Valid() && depth <= J.JSON_MAX_DEPTH
      modifies this`pos, this`depth
      ensures Valid() && pos >= old(pos) && Does(J.EntryOf(old(Rest()), old(depth)), r)
      ensures r.Ok? ==> depth == old(depth) && pos > old(pos)
      decreases |s| - pos, 2, 0
    {
      hide J.Parse, J.SkipWs, J.ParseChars;
      SkipWs();
      if pos >= |s| || s[pos] != J.QUOTE {
        return Abort;
      }
      assert Rest()[1..] == s[pos + 1..];
      var key := ParseString();
      if key.Abort? {
        return Abort;
      }
      SkipWs();
      if pos >= |s| || s[pos] != J.COLON {
        return Abort;
      }
      assert Rest()[1..] == s[pos + 1..];
      pos := pos + 1;
      SkipWs();
      var v := ParseValue();
      r := match v case Abort => Abort case Ok(x) => Ok(Pair(Str(key.value), x));
    }

    method ParseObjectEntries() returns (r: Result<seq<Value>>)
      requires Valid() && depth <= J.JSON_MAX_DEPTH
      modifies this`pos, this`depth
      ensures Valid() && pos >= old(pos) && Does(J.ParseEntries(old(Rest()), old(depth)), r)
      ensures r.Ok? ==> depth == old(depth)
      decreases |s| - pos, 3
    {
      hide J.Parse, J.ParseEntries, J.SkipWs, After, J.EntryOf;
      ghost var start := Rest();
      var entries: seq<Value> := [];
      AfterNothing(J.ParseEntries(start, depth));
      while true
        invariant Valid() && pos >= old(pos) && depth == old(depth)
        invariant J.ParseEntries(start, old(depth)) == After(entries, J.ParseEntries(Rest(), old(depth)))
        decreases |s| - pos
      {
        AfterEnd(entries, J.ParseEntries(Rest(), depth));
        var v, more := ParseEntryAndMark();
        if v.Abort? {
          return Abort;
        }
        AfterTwice(entries, [v.value], J.ParseEntries(Rest(), depth));
        entries := entries + [v.value];
        if !more {
          return Ok(entries);
        }
      }
    }

    // One entry, and the comma or the brace after it.
    method ParseEntryAndMark() returns (v: Result<Value>, more: bool)
      requires Valid() && depth <= J.JSON_MAX_DEPTH
      modifies this`pos, this`depth
      ensures Valid() && pos >= old(pos) && (v.Ok? ==> pos > old(pos) && depth == old(depth))
      ensures v.Abort? ==> J.ParseEntries(old(Rest()), old(depth)).Abort?
      ensures v.Ok? ==>
        J.ParseEntries(old(Rest()), old(depth))
        == if more then After([v.value], J.ParseEntries(Rest(), old(depth))) else Ok(([v.value], Rest()))
      decreases |s| - pos, 2, 1
    {
      hide J.Parse, J.ParseEntries, J.SkipWs, After, J.EntryOf;
      more := false;
      ghost var here := Rest();
      v := ParseEntry();
      J.EntriesStep(here, old(depth), Rest(), if v.Ok? then v.value else Nil);
      if v.Abort? {
        return;
      }
      SkipWs();
      if pos < |s| && (s[pos] == J.COMMA || s[pos] == J.CLOSE_BRACE) {
        assert Rest()[1..] == s[pos + 1..];
        more := s[pos] == J.COMMA;
        pos := pos + 1;
      } else {
        v := Abort;
      }
    }

    // bi_json_read
    method Read() returns (r: Result<Value>)
      requires Valid() && pos == 0 && depth == 0
      modifies this`pos, this`depth
      ensures r == J.JsonRead(s)
    {
      hide J.Parse, J.SkipWs;
      assert Rest() == s;
      r := ParseValue();
      if r.Abort? {
        return;
      }
      SkipWs();
      if pos != |s| {
        return Abort;
      }
    }
  }

  // ---- writing

  // The walk of is_proper_list and is_json_alist along the cdrs.
  method WalkList(v: Value) returns (proper: bool, entries: bool)
    ensures proper == IsProperList(v) && entries == J.EntriesOnly(ListItems(v))
  {
    var cur := v;
    entries := true;
    while cur.Pair?
      invariant IsProperList(cur) == IsProperList(v)
      invariant J.EntriesOnly(ListItems(v)) == (entries && J.EntriesOnly(ListItems(cur)))
      decreases cur
    {
      ghost var items := ListItems(cur);
      assert items == [cur.car] + ListItems(cur.cdr);
      assert forall k :: 0 <= k < |items| - 1 ==> items[k + 1] == ListItems(cur.cdr)[k];
      assert items[0] == cur.car;
      if !(cur.car.Pair? && cur.car.car.Str?) {
        entries := false;
      }
      cur := cur.cdr;
    }
    proper := cur.Nil?;
  }

  class JWriter {
    var out: seq<byte>

    constructor ()
      ensures out == []
    {
      out := [];
    }

    method WriteString(bytes: seq<byte>)
      modifies this
      ensures out == old(out) + J.WriteString(bytes)
    {
      hide J.Escape;
      out := out + [J.QUOTE];
      ghost var afterQuote := out;
      var i := 0;
      while i < |bytes|
        invariant i <= |bytes| && out + J.EscapeAll(bytes[i..]) == afterQuote + J.EscapeAll(bytes)
      {
        assert bytes[i..][1..] == bytes[i + 1..];
        out := out + J.Escape(bytes[i]);
        i := i + 1;
      }
      assert out == afterQuote + J.EscapeAll(bytes);
      out := out + [J.QUOTE];
    }

    // json_write_value; an unwritable part aborts the whole write.
    method WriteValue(v: Value) returns (ok: bool)
      requires FloatFree(v)
      modifies this
      ensures ok == J.Write(v).Ok?
      ensures ok ==> out == old(out) + J.Write(v).value
      decreases v, 1
    {
      hide J.WriteItems, J.WriteEntries, J.WriteString, DecimalText, ListItems, IsProperList, J.EntriesOnly;
      match v
      case Nil =>
        out := out + J.NULL_TEXT;
        return true;
      case Bool(b) =>
        out := out + if b then J.TRUE_TEXT else J.FALSE_TEXT;
        return true;
      case Int(i) =>
        out := out + DecimalText(i);
        return true;
      case Str(bytes) =>
        WriteString(bytes);
        return true;
      case Char(code) =>
        WriteString([code % 256]);
        return true;
      case Vector(items) =>
        out := out + [J.OPEN_BRACKET];
        ok := WriteItems(items, v);
      case Pair(_, _) =>
        ListFloatFree(v);
        var proper, entries := WalkList(v);
        if proper && entries {
          out := out + [J.OPEN_BRACE];
          ok := WriteEntries(v);
        } else if proper {
          out := out + [J.OPEN_BRACKET];
          ok := WriteList(v);
        } else {
          ok := false;
        }
      case _ => return false;
    }

    method WriteItems(items: seq<Value>, ghost parent: Value) returns (ok: bool)
      requires AllFloatFree(items) && forall k :: 0 <= k < |items| ==> items[k] < parent
      modifies this
      ensures ok == J.WriteItems(items, parent).Ok?
      ensures ok ==> out == old(out) + J.WriteItems(items, parent).value
      decreases parent, 0
    {
      hide J.Write, J.WriteItems, FloatFree, StillToDo;
      ok := true;
      var i := 0;
      ItemsStart(items, parent, out);
      assert items[0..] == items;
      while i < |items|
        invariant i <= |items| && StillToDo(items, parent, items[i..], i > 0, old(out), out)
      {
        ItemsNext(items, parent, items[i..], i > 0, old(out), out);
        assert items[i..][1..] == items[i + 1..] && items[i..][0] == items[i];
        ghost var was := out;
        if i > 0 {
          out := out + [J.COMMA];
        }
        ok := WriteValue(items[i]);
        if !ok {
          return;
        }
        assert out == was + (if i > 0 then [J.COMMA] else []) + J.Write(items[i]).value;
        i := i + 1;
      }
      ItemsEnd(items, parent, items[i..], i > 0, old(out), out);
      out := out + [J.CLOSE_BRACKET];
    }

    // The same over the pairs of a list.
    method WriteList(v: Value) returns (ok: bool)
      requires AllFloatFree(ListItems(v))
      modifies this
      ensures ok == J.WriteItems(ListItems(v), v).Ok?
      ensures ok ==> out == old(out) + J.WriteItems(ListItems(v), v).value
      decreases v, 0
    {
      hide J.Write, J.WriteItems, FloatFree, StillToDo;
      ok := true;
      var first := true;
      var cur := v;
      ItemsStart(ListItems(v), v, out);
      while cur.Pair?
        invariant StillToDo(ListItems(v), v, ListItems(cur), !first, old(out), out)
        decreases cur
      {
        ghost var items := ListItems(cur);
        assert items[1..] == ListItems(cur.cdr) && items[0] == cur.car;
        ItemsNext(ListItems(v), v, items, !first, old(out), out);
        ghost var was := out;
        if !first {
          out := out + [J.COMMA];
        }
        ok := WriteValue(cur.car);
        if !ok {
          return;
        }
        assert out == was + (if !first then [J.COMMA] else []) + J.Write(cur.car).value;
        first := false;
        cur := cur.cdr;
      }
      ItemsEnd(ListItems(v), v, ListItems(cur), !first, old(out), out);
      out := out + [J.CLOSE_BRACKET];
    }

    // And over the entries of an alist.
    method WriteEntries(v: Value) returns (ok: bool)
      requires AllFloatFree(ListItems(v)) && J.EntriesOnly(ListItems(v))
      modifies this
      ensures ok == J.WriteEntries(ListItems(v), v).Ok?
      ensures ok ==> out == old(out) + J.WriteEntries(ListItems(v), v).value
      decreases v, 0
    {
      hide J.Write, J.WriteEntries, J.WriteString, FloatFree, EntriesToDo;
      ok := true;
      var first := true;
      var cur := v;
      EntriesStart(ListItems(v), v, out);
      while cur.Pair?
        invariant EntriesToDo(ListItems(v), v, ListItems(cur), !first, old(out), out)
        decreases cur
      {
        ghost var items := ListItems(cur);
        assert items[1..] == ListItems(cur.cdr) && items[0] == cur.car;
        EntriesNext(ListItems(v), v, items, !first, old(out), out);
        ghost var was := out;
        if !first {
          out := out + [J.COMMA];
        }
        WriteString(cur.car.car.bytes);
        out := out + [J.COLON];
        ok := WriteValue(cur.car.cdr);
        if !ok {
          return;
        }
        assert out == was + (if !first then [J.COMMA] else [])
          + (J.WriteString(cur.car.car.bytes) + [J.COLON] + J.Write(cur.car.cdr).value);
        first := false;
        cur := cur.cdr;
      }
      EntriesEnd(ListItems(v), v, ListItems(cur), !first, old(out), out);
      out := out + [J.CLOSE_BRACE];
    }
  }

  // The output so far is that of all items but `rest`, which follow a comma unless they are the first.
  ghost predicate StillToDo(
    items: seq<Value>, parent: Value, rest: seq<Value>, later: bool, before: seq<byte>, out: seq<byte>)
    requires AllFloatFree(items) && forall k :: 0 <= k < |items| ==> items[k] < parent
  {
    && AllFloatFree(rest) && (forall k :: 0 <= k < |rest| ==> rest[k] < parent)
    && J.WriteItems(items, parent).Ok? == J.WriteItems(rest, parent).Ok?
    && (J.WriteItems(items, parent).Ok? ==>
          before + J.WriteItems(items, parent).value
          == out + (if later && rest != [] then [J.COMMA] else []) + J.WriteItems(rest, parent).value)
  }

  lemma Reassociate(before: seq<byte>, whole: seq<byte>, out: seq<byte>, a: seq<byte>, d: seq<byte>, t: seq<byte>)
    requires before + whole == out + (a + (d + t))
    ensures before + whole == out + a + d + t
  {
  }

  lemma ItemsStart(items: seq<Value>, parent: Value, out: seq<byte>)
    requires AllFloatFree(items) && forall k :: 0 <= k < |items| ==> items[k] < parent
    ensures StillToDo(items, parent, items, false, out, out)
  {
    hide J.Write, J.WriteItems;
  }

  lemma ItemsEnd(items: seq<Value>, parent: Value, rest: seq<Value>, later: bool, before: seq<byte>, out: seq<byte>)
    requires AllFloatFree(items) && forall k :: 0 <= k < |items| ==> items[k] < parent
    requires StillToDo(items, parent, rest, later, before, out) && rest == []
    ensures J.WriteItems(items, parent).Ok?
    ensures before + J.WriteItems(items, parent).value == out + [J.CLOSE_BRACKET]
  {
  }

  lemma RestOfItems(rest: seq<Value>, parent: Value)
    requires rest != [] && AllFloatFree(rest) && forall k :: 0 <= k < |rest| ==> rest[k] < parent
    ensures AllFloatFree(rest[1..]) && FloatFree(rest[0]) && (|rest| > 1 <==> rest[1..] != [])
    ensures forall k :: 0 <= k < |rest[1..]| ==> rest[1..][k] < parent
  {
  }

  lemma ItemsNext(items: seq<Value>, parent: Value, rest: seq<Value>, later: bool, before: seq<byte>, out: seq<byte>)
    requires AllFloatFree(items) && forall k :: 0 <= k < |items| ==> items[k] < parent
    requires StillToDo(items, parent, rest, later, before, out) && rest != []
    ensures AllFloatFree(rest) && FloatFree(rest[0]) && rest[0] < parent
    ensures J.Write(rest[0]).Abort? ==> J.WriteItems(items, parent).Abort?
    ensures J.Write(rest[0]).Ok? ==>
      StillToDo(items, parent, rest[1..], true, before,
                out + (if later then [J.COMMA] else []) + J.Write(rest[0]).value)
  {
    hide J.Write, J.WriteItems, FloatFree, AllFloatFree;
    RestOfItems(rest, parent);
    J.ItemsHead(rest, parent);
    if J.Write(rest[0]).Ok? && J.WriteItems(rest, parent).Ok? {
      hide J.IsAlist, IsProperList, ListItems;
      var c := if later then [J.COMMA] else [];
      var d := if |rest| > 1 then [J.COMMA] else [];
      var whole := J.WriteItems(items, parent).value;
      Reassociate(before, whole, out + c, J.Write(rest[0]).value, d, J.WriteItems(rest[1..], parent).value);
    }
  }

  ghost predicate EntriesToDo(
    items: seq<Value>, parent: Value, rest: seq<Value>, later: bool, before: seq<byte>, out: seq<byte>)
    requires AllFloatFree(items) && J.EntriesOnly(items) && forall k :: 0 <= k < |items| ==> items[k] < parent
  {
    && AllFloatFree(rest) && J.EntriesOnly(rest) && (forall k :: 0 <= k < |rest| ==> rest[k] < parent)
    && J.WriteEntries(items, parent).Ok? == J.WriteEntries(rest, parent).Ok?
    && (J.WriteEntries(items, parent).Ok? ==>
          before + J.WriteEntries(items, parent).value
          == out + (if later && rest != [] then [J.COMMA] else []) + J.WriteEntries(rest, parent).value)
  }

  lemma EntriesStart(items: seq<Value>, parent: Value, out: seq<byte>)
    requires AllFloatFree(items) && J.EntriesOnly(items) && forall k :: 0 <= k < |items| ==> items[k] < parent
    ensures EntriesToDo(items, parent, items, false, out, out)
  {
    hide J.Write, J.WriteEntries;
  }

  lemma EntriesEnd(items: seq<Value>, parent: Value, rest: seq<Value>, later: bool, before: seq<byte>, out: seq<byte>)
    requires AllFloatFree(items) && J.EntriesOnly(items) && forall k :: 0 <= k < |items| ==> items[k] < parent
    requires EntriesToDo(items, parent, rest, later, before, out) && rest == []
    ensures J.WriteEntries(items, parent).Ok?
    ensures before + J.WriteEntries(items, parent).value == out + [J.CLOSE_BRACE]
  {
  }

  lemma RestOfEntries(rest: seq<Value>, parent: Value)
    requires rest != [] && AllFloatFree(rest) && J.EntriesOnly(rest)
    requires forall k :: 0 <= k < |rest| ==> rest[k] < parent
    ensures AllFloatFree(rest[1..]) && J.EntriesOnly(rest[1..]) && rest[0].cdr < parent
    ensures rest[0].Pair? && rest[0].car.Str? && FloatFree(rest[0].cdr)
    ensures |rest| > 1 <==> rest[1..] != []
  {
    assert FloatFree(rest[0]) && rest[0].cdr < rest[0];
  }

  lemma EntriesNext(items: seq<Value>, parent: Value, rest: seq<Value>, later: bool, before: seq<byte>, out: seq<byte>)
    requires AllFloatFree(items) && J.EntriesOnly(items) && forall k :: 0 <= k < |items| ==> items[k] < parent
    requires EntriesToDo(items, parent, rest, later, before, out) && rest != []
    ensures J.EntriesOnly(rest) && FloatFree(rest[0].cdr) && rest[0].cdr < parent
    ensures J.Write(rest[0].cdr).Abort? ==> J.WriteEntries(items, parent).Abort?
    ensures J.Write(rest[0].cdr).Ok? ==>
      EntriesToDo(items, parent, rest[1..], true, before,
                  out + (if later then [J.COMMA] else []) + J.Entry(rest[0]))
  {
    hide J.Write, J.WriteEntries, J.WriteString, FloatFree, AllFloatFree, J.EntriesOnly, J.Entry;
    RestOfEntries(rest, parent);
    J.EntriesHead(rest, parent);
    if J.Write(rest[0].cdr).Ok? && J.WriteEntries(rest, parent).Ok? {
      var c := if later then [J.COMMA] else [];
      var d := if |rest| > 1 then [J.COMMA] else [];
      var whole := J.WriteEntries(items, parent).value;
      Reassociate(before, whole, out + c, J.Entry(rest[0]), d, J.WriteEntries(rest[1..], parent).value);
    }
  }
}
