/** The wire reader and writer of icecreme/actor.c as they run: a cursor and a nesting count, and an output buffer
    that is only appended to. */
module WireCodec {
  import opened Util
  import opened Decimal
  import opened SchemeValue
  import opened TextReading
  import W = Wire

  type Bytes = seq<byte>

  // ReadChars unfolded once.
  lemma CharsStep(s: Bytes)
    ensures s == [] ==> W.ReadChars(s).Abort?
    ensures s != [] && s[0] == W.QUOTE ==> W.ReadChars(s) == Ok(([], s[1..]))
    ensures |s| > 1 && s[0] == W.BACKSLASH ==> W.ReadChars(s) == After([s[1]], W.ReadChars(s[2..]))
    ensures s != [] && s[0] != W.QUOTE && (s[0] != W.BACKSLASH || |s| == 1) ==>
      W.ReadChars(s) == After([s[0]], W.ReadChars(s[1..]))
  {
  }

  // ReadItems unfolded once.
  lemma ItemsStep(s: Bytes, n: nat, depth: nat, types: set<Bytes>, v: Value, more: Bytes)
    ensures var t := W.SkipWs(s);
      && (t == [] ==> W.ReadItems(s, n, depth, types).Abort?)
      && (t != [] && t[0] == W.CLOSE ==> W.ReadItems(s, n, depth, types) == Ok(([], (None, t[1..]))))
      && (t != [] && t[0] != W.CLOSE && !AtDot(t) ==>
            && (n >= W.MAX_WIRE_LIST || W.Read(t, depth, types).Abort? ==> W.ReadItems(s, n, depth, types).Abort?)
            && (n < W.MAX_WIRE_LIST && W.Read(t, depth, types) == Ok((v, more)) ==>
                  W.ReadItems(s, n, depth, types) == After([v], W.ReadItems(more, n + 1, depth, types))))
  {
    hide W.Read, W.SkipWs;
  }

  lemma DotStep(s: Bytes, n: nat, depth: nat, types: set<Bytes>, d: Value, more: Bytes)
    requires var t := W.SkipWs(s); t != [] && AtDot(t)
    ensures var t := W.SkipWs(s);
      var u := W.SkipWs(more);
      && (W.Read(W.SkipWs(t[1..]), depth, types).Abort? ==> W.ReadItems(s, n, depth, types).Abort?)
      && (W.Read(W.SkipWs(t[1..]), depth, types) == Ok((d, more)) ==>
            W.ReadItems(s, n, depth, types)
            == if u != [] && u[0] == W.CLOSE then Ok(([], (Some(d), u[1..]))) else Abort)
  {
    hide W.Read, W.SkipWs;
  }

  predicate AtDot(t: Bytes) {
    |t| > 1 && t[0] == W.DOT && (t[1] == W.SPACE || t[1] == W.OPEN)
  }

  class PReader {
    const s: Bytes
    const types: set<Bytes>
    var pos: nat
    var depth: nat

    ghost predicate Valid()
      reads this
    {
      pos <= |s|
    }

    ghost function Rest(): Bytes
      requires Valid()
      reads this
    {
      s[pos..]
    }

    // Left by a read that computes `want`: its value and the text after it, or a failure.
    ghost predicate Does<T>(want: Result<(T, Bytes)>, got: Result<T>)
      requires Valid()
      reads this
    {
      match want
      case Abort => got.Abort?
      case Ok((v, rest)) => got == Ok(v) && Rest() == rest
    }

    constructor (s: Bytes, types: set<Bytes>)
      ensures Valid() && this.s == s && this.types == types && Rest() == s && depth == 0
    {
      this.s, this.types := s, types;
      pos, depth := 0, 0;
    }

    method SkipWs()
      requires Valid()
      modifies this`pos
      ensures Valid() && pos >= old(pos) && Rest() == W.SkipWs(old(Rest()))
    {
      while pos < |s| && W.IsSpace(s[pos])
        invariant Valid() && pos >= old(pos) && W.SkipWs(Rest()) == W.SkipWs(old(Rest()))
      {
        assert Rest()[1..] == s[pos + 1..];
        pos := pos + 1;
      }
    }

    method ReadString() returns (r: Result<Value>)
      requires Valid() && pos < |s|
      modifies this`pos
      ensures Valid() && pos > old(pos)
      ensures match W.ReadChars(s[old(pos) + 1..])
        case Abort => r.Abort?
        case Ok((bytes, rest)) => r == Ok(W.StringValue(bytes)) && Rest() == rest
    {
      hide W.ReadChars, After;
      pos := pos + 1;
      ghost var start := Rest();
      var out: Bytes := [];
      AfterNothing(W.ReadChars(start));
      while pos < |s| && s[pos] != W.QUOTE
        invariant old(pos) < pos <= |s| && W.ReadChars(start) == After(out, W.ReadChars(Rest()))
        decreases |s| - pos
      {
        ghost var here := Rest();
        CharsStep(here);
        var c := s[pos];
        pos := pos + 1;
        if c == W.BACKSLASH && pos < |s| {
          c := s[pos];
          pos := pos + 1;
          assert here[1] == c && Rest() == here[2..];
        } else {
          assert Rest() == here[1..];
        }
        AfterTwice(out, [c], W.ReadChars(Rest()));
        out := out + [c];
      }
      CharsStep(Rest());
      AfterEnd(out, W.ReadChars(Rest()));
      if pos >= |s| {
        return Abort;
      }
      assert Rest()[1..] == s[pos + 1..];
      pos := pos + 1;
      return Ok(W.StringValue(out));
    }

    // read_list, at its opening parenthesis.
    method ReadList() returns (r: Result<Value>)
      requires Valid() && pos < |s|
      modifies this`pos, this`depth
      ensures Valid() && pos > old(pos) && Does(W.ReadList(s[old(pos) + 1..], old(depth), types), r)
      ensures r.Ok? ==> depth == old(depth)
      decreases |s| - pos, 1
    {
      hide W.ReadItems, W.ListValue;
      depth := depth + 1;
      pos := pos + 1;
      if depth > W.MAX_WIRE_DEPTH {
        return Abort;
      }
      var parts := ReadParts();
      match parts
      case Abort => return Abort;
      case Ok((items, tail)) =>
        r := W.ListValue(items, tail, types);
        depth := if r.Ok? then depth - 1 else depth;
    }

    // The loop of read_list, through the closing parenthesis.
    method ReadParts() returns (r: Result<(seq<Value>, Option<Value>)>)
      requires Valid()
      modifies this`pos, this`depth
      ensures Valid() && pos >= old(pos) && (r.Ok? ==> depth == old(depth))
      ensures match W.ReadItems(old(Rest()), 0, old(depth), types)
        case Abort => r.Abort?
        case Ok((items, (tail, rest))) => r == Ok((items, tail)) && Rest() == rest
      decreases |s| - pos, 4
    {
      hide W.ReadItems, W.Read, W.SkipWs, After;
      ghost var start := Rest();
      var items: seq<Value> := [];
      AfterNothing(W.ReadItems(start, 0, depth, types));
      while true
        invariant Valid() && pos >= old(pos) && depth == old(depth)
        invariant W.ReadItems(start, 0, old(depth), types)
          == After(items, W.ReadItems(Rest(), |items|, old(depth), types))
        decreases |s| - pos
      {
        ghost var here := Rest();
        SkipWs();
        ItemsStep(here, |items|, old(depth), types, Nil, []);
        AfterEnd(items, W.ReadItems(here, |items|, old(depth), types));
        if pos >= |s| {
          return Abort;
        }
        if s[pos] == W.CLOSE {
          assert Rest()[1..] == s[pos + 1..];
          pos := pos + 1;
          return Ok((items, None));
        }
        if s[pos] == W.DOT && pos + 1 < |s| && (s[pos + 1] == W.SPACE || s[pos + 1] == W.OPEN) {
          var tail := ReadTail(here, |items|);
          return match tail case Abort => Abort case Ok(d) => Ok((items, Some(d)));
        }
        if |items| >= W.MAX_WIRE_LIST {
          return Abort;
        }
        var v := ReadDatum();
        ItemsStep(here, |items|, old(depth), types, if v.Ok? then v.value else Nil, Rest());
        if v.Abort? {
          return Abort;
        }
        AfterTwice(items, [v.value], W.ReadItems(Rest(), |items| + 1, depth, types));
        items := items + [v.value];
      }
    }

    // A dotted tail and the closing parenthesis, for a list whose text from here on was `here`.
    method ReadTail(ghost here: Bytes, ghost n: nat) returns (r: Result<Value>)
      requires Valid() && Rest() == W.SkipWs(here) && AtDot(Rest())
      modifies this`pos, this`depth
      ensures Valid() && pos >= old(pos) && (r.Ok? ==> depth == old(depth))
      ensures match W.ReadItems(here, n, old(depth), types)
        case Abort => r.Abort?
        case Ok((items, (tail, rest))) => items == [] && r.Ok? && tail == Some(r.value) && Rest() == rest
      decreases |s| - pos, 1
    {
      hide W.ReadItems, W.Read, W.SkipWs;
      assert Rest()[1..] == s[pos + 1..];
      pos := pos + 1;
      SkipWs();
      r := ReadDatum();
      DotStep(here, n, old(depth), types, if r.Ok? then r.value else Nil, Rest());
      if r.Abort? {
        return;
      }
      SkipWs();
      if pos >= |s| || s[pos] != W.CLOSE {
        return Abort;
      }
      assert Rest()[1..] == s[pos + 1..];
      pos := pos + 1;
    }

    method ReadDatum() returns (r: Result<Value>)
      requires Valid()
      modifies this`pos, this`depth
      ensures Valid() && pos >= old(pos) && (r.Ok? ==> depth == old(depth) && pos > old(pos))
      ensures Does(W.Read(old(Rest()), old(depth), types), r)
      decreases |s| - pos, 3
    {
      hide W.ReadList, W.ReadChars, W.ReadChar, W.StringValue, W.Token, W.TokenValue, W.SkipWs;
      W.ReadSkips(Rest(), depth, types);
      SkipWs();
      if pos >= |s| {
        return Abort;
      }
      ghost var t := Rest();
      var c := s[pos];
      assert t[1..] == s[pos + 1..];
      if c == W.OPEN {
        r := ReadList();
      } else if c == W.QUOTE {
        r := ReadString();
      } else if c == W.HASH {
        if pos + 1 >= |s| {
          return Abort;
        }
        assert t[1] == s[pos + 1] && t[2..] == s[pos + 2..];
        r := ReadHash();
      } else {
        r := ReadToken();
      }
    }

    // After a hash sign.
    method ReadHash() returns (r: Result<Value>)
      requires Valid() && pos + 1 < |s| && s[pos] == W.HASH
      modifies this`pos, this`depth
      ensures Valid() && pos > old(pos) && (r.Ok? ==> depth == old(depth))
      ensures Does(W.Read(old(Rest()), old(depth), types), r)
      decreases |s| - pos, 2
    {
      hide W.ReadList, W.ReadChars, W.ReadChar, W.StringValue, W.Token, W.TokenValue, W.SkipWs;
      ghost var t := Rest();
      W.SkipNothing(t);
      assert t[1] == s[pos + 1] && t[2..] == s[pos + 2..];
      var c := s[pos + 1];
      if c == W.OPEN {
        pos := pos + 1;
        var lst := ReadList();
        r := match lst case Abort => Abort case Ok(v) => Ok(Vector(ListItems(v)));
      } else if c == 116 || c == 102 {
        pos := pos + 2;
        r := Ok(Bool(c == 116));
      } else if c == W.BACKSLASH {
        pos := pos + 2;
        r := ReadChar();
      } else {
        pos := pos + 1;
        r := Abort;
      }
    }

    // The scan for the semicolon that ends a hex code.
    method SkipToSemicolon()
      requires Valid()
      modifies this`pos
      ensures Valid() && pos == old(pos) + W.UpToSemicolon(old(Rest()))
    {
      while pos < |s| && s[pos] != W.SEMICOLON
        invariant Valid() && pos + W.UpToSemicolon(Rest()) == old(pos) + W.UpToSemicolon(old(Rest()))
      {
        assert Rest()[1..] == s[pos + 1..];
        pos := pos + 1;
      }
    }

    method ReadChar() returns (r: Result<Value>)
      requires Valid()
      modifies this`pos
      ensures Valid() && pos >= old(pos) && Does(W.ReadChar(old(Rest())), r)
    {
      hide W.UpToSemicolon, W.StrToL16;
      if pos >= |s| {
        return Abort;
      }
      ghost var t := Rest();
      assert t[1..] == s[pos + 1..];
      pos := pos + 1;
      if s[pos - 1] == W.LOWER_X {
        var start := pos;
        SkipToSemicolon();
        assert t[1..1 + (pos - start)] == s[start..pos];
        var code := W.StrToL16(s[start..pos]);
        if pos < |s| {
          assert t[pos - start + 2..] == s[pos + 1..];
          pos := pos + 1;
        }
        return Ok(Char(code));
      }
      return Ok(Char(s[pos - 1] as int));
    }

    method ReadToken() returns (r: Result<Value>)
      requires Valid() && pos < |s| && !W.IsSpace(s[pos])
      requires s[pos] != W.OPEN && s[pos] != W.QUOTE && s[pos] != W.HASH
      modifies this`pos
      ensures Valid() && pos >= old(pos) && (r.Ok? ==> pos > old(pos))
      ensures Does(W.Read(old(Rest()), old(depth), types), r)
    {
      hide W.Read, W.TokenValue;
      ghost var t := Rest();
      W.TokenStep(t, depth, types);
      var start := pos;
      while pos < |s| && !W.EndsToken(s[pos])
        invariant start <= pos <= |s| && W.Token(t) == pos - start + W.Token(s[pos..])
      {
        assert s[pos..][1..] == s[pos + 1..];
        pos := pos + 1;
      }
      assert t[..pos - start] == s[start..pos] && t[pos - start..] == s[pos..];
      if pos == start {
        return Abort;
      }
      return Ok(W.TokenValue(s[start..pos], s[pos..]));
    }

    // decode_message
    method DecodeMessage() returns (r: Result<Value>)
      requires Valid() && pos == 0 && depth == 0
      modifies this`pos, this`depth
      ensures r == W.Decode(s, types) && (r.Ok? ==> depth == 0)
    {
      hide W.Read;
      assert Rest() == s;
      r := ReadDatum();
    }
  }

  // ---- writing

  // The output so far is that of all items but `rest`, which follow a space unless they are the first.
  ghost predicate StillToDo(
    items: seq<Value>, tail: Option<Value>, parent: Value, rest: seq<Value>, later: bool, before: Bytes, out: Bytes)
    requires AllFloatFree(items) && (tail.Some? ==> FloatFree(tail.value)) && W.PartsOf(items, tail, parent)
  {
    && AllFloatFree(rest) && W.PartsOf(rest, tail, parent)
    && W.WriteItems(items, tail, parent).Ok? == W.WriteItems(rest, tail, parent).Ok?
    && (W.WriteItems(items, tail, parent).Ok? ==>
          before + W.WriteItems(items, tail, parent).value
          == out + (if later && rest != [] then [W.SPACE] else []) + W.WriteItems(rest, tail, parent).value)
  }

  lemma ItemsStart(items: seq<Value>, tail: Option<Value>, parent: Value, out: Bytes)
    requires AllFloatFree(items) && (tail.Some? ==> FloatFree(tail.value)) && W.PartsOf(items, tail, parent)
    ensures StillToDo(items, tail, parent, items, false, out, out)
  {
    hide W.WriteDatum, W.WriteItems;
  }

  lemma ItemsHead(rest: seq<Value>, tail: Option<Value>, parent: Value)
    requires AllFloatFree(rest) && (tail.Some? ==> FloatFree(tail.value)) && W.PartsOf(rest, tail, parent)
    requires rest != []
    ensures W.WriteDatum(rest[0]).Abort? ==> W.WriteItems(rest, tail, parent).Abort?
    ensures W.WriteDatum(rest[0]).Ok? ==>
      W.WriteItems(rest, tail, parent).Ok? == W.WriteItems(rest[1..], tail, parent).Ok?
    ensures W.WriteDatum(rest[0]).Ok? && W.WriteItems(rest, tail, parent).Ok? ==>
      W.WriteItems(rest, tail, parent).value
      == W.WriteDatum(rest[0]).value
         + ((if |rest| > 1 then [W.SPACE] else []) + W.WriteItems(rest[1..], tail, parent).value)
  {
    hide W.WriteDatum, FloatFree;
  }

  lemma Reassociate(out: Bytes, a: Bytes, d: Bytes, t: Bytes)
    ensures out + (a + (d + t)) == out + a + d + t
  {
  }

  lemma RestOfItems(rest: seq<Value>)
    requires rest != [] && AllFloatFree(rest)
    ensures AllFloatFree(rest[1..]) && FloatFree(rest[0]) && (|rest| > 1 <==> rest[1..] != [])
  {
  }

  lemma ItemsNext(
    items: seq<Value>, tail: Option<Value>, parent: Value, rest: seq<Value>, later: bool, before: Bytes, out: Bytes)
    requires AllFloatFree(items) && (tail.Some? ==> FloatFree(tail.value)) && W.PartsOf(items, tail, parent)
    requires StillToDo(items, tail, parent, rest, later, before, out) && rest != []
    ensures AllFloatFree(rest) && FloatFree(rest[0]) && rest[0] < parent
    ensures W.WriteDatum(rest[0]).Abort? ==> W.WriteItems(items, tail, parent).Abort?
    ensures W.WriteDatum(rest[0]).Ok? ==>
      StillToDo(items, tail, parent, rest[1..], true, before,
                out + (if later then [W.SPACE] else []) + W.WriteDatum(rest[0]).value)
  {
    hide W.WriteDatum, W.WriteItems, FloatFree, AllFloatFree;
    RestOfItems(rest);
    ItemsHead(rest, tail, parent);
    if W.WriteDatum(rest[0]).Ok? && W.WriteItems(rest, tail, parent).Ok? {
      var c := if later then [W.SPACE] else [];
      var d := if |rest| > 1 then [W.SPACE] else [];
      Reassociate(out + c, W.WriteDatum(rest[0]).value, d, W.WriteItems(rest[1..], tail, parent).value);
    }
  }

  // After the last item: the dotted tail, if any, and the closing parenthesis.
  lemma ItemsLast(
    items: seq<Value>, tail: Option<Value>, parent: Value, rest: seq<Value>, later: bool, before: Bytes, out: Bytes)
    requires AllFloatFree(items) && (tail.Some? ==> FloatFree(tail.value)) && W.PartsOf(items, tail, parent)
    requires StillToDo(items, tail, parent, rest, later, before, out) && rest == []
    ensures tail.None? ==> W.WriteItems(items, tail, parent).Ok?
    ensures tail.None? ==> before + W.WriteItems(items, tail, parent).value == out + [W.CLOSE]
    ensures tail.Some? ==> W.WriteItems(items, tail, parent).Ok? == W.WriteDatum(tail.value).Ok?
    ensures tail.Some? && W.WriteDatum(tail.value).Ok? ==>
      before + W.WriteItems(items, tail, parent).value
      == out + [W.SPACE, W.DOT, W.SPACE] + W.WriteDatum(tail.value).value + [W.CLOSE]
  {
    hide W.WriteDatum;
    if tail.Some? && W.WriteDatum(tail.value).Ok? {
      Reassociate(out, [W.SPACE, W.DOT, W.SPACE], W.WriteDatum(tail.value).value, [W.CLOSE]);
    }
  }

  class WBuf {
    var out: Bytes

    constructor ()
      ensures out == []
    {
      out := [];
    }

    method Puts(bytes: Bytes)
      modifies this
      ensures out == old(out) + bytes
    {
      out := out + bytes;
    }

    method WriteStringEscaped(bytes: Bytes)
      modifies this
      ensures out == old(out) + W.WriteString(bytes)
    {
      out := out + [W.QUOTE];
      ghost var afterQuote := out;
      var i := 0;
      while i < |bytes|
        invariant i <= |bytes| && out + W.EscapeAll(bytes[i..]) == afterQuote + W.EscapeAll(bytes)
      {
        assert bytes[i..][1..] == bytes[i + 1..];
        if bytes[i] == W.QUOTE || bytes[i] == W.BACKSLASH {
          out := out + [W.BACKSLASH];
        }
        out := out + [bytes[i]];
        i := i + 1;
      }
      assert out == afterQuote + W.EscapeAll(bytes);
      out := out + [W.QUOTE];
    }

    // write_datum; an unsupported part aborts the whole write.
    method WriteDatum(v: Value) returns (ok: bool)
      requires FloatFree(v)
      modifies this
      ensures ok == W.WriteDatum(v).Ok?
      ensures ok ==> out == old(out) + W.WriteDatum(v).value
      decreases v, 1
    {
      hide W.WriteItems, W.WriteFields, W.WriteString, W.WriteChar, DecimalText, ListItems, W.LastCdr;
      match v
      case Nil =>
        Puts([W.OPEN, W.CLOSE]);
        return true;
      case Bool(b) =>
        Puts([W.HASH, if b then 116 else 102]);
        return true;
      case Int(i) =>
        Puts(DecimalText(i));
        return true;
      case Char(code) =>
        Puts(W.WriteChar(code));
        return true;
      case Str(bytes) =>
        WriteStringEscaped(bytes);
        return true;
      case Sym(name) =>
        Puts(name);
        return true;
      case Pair(_, _) =>
        ListFloatFree(v);
        W.LastFloatFree(v);
        Puts([W.OPEN]);
        ok := WriteList(v);
      case Vector(items) =>
        Puts([W.HASH, W.OPEN]);
        ok := WriteVector(items, v);
      case Record(name, fields) =>
        Puts([W.OPEN]);
        WriteStringEscaped(W.RECORD_TAG);
        Puts([W.SPACE]);
        WriteStringEscaped(name);
        ok := WriteRecordFields(fields, v);
      case Ref(uri) =>
        WriteStringEscaped(W.REF_TAG + uri);
        return true;
      case _ => return false;
    }

    method WriteList(v: Value) returns (ok: bool)
      requires v.Pair? && AllFloatFree(ListItems(v)) && FloatFree(W.LastCdr(v))
      modifies this
      ensures ok == W.WriteItems(ListItems(v), W.TailOf(v), v).Ok?
      ensures ok ==> out == old(out) + W.WriteItems(ListItems(v), W.TailOf(v), v).value
      decreases v, 0
    {
      hide W.WriteDatum, W.WriteItems, FloatFree, StillToDo;
      ok := true;
      var first := true;
      var cur := v;
      ItemsStart(ListItems(v), W.TailOf(v), v, out);
      while cur.Pair?
        invariant W.LastCdr(cur) == W.LastCdr(v) && (cur == v || cur < v)
        invariant StillToDo(ListItems(v), W.TailOf(v), v, ListItems(cur), !first, old(out), out)
        decreases cur
      {
        ghost var items := ListItems(cur);
        assert items[1..] == ListItems(cur.cdr) && items[0] == cur.car;
        ItemsNext(ListItems(v), W.TailOf(v), v, items, !first, old(out), out);
        ghost var was := out;
        if !first {
          Puts([W.SPACE]);
        }
        ok := WriteDatum(cur.car);
        if !ok {
          return;
        }
        assert out == was + (if !first then [W.SPACE] else []) + W.WriteDatum(cur.car).value;
        first := false;
        cur := cur.cdr;
      }
      ItemsLast(ListItems(v), W.TailOf(v), v, ListItems(cur), !first, old(out), out);
      if !cur.Nil? {
        ghost var was := out;
        Puts([W.SPACE, W.DOT, W.SPACE]);
        ok := WriteDatum(cur);
        if !ok {
          return;
        }
        assert out == was + [W.SPACE, W.DOT, W.SPACE] + W.WriteDatum(cur).value;
      }
      Puts([W.CLOSE]);
    }

    method WriteVector(items: seq<Value>, ghost parent: Value) returns (ok: bool)
      requires AllFloatFree(items) && W.PartsOf(items, None, parent)
      modifies this
      ensures ok == W.WriteItems(items, None, parent).Ok?
      ensures ok ==> out == old(out) + W.WriteItems(items, None, parent).value
      decreases parent, 0
    {
      hide W.WriteDatum, W.WriteItems, FloatFree, StillToDo;
      ok := true;
      var i := 0;
      ItemsStart(items, None, parent, out);
      assert items[0..] == items;
      while i < |items|
        invariant i <= |items| && StillToDo(items, None, parent, items[i..], i > 0, old(out), out)
      {
        ItemsNext(items, None, parent, items[i..], i > 0, old(out), out);
        assert items[i..][1..] == items[i + 1..] && items[i..][0] == items[i];
        ghost var was := out;
        if i > 0 {
          Puts([W.SPACE]);
        }
        ok := WriteDatum(items[i]);
        if !ok {
          return;
        }
        assert out == was + (if i > 0 then [W.SPACE] else []) + W.WriteDatum(items[i]).value;
        i := i + 1;
      }
      ItemsLast(items, None, parent, items[i..], i > 0, old(out), out);
      Puts([W.CLOSE]);
    }

    method WriteRecordFields(fields: seq<Value>, ghost parent: Value) returns (ok: bool)
      requires AllFloatFree(fields) && forall k :: 0 <= k < |fields| ==> fields[k] < parent
      modifies this
      ensures ok == W.WriteFields(fields, parent).Ok?
      ensures ok ==> out == old(out) + W.WriteFields(fields, parent).value
      decreases parent, 0
    {
      hide W.WriteDatum, FloatFree;
      ok := true;
      var i := 0;
      assert fields[0..] == fields;
      while i < |fields|
        invariant i <= |fields|
        invariant W.WriteFields(fields, parent).Ok? == W.WriteFields(fields[i..], parent).Ok?
        invariant W.WriteFields(fields, parent).Ok? ==>
          old(out) + W.WriteFields(fields, parent).value == out + W.WriteFields(fields[i..], parent).value
      {
        assert fields[i..][1..] == fields[i + 1..] && fields[i..][0] == fields[i];
        Puts([W.SPACE]);
        ok := WriteDatum(fields[i]);
        if !ok {
          return;
        }
        i := i + 1;
      }
      Puts([W.CLOSE]);
    }
  }
}
