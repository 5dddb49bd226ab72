/** The Reader of icecreme/loader.c as it runs: a cursor, a label table and a depth counter changed in place,
    and containers allocated first and patched as their contents arrive. */
module IceReader {
  import opened Util
  import opened Decimal
  import opened SchemeHeap
  import opened IceFormat
  import opened IceLoader

  // Once a field cannot be read, the rest is not read either.
  lemma {:induction false} AbortLasts(inp: Input, st: State, c: Value, n: nat, k: nat, last: nat)
    requires st.pos <= |inp.buf| && HasFields(st.heap, c, n) && k <= last <= n
    requires ReadParts(inp, st, c, n, k).Abort?
    ensures ReadParts(inp, st, c, n, last).Abort?
    decreases last
  {
    if k < last {
      AbortLasts(inp, st, c, n, k, last - 1);
    }
  }

  class Reader {
    const inp: Input
    var bufPos: nat
    var labels: seq<DatumLabel>
    var datumDepth: nat
    var heap: Heap

    constructor (inp: Input, pos: nat, heap: Heap)
      requires pos <= |inp.buf|
      ensures this.inp == inp && St() == State(pos, heap, [], 0)
    {
      this.inp := inp;
      this.bufPos, this.heap, this.labels, this.datumDepth := pos, heap, [], 0;
    }

    ghost function St(): State
      reads this
    {
      State(bufPos, heap, labels, datumDepth)
    }

    // What a read that computes `want` from the state before may return, and the state it leaves; an abort ends
    // the load, so nothing is promised about the state then.
    ghost predicate Does<T>(want: Result<(T, State)>, got: Result<T>)
      reads this
    {
      match want
      case Abort => got.Abort?
      case Ok((v, st)) => got == Ok(v) && St() == st
    }

    method MustRead(n: nat) returns (r: Result<seq<byte>>)
      modifies this`bufPos
      ensures r == IceLoader.MustRead(inp, old(bufPos), n)
      ensures r.Ok? ==> bufPos == old(bufPos) + n
    {
      if bufPos + n > |inp.buf| {
        return Abort;
      }
      r := Ok(inp.buf[bufPos..bufPos + n]);
      bufPos := bufPos + n;
    }

    method ReadI32() returns (r: Result<int>)
      modifies this`bufPos
      ensures r == IceLoader.ReadI32(inp, old(bufPos))
      ensures r.Ok? ==> bufPos == old(bufPos) + 4
    {
      var b := MustRead(4);
      r := if b.Ok? then Ok(Signed(b.value)) else Abort;
    }

    method ReadCount() returns (r: Result<nat>)
      modifies this`bufPos
      ensures r == IceLoader.ReadCount(inp, old(bufPos))
      ensures r.Ok? ==> bufPos == old(bufPos) + 4
    {
      var n := ReadI32();
      if n.Abort? || n.value < 0 || n.value > MAX_COUNT {
        return Abort;
      }
      r := Ok(n.value);
    }

    method DatumLabelAdd(id: int, v: Value) returns (r: Result<()>)
      modifies this`labels
      ensures match AddLabel(old(St()), id, v) case Abort => r.Abort? case Ok(st) => r.Ok? && St() == st
    {
      if id >= 0 {
        if |labels| >= LABELS_CAP {
          return Abort;
        }
        labels := labels + [DatumLabel(id, v)];
      }
      r := Ok(());
    }

    // The first entry with this id wins.
    method DatumLabelFind(id: int) returns (v: Option<Value>)
      ensures v == FindLabel(labels, id)
    {
      assert labels[0..] == labels;
      for i := 0 to |labels|
        invariant FindLabel(labels, id) == FindLabel(labels[i..], id)
      {
        assert labels[i..][0] == labels[i] && labels[i..][1..] == labels[i + 1..];
        if labels[i].id == id {
          return Some(labels[i].value);
        }
      }
      v := None;
    }

    // The payload of a leaf after its tag.
    method ReadLeaf(tag: byte) returns (r: Result<Leaf>)
      modifies this`bufPos
      ensures match IceLoader.ReadLeaf(inp, tag, old(bufPos))
        case Abort => r.Abort?
        case Ok((l, pos)) => r == Ok(l) && bufPos == pos
    {
      if tag == TAG_INT || tag == TAG_BLOB {
        var n := ReadCount();
        if n.Abort? {
          return Abort;
        }
        var b := MustRead(n.value);
        if b.Abort? {
          return Abort;
        }
        if tag == TAG_BLOB {
          return Ok(Leaf(T_BYTEVECTOR, AsInts(b.value)));
        }
        var z := ParseInteger(b.value);
        return if z.Some? then Ok(IntegerLeaf(z.value)) else Abort;
      } else if tag == TAG_FLOAT || tag == TAG_CHAR {
        var b := MustRead(8);
        if b.Abort? {
          return Abort;
        }
        return Ok(if tag == TAG_FLOAT then Leaf(T_FLOAT, AsInts(b.value)) else Leaf(T_CHAR, [Signed(b.value)]));
      } else if tag == TAG_SYM || tag == TAG_STR {
        var b := MustRead(3);
        if b.Abort? || Unsigned(b.value) >= |inp.pool| {
          return Abort;
        }
        return Ok(Leaf(if tag == TAG_SYM then T_SYM else T_STR, AsInts(inp.pool[Unsigned(b.value)])));
      } else if tag == TAG_BOOL {
        var b := MustRead(1);
        if b.Abort? {
          return Abort;
        }
        return Ok(Leaf(T_BOOL, [if b.value[0] != 0 then 1 else 0]));
      }
      r := if tag == TAG_NIL then Ok(NIL) else Abort;
    }

    // The depth-checked wrapper.
    method ReadDatumRec() returns (r: Result<Value>)
      requires bufPos <= |inp.buf|
      modifies this
      ensures Does(ReadRec(inp, old(St())), r)
      decreases |inp.buf| - bufPos, 2
    {
      if datumDepth >= MAX_DATUM_DEPTH {
        return Abort;
      }
      datumDepth := datumDepth + 1;
      r := ReadDatumRecImpl(old(datumDepth));
      if r.Ok? {
        datumDepth := datumDepth - 1;
      }
    }

    // The state as the caller of the wrapper sees it.
    ghost function Outside(depth: nat): State
      reads this
    {
      St().(depth := depth)
    }

    ghost predicate Inside(depth: nat, want: Result<(Value, State)>, got: Result<Value>)
      reads this
    {
      match want
      case Abort => got.Abort?
      case Ok((v, st)) => got == Ok(v) && Outside(depth) == st && datumDepth == depth + 1
    }

    method ReadDatumRecImpl(ghost depth: nat) returns (r: Result<Value>)
      requires bufPos <= |inp.buf| && depth < MAX_DATUM_DEPTH && datumDepth == depth + 1
      modifies this
      ensures Inside(depth, ReadRec(inp, old(Outside(depth))), r)
      decreases |inp.buf| - bufPos, 1
    {
      var tag := MustRead(1);
      if tag.Abort? {
        return Abort;
      }
      if tag.value[0] == TAG_LABEL_REF {
        var id := ReadI32();
        if id.Abort? {
          return Abort;
        }
        var v := DatumLabelFind(id.value);
        return if v.Some? then Ok(v.value) else Abort;
      }
      var defId := -1;
      if tag.value[0] == TAG_LABEL_DEF {
        var id := ReadI32();
        if id.Abort? {
          return Abort;
        }
        defId := id.value;
        tag := MustRead(1);
        if tag.Abort? {
          return Abort;
        }
      }
      r := ReadTaggedDatum(tag.value[0], defId, depth);
    }

    // The switch on the tag, with the label that preceded it, if any.
    method ReadTaggedDatum(tag: byte, defId: int, ghost depth: nat) returns (r: Result<Value>)
      requires bufPos <= |inp.buf| && depth < MAX_DATUM_DEPTH && datumDepth == depth + 1
      modifies this
      ensures Inside(depth, ReadTagged(inp, old(Outside(depth)), tag, defId), r)
      decreases |inp.buf| - bufPos, 4
    {
      if tag == TAG_PAIR {
        r := ReadIntoContainer(false, 2, defId, depth);
      } else if tag == TAG_VECTOR {
        var n := ReadCount();
        if n.Abort? {
          return Abort;
        }
        r := ReadIntoContainer(true, n.value, defId, depth);
      } else {
        var l := ReadLeaf(tag);
        if l.Abort? {
          return Abort;
        }
        var added := DatumLabelAdd(defId, LeafV(l.value));
        r := if added.Ok? then Ok(LeafV(l.value)) else Abort;
      }
    }

    // Allocate, register under the label, then read and patch field after field.
    method ReadIntoContainer(vector: bool, n: nat, defId: int, ghost depth: nat) returns (r: Result<Value>)
      requires bufPos <= |inp.buf| && depth < MAX_DATUM_DEPTH && datumDepth == depth + 1 && (!vector ==> n == 2)
      modifies this
      ensures Inside(depth, ReadContainer(inp, old(Outside(depth)), vector, n, defId), r)
      decreases |inp.buf| - bufPos, 3, 1
    {
      hide ReadParts;
      var (c, g) := Allocate(heap, vector, n);
      heap := g;
      assert HasFields(heap, c, n);
      var added := DatumLabelAdd(defId, c);
      if added.Abort? {
        return Abort;
      }
      var patched := ReadFields(c, n);
      return if patched then Ok(c) else Abort;
    }

    // The fields of a container, read and patched one after the other.
    method ReadFields(c: Value, n: nat) returns (ok: bool)
      requires bufPos <= |inp.buf| && HasFields(heap, c, n)
      modifies this
      ensures match ReadParts(inp, old(St()), c, n, n)
        case Abort => !ok
        case Ok(st) => ok && St() == st && datumDepth == old(datumDepth)
      decreases |inp.buf| - bufPos, 3, 0
    {
      hide ReadRec, SetField, HasFields, ReadParts;
      ghost var start := St();
      ReadNoParts(inp, start, c, n);
      for k := 0 to n
        invariant old(bufPos) <= bufPos <= |inp.buf|
        invariant ReadParts(inp, start, c, n, k) == Ok(St()) && datumDepth == start.depth
      {
        ReadOneMore(inp, start, c, n, k);
        var x := ReadDatumRec();
        if x.Abort? {
          AbortLasts(inp, start, c, n, k + 1, n);
          return false;
        }
        heap := SetField(heap, c, k, x.value);
      }
      return true;
    }
  }
}
