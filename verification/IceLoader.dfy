/** What the datum reader of the ICE loader computes (icecreme/loader.c): the bytes of one labelled datum
    become fresh pairs and vectors, with containers registered under their label before their contents are
    read, so that a reference inside the contents closes a cycle. */
module IceLoader {
  import opened Util
  import opened Decimal
  import opened SchemeHeap
  import opened LabelledDatum
  import opened IceFormat

  // The decompressed body and the string pool read from its front.
  datatype Input = Input(buf: seq<byte>, pool: seq<seq<byte>>)

  // A label table entry.
  datatype DatumLabel = DatumLabel(id: nat, value: Value)

  // buf_pos, the heap so far, labels[0..n_labels] and datum_depth.
  datatype State = State(pos: nat, heap: Heap, labels: seq<DatumLabel>, depth: nat)

  // ---- primitive reads

  function MustRead(inp: Input, pos: nat, n: nat): (r: Result<seq<byte>>)
    ensures r.Ok? ==> |r.value| == n && pos + n <= |inp.buf|
  {
    if pos + n > |inp.buf| then Abort else Ok(inp.buf[pos..pos + n])
  }

  function ReadI32(inp: Input, pos: nat): (r: Result<int>)
    ensures r.Ok? ==> pos + 4 <= |inp.buf|
  {
    match MustRead(inp, pos, 4) case Abort => Abort case Ok(b) => Ok(Signed(b))
  }

  function ReadCount(inp: Input, pos: nat): (r: Result<nat>)
    ensures r.Ok? ==> pos + 4 <= |inp.buf| && r.value <= MAX_COUNT
  {
    match ReadI32(inp, pos)
    case Abort => Abort
    case Ok(n) => if n < 0 || n > MAX_COUNT then Abort else Ok(n)
  }

  function ReadPooled(inp: Input, pos: nat): (r: Result<seq<byte>>)
    ensures r.Ok? ==> pos + 3 <= |inp.buf|
  {
    match MustRead(inp, pos, 3)
    case Abort => Abort
    case Ok(b) => if Unsigned(b) >= |inp.pool| then Abort else Ok(inp.pool[Unsigned(b)])
  }

  // A length-prefixed run of bytes.
  function ReadCounted(inp: Input, pos: nat): (r: Result<seq<byte>>)
    ensures r.Ok? ==> pos + 4 + |r.value| <= |inp.buf|
  {
    match ReadCount(inp, pos)
    case Abort => Abort
    case Ok(n) => MustRead(inp, pos + 4, n)
  }

  // The payload after the tag byte of a leaf, and where it ends.
  function ReadLeaf(inp: Input, tag: byte, pos: nat): (r: Result<(Leaf, nat)>)
    ensures r.Ok? ==> pos <= r.value.1 <= |inp.buf| || r.value.1 == pos
  {
    if tag == TAG_INT then
      match ReadCounted(inp, pos)
      case Abort => Abort
      case Ok(text) =>
        (match ParseInteger(text)
         case None => Abort
         case Some(n) => Ok((IntegerLeaf(n), pos + 4 + |text|)))
    else if tag == TAG_FLOAT then
      match MustRead(inp, pos, 8) case Abort => Abort case Ok(b) => Ok((Leaf(T_FLOAT, AsInts(b)), pos + 8))
    else if tag == TAG_SYM then
      match ReadPooled(inp, pos) case Abort => Abort case Ok(s) => Ok((Leaf(T_SYM, AsInts(s)), pos + 3))
    else if tag == TAG_STR then
      match ReadPooled(inp, pos) case Abort => Abort case Ok(s) => Ok((Leaf(T_STR, AsInts(s)), pos + 3))
    else if tag == TAG_BOOL then
      match MustRead(inp, pos, 1)
      case Abort => Abort
      case Ok(b) => Ok((Leaf(T_BOOL, [if b[0] != 0 then 1 else 0]), pos + 1))
    else if tag == TAG_NIL then Ok((NIL, pos))
    else if tag == TAG_CHAR then
      match MustRead(inp, pos, 8) case Abort => Abort case Ok(b) => Ok((Leaf(T_CHAR, [Signed(b)]), pos + 8))
    else if tag == TAG_BLOB then
      match ReadCounted(inp, pos)
      case Abort => Abort
      case Ok(b) => Ok((Leaf(T_BYTEVECTOR, AsInts(b)), pos + 4 + |b|))
    else Abort
  }

  // ---- labels

  function FindLabel(labels: seq<DatumLabel>, id: int): Option<Value> {
    if labels == [] then None
    else if labels[0].id == id then Some(labels[0].value)
    else FindLabel(labels[1..], id)
  }

  // Registers v if the datum carries a label; negative ids stand for "no label".
  function AddLabel(st: State, id: int, v: Value): (r: Result<State>)
    ensures r.Ok? ==> r.value.pos == st.pos && r.value.heap == st.heap && r.value.depth == st.depth
  {
    if id < 0 then Ok(st)
    else if |st.labels| >= LABELS_CAP then Abort
    else Ok(st.(labels := st.labels + [DatumLabel(id, v)]))
  }

  // ---- containers: allocated zeroed, patched field by field

  function Allocate(h: Heap, vector: bool, n: nat): (Value, Heap) {
    if vector then (VecV(|h.vecs|), h.(vecs := h.vecs + [seq(n, _ => LeafV(NIL))]))
    else (PairV(|h.pairs|), h.(pairs := h.pairs + [(LeafV(NIL), LeafV(NIL))]))
  }

  function SetField(h: Heap, c: Value, k: nat, x: Value): Heap
    requires InHeap(h, c) && k < |Fields(h, c)|
  {
    match c
    case LeafV(_) => h
    case PairV(p) => h.(pairs := h.pairs[p := if k == 0 then (x, h.pairs[p].1) else (h.pairs[p].0, x)])
    case VecV(i) => h.(vecs := h.vecs[i := h.vecs[i][k := x]])
  }

  // c is a container with n fields.
  predicate HasFields(h: Heap, c: Value, n: nat) {
    InHeap(h, c) && !c.LeafV? && |Fields(h, c)| == n
  }

  // Containers are never freed or resized.
  ghost predicate KeepsContainers(h: Heap, g: Heap) {
    && |h.pairs| <= |g.pairs| && |h.vecs| <= |g.vecs|
    && forall i :: 0 <= i < |h.vecs| ==> |h.vecs[i]| == |g.vecs[i]|
  }

  // read_datum_rec: the depth check, then the datum.
  function ReadRec(inp: Input, st: State): (r: Result<(Value, State)>)
    ensures r.Ok? ==> st.pos < r.value.1.pos <= |inp.buf| && KeepsContainers(st.heap, r.value.1.heap)
    ensures r.Ok? ==> r.value.1.depth == st.depth
    decreases |inp.buf| - st.pos, 0
  {
    if st.depth >= MAX_DATUM_DEPTH then Abort
    else
      match MustRead(inp, st.pos, 1)
      case Abort => Abort
      case Ok(b) =>
        if b[0] == TAG_LABEL_REF then
          match ReadI32(inp, st.pos + 1)
          case Abort => Abort
          case Ok(id) =>
            (match FindLabel(st.labels, id)
             case None => Abort
             case Some(v) => Ok((v, st.(pos := st.pos + 5))))
        else if b[0] == TAG_LABEL_DEF then
          match ReadI32(inp, st.pos + 1)
          case Abort => Abort
          case Ok(id) =>
            (match MustRead(inp, st.pos + 5, 1)
             case Abort => Abort
             case Ok(t) => ReadTagged(inp, st.(pos := st.pos + 6), t[0], id))
        else ReadTagged(inp, st.(pos := st.pos + 1), b[0], -1)
  }

  // The switch of read_datum_rec_impl, on the tag after an optional label.
  function ReadTagged(inp: Input, st: State, tag: byte, id: int): (r: Result<(Value, State)>)
    requires st.depth < MAX_DATUM_DEPTH
    ensures r.Ok? && st.pos <= |inp.buf| ==> st.pos <= r.value.1.pos <= |inp.buf|
    ensures r.Ok? ==> KeepsContainers(st.heap, r.value.1.heap) && r.value.1.depth == st.depth
    decreases if st.pos <= |inp.buf| then |inp.buf| - st.pos else 0, 3
  {
    if st.pos > |inp.buf| then Abort
    else if tag == TAG_PAIR then ReadContainer(inp, st, false, 2, id)
    else if tag == TAG_VECTOR then
      match ReadCount(inp, st.pos)
      case Abort => Abort
      case Ok(n) => ReadContainer(inp, st.(pos := st.pos + 4), true, n, id)
    else
      match ReadLeaf(inp, tag, st.pos)
      case Abort => Abort
      case Ok((l, pos)) =>
        (match AddLabel(st.(pos := pos), id, LeafV(l))
         case Abort => Abort
         case Ok(st') => Ok((LeafV(l), st')))
  }

  function ReadContainer(inp: Input, st: State, vector: bool, n: nat, id: int): (r: Result<(Value, State)>)
    requires st.depth < MAX_DATUM_DEPTH && st.pos <= |inp.buf| && (!vector ==> n == 2)
    ensures r.Ok? ==> st.pos <= r.value.1.pos <= |inp.buf| && KeepsContainers(st.heap, r.value.1.heap)
    decreases |inp.buf| - st.pos, 2
  {
    var (c, h) := Allocate(st.heap, vector, n);
    match AddLabel(st.(heap := h), id, c)
    case Abort => Abort
    case Ok(labelled) =>
      match ReadParts(inp, labelled.(depth := st.depth + 1), c, n, n)
      case Abort => Abort
      case Ok(st') => Ok((c, st'.(depth := st.depth)))
  }

  // The first k fields of the container c, read and patched in order.
  function ReadParts(inp: Input, st: State, c: Value, n: nat, k: nat): (r: Result<State>)
    requires st.pos <= |inp.buf| && HasFields(st.heap, c, n) && k <= n
    ensures r.Ok? ==> st.pos <= r.value.pos <= |inp.buf| && KeepsContainers(st.heap, r.value.heap)
    ensures r.Ok? ==> HasFields(r.value.heap, c, n)
    decreases |inp.buf| - st.pos, 1, k
  {
    if k == 0 then Ok(st)
    else
      match ReadParts(inp, st, c, n, k - 1)
      case Abort => Abort
      case Ok(mid) =>
        match ReadRec(inp, mid)
        case Abort => Abort
        case Ok((x, st')) => Ok(st'.(heap := SetField(st'.heap, c, k - 1, x), depth := st.depth))
  }

  // ReadParts unfolded once.
  lemma ReadNoParts(inp: Input, st: State, c: Value, n: nat)
    requires st.pos <= |inp.buf| && HasFields(st.heap, c, n)
    ensures ReadParts(inp, st, c, n, 0) == Ok(st)
  {
  }

  lemma ReadOneMore(inp: Input, st: State, c: Value, n: nat, k: nat)
    requires st.pos <= |inp.buf| && HasFields(st.heap, c, n) && k < n
    ensures ReadParts(inp, st, c, n, k).Abort? ==> ReadParts(inp, st, c, n, k + 1).Abort?
    ensures ReadParts(inp, st, c, n, k).Ok? ==>
      var mid := ReadParts(inp, st, c, n, k).value;
      match ReadRec(inp, mid) {
        case Abort => ReadParts(inp, st, c, n, k + 1).Abort?
        case Ok((x, after)) =>
          && InHeap(after.heap, c) && k < |Fields(after.heap, c)|
          && ReadParts(inp, st, c, n, k + 1) == Ok(after.(heap := SetField(after.heap, c, k, x), depth := st.depth))
      }
  {
    hide ReadRec, SetField;
  }

  // ---- what is refused

  // k is the first label with this number.
  predicate FirstLabel(labels: seq<DatumLabel>, id: int, k: nat) {
    k < |labels| && labels[k].id == id && forall j :: 0 <= j < k ==> labels[j].id != id
  }

  lemma {:induction false} LabelFound(labels: seq<DatumLabel>, id: int)
    ensures FindLabel(labels, id).None? ==> forall k :: 0 <= k < |labels| ==> labels[k].id != id
    ensures FindLabel(labels, id).Some? ==>
      exists k: nat :: FirstLabel(labels, id, k) && labels[k].value == FindLabel(labels, id).value
  {
    if labels == [] {
    } else if labels[0].id == id {
      assert FirstLabel(labels, id, 0);
    } else {
      var rest := labels[1..];
      LabelFound(rest, id);
      assert forall k :: 0 < k < |labels| ==> labels[k] == rest[k - 1];
      if FindLabel(rest, id).Some? {
        var k: nat :| FirstLabel(rest, id, k) && rest[k].value == FindLabel(rest, id).value;
        assert FirstLabel(labels, id, k + 1);
      }
    }
  }

  // Where fewer bytes are left than a field takes, where a count is negative or above 2^21, where a string is not in the
  // pool, and at a tag that is none of the ten, loading is refused.
  lemma Refusals(inp: Input, st: State, tag: byte, id: int)
    requires st.depth < 4000 && st.pos <= |inp.buf|
    ensures tag !in [0, 1, 4, 5, 6, 7, 8, 9, 10, 11] ==> ReadTagged(inp, st, tag, id).Abort?
    ensures tag in [0, 10, 11] && |inp.buf| - st.pos < 4 ==> ReadTagged(inp, st, tag, id).Abort?
    ensures tag in [0, 10, 11] && |inp.buf| - st.pos >= 4 ==>
      var n := Signed(inp.buf[st.pos..st.pos + 4]);
      n < 0 || n > 0x20_0000 || (tag != 10 && |inp.buf| - st.pos - 4 < n) ==> ReadTagged(inp, st, tag, id).Abort?
    ensures tag in [1, 8] && |inp.buf| - st.pos < 8 ==> ReadTagged(inp, st, tag, id).Abort?
    ensures tag in [4, 5] && |inp.buf| - st.pos < 3 ==> ReadTagged(inp, st, tag, id).Abort?
    ensures tag in [4, 5] && |inp.buf| - st.pos >= 3 && Unsigned(inp.buf[st.pos..st.pos + 3]) >= |inp.pool| ==>
      ReadTagged(inp, st, tag, id).Abort?
    ensures tag == 6 && |inp.buf| == st.pos ==> ReadTagged(inp, st, tag, id).Abort?
    ensures id >= 0 && |st.labels| >= 256 ==> ReadTagged(inp, st, tag, id).Abort?
  {
    hide ReadParts, Signed, Unsigned, ParseInteger;
  }

  // Any byte but zero is true.
  lemma AnyByteIsABoolean(inp: Input, pos: nat)
    requires pos < |inp.buf|
    ensures ReadLeaf(inp, 6, pos) == Ok((Leaf(1, [if inp.buf[pos] == 0 then 0 else 1]), pos + 1))
  {
  }
}
