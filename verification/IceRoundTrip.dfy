/** Loading what the serializer wrote: exactly when it succeeds, and that it builds a heap which the labelled
    datum describes, object for object. */
module IceRoundTrip {
  import opened Util
  import opened Decimal
  import opened SchemeHeap
  import opened LabelledDatum
  import opened IceFormat
  import opened IceLoader

  // ---- exactly what the loader's caps admit

  predicate LeafFits(l: Leaf)
  {
    && ((l.tag == T_INT || l.tag == T_BIGINT) && |l.payload| == 1 ==> |DecimalText(l.payload[0])| <= MAX_COUNT)
    && (l.tag == T_BYTEVECTOR ==> |l.payload| <= MAX_COUNT)
  }

  function Labels(s: Syn): nat
    decreases s, 0
  {
    match s
    case Atom(_) => 0
    case Ref(_) => 0
    case Def(_, d) => 1 + Labels(d)
    case Node(_, parts) => LabelsOfParts(s, |parts|)
  }

  function LabelsOfParts(s: Syn, k: nat): nat
    requires s.Node? && k <= |s.parts|
    decreases s, 0, k
  {
    if k == 0 then 0 else LabelsOfParts(s, k - 1) + Labels(s.parts[k - 1])
  }

  // The text fits when it starts at this nesting depth with n labels in the table.
  predicate Fits(s: Syn, depth: nat, n: nat)
    decreases s, 0
  {
    depth < MAX_DATUM_DEPTH &&
    match s
    case Atom(l) => LeafFits(l)
    case Ref(_) => true
    case Def(_, d) => n < LABELS_CAP && Fits(d, depth, n + 1)
    case Node(vector, parts) => (vector ==> |parts| <= MAX_COUNT) && PartsFit(s, |parts|, depth + 1, n)
  }

  predicate PartsFit(s: Syn, k: nat, depth: nat, n: nat)
    requires s.Node? && k <= |s.parts|
    decreases s, 0, k
  {
    k == 0 || (PartsFit(s, k - 1, depth, n) && Fits(s.parts[k - 1], depth, n + LabelsOfParts(s, k - 1)))
  }

  // ---- leaves

  ghost predicate At(inp: Input, pos: nat, bytes: seq<byte>) {
    pos + |bytes| <= |inp.buf| && inp.buf[pos..pos + |bytes|] == bytes
  }

  lemma AtSplit(inp: Input, pos: nat, a: seq<byte>, b: seq<byte>)
    requires At(inp, pos, a + b)
    ensures At(inp, pos, a) && At(inp, pos + |a|, b)
  {
    assert inp.buf[pos..pos + |a|] == (a + b)[..|a|];
    assert inp.buf[pos + |a|..pos + |a| + |b|] == (a + b)[|a|..];
  }

  lemma I32Read(inp: Input, pos: nat, n: nat)
    requires FitsInt32(n) && At(inp, pos, I32(n))
    ensures ReadI32(inp, pos) == Ok(n)
    ensures ReadCount(inp, pos) == if n <= MAX_COUNT then Ok(n) else Abort
  {
    Pow256Values();
    LittleEndianRoundTrip(n, 4);
  }

  lemma CountedRead(inp: Input, pos: nat, bytes: seq<byte>)
    requires FitsInt32(|bytes|) && At(inp, pos, I32(|bytes|) + bytes)
    ensures ReadCounted(inp, pos) == if |bytes| <= MAX_COUNT then Ok(bytes) else Abort
  {
    AtSplit(inp, pos, I32(|bytes|), bytes);
    I32Read(inp, pos, |bytes|);
  }

  lemma PooledRead(inp: Input, pos: nat, s: seq<byte>)
    requires s in inp.pool && |inp.pool| <= 0xFF_FFFF && At(inp, pos, LittleEndian(PoolIndex(inp.pool, s), 3))
    ensures ReadPooled(inp, pos) == Ok(s)
  {
    Pow256Values();
    LittleEndianRoundTrip(PoolIndex(inp.pool, s), 3);
  }

  ghost predicate Loads(inp: Input, l: Leaf, pos: nat)
    requires Serialisable(inp.pool, l)
  {
    var code := EncodeLeaf(inp.pool, l);
    ReadLeaf(inp, code[0], pos + 1) == if LeafFits(l) then Ok((l, pos + |code|)) else Abort
  }

  lemma TagThenRest(inp: Input, pos: nat, code: seq<byte>)
    requires |code| >= 1 && At(inp, pos, code)
    ensures At(inp, pos, [code[0]]) && At(inp, pos + 1, code[1..])
  {
    assert code == [code[0]] + code[1..];
    AtSplit(inp, pos, [code[0]], code[1..]);
  }

  lemma IntegerEncoding(pool: seq<seq<byte>>, l: Leaf)
    requires Serialisable(pool, l) && (l.tag == T_INT || l.tag == T_BIGINT)
    ensures |l.payload| == 1 && l == IntegerLeaf(l.payload[0]) && FitsInt32(|DecimalText(l.payload[0])|)
    ensures var text := DecimalText(l.payload[0]); EncodeLeaf(pool, l) == [TAG_INT] + (I32(|text|) + text)
  {
    hide DecimalText, I32;
  }

  lemma IntegerLeafLoads(inp: Input, l: Leaf, pos: nat)
    requires Serialisable(inp.pool, l) && At(inp, pos, EncodeLeaf(inp.pool, l)) && (l.tag == T_INT || l.tag == T_BIGINT)
    ensures Loads(inp, l, pos)
  {
    hide At, Serialisable, EncodeLeaf, DecimalText, ParseInteger, I32, ReadCounted;
    IntegerEncoding(inp.pool, l);
    var text := DecimalText(l.payload[0]);
    AtSplit(inp, pos, [TAG_INT], I32(|text|) + text);
    CountedRead(inp, pos + 1, text);
    IntegerRoundTrip(l.payload[0]);
  }

  lemma BlobEncoding(pool: seq<seq<byte>>, l: Leaf)
    requires Serialisable(pool, l) && l.tag == T_BYTEVECTOR
    ensures AreBytes(l.payload) && FitsInt32(|l.payload|)
    ensures EncodeLeaf(pool, l) == [TAG_BLOB] + (I32(|l.payload|) + AsBytes(l.payload))
  {
    hide DecimalText, I32;
  }

  lemma BlobLoads(inp: Input, l: Leaf, pos: nat)
    requires Serialisable(inp.pool, l) && At(inp, pos, EncodeLeaf(inp.pool, l)) && l.tag == T_BYTEVECTOR
    ensures Loads(inp, l, pos)
  {
    hide At, Serialisable, EncodeLeaf, I32, ReadCounted;
    BlobEncoding(inp.pool, l);
    var bytes := AsBytes(l.payload);
    AtSplit(inp, pos, [TAG_BLOB], I32(|l.payload|) + bytes);
    CountedRead(inp, pos + 1, bytes);
    assert AsInts(bytes) == l.payload;
  }

  lemma FixedLeafLoads(inp: Input, l: Leaf, pos: nat)
    requires Serialisable(inp.pool, l) && At(inp, pos, EncodeLeaf(inp.pool, l))
    requires l == NIL || l.tag == T_BOOL || l.tag == T_FLOAT || l.tag == T_CHAR
    ensures Loads(inp, l, pos)
  {
    var code := EncodeLeaf(inp.pool, l);
    TagThenRest(inp, pos, code);
    if l.tag == T_BOOL {
      assert code[1..] == [l.payload[0]];
    } else if l.tag == T_FLOAT {
      assert code[1..] == AsBytes(l.payload);
      assert AsInts(AsBytes(l.payload)) == l.payload;
    } else if l.tag == T_CHAR {
      Pow256Values();
      assert code[1..] == SignedLittleEndian(l.payload[0], 8);
      SignedRoundTrip(l.payload[0], 8);
      assert l.payload == [l.payload[0]];
    }
  }

  lemma PooledLeafLoads(inp: Input, l: Leaf, pos: nat)
    requires Serialisable(inp.pool, l) && |inp.pool| <= 0xFF_FFFF && At(inp, pos, EncodeLeaf(inp.pool, l))
    requires l.tag == T_SYM || l.tag == T_STR
    ensures Loads(inp, l, pos)
  {
    var code := EncodeLeaf(inp.pool, l);
    TagThenRest(inp, pos, code);
    assert code[1..] == LittleEndian(PoolIndex(inp.pool, AsBytes(l.payload)), 3);
    PooledRead(inp, pos + 1, AsBytes(l.payload));
    assert AsInts(AsBytes(l.payload)) == l.payload;
  }

  lemma LeafLoads(inp: Input, l: Leaf, pos: nat)
    requires Serialisable(inp.pool, l) && |inp.pool| <= 0xFF_FFFF && At(inp, pos, EncodeLeaf(inp.pool, l))
    ensures Loads(inp, l, pos)
  {
    hide Loads, At, EncodeLeaf, Serialisable;
    if l == NIL || l.tag == T_BOOL || l.tag == T_FLOAT || l.tag == T_CHAR {
      FixedLeafLoads(inp, l, pos);
    } else if l.tag == T_SYM || l.tag == T_STR {
      PooledLeafLoads(inp, l, pos);
    } else if l.tag == T_BYTEVECTOR {
      BlobLoads(inp, l, pos);
    } else {
      SerialisableTags(inp.pool, l);
      IntegerLeafLoads(inp, l, pos);
    }
  }

  lemma SerialisableTags(pool: seq<seq<byte>>, l: Leaf)
    requires Serialisable(pool, l)
    ensures l == NIL || l.tag in {T_BOOL, T_FLOAT, T_CHAR, T_SYM, T_STR, T_INT, T_BIGINT, T_BYTEVECTOR}
  {
  }

  // ---- containers

  // All of h is still there in g, unchanged except perhaps for the container c.
  ghost predicate KeepsBut(h: Heap, g: Heap, c: Value) {
    && |h.pairs| <= |g.pairs| && |h.vecs| <= |g.vecs|
    && forall o :: InHeap(h, o) && o != c ==> Fields(g, o) == Fields(h, o)
  }

  // Objects allocated between h and g.
  ghost predicate AllFresh(h: Heap, g: Heap, objs: seq<Value>) {
    forall i :: 0 <= i < |objs| ==> !objs[i].LeafV? && !InHeap(h, objs[i]) && InHeap(g, objs[i])
  }

  // A description survives in any heap that keeps the objects it shows, under any larger label assignment.
  lemma {:induction false} DescriptionLifts(h: Heap, e: map<nat, Value>, s: Syn, v: Value, g: Heap, f: map<nat, Value>)
    requires WellFormed(h) && InHeap(h, v) && WellFormed(g) && InHeap(g, v) && Describes(h, e, s, v)
    requires AllKept(h, g, Shown(h, s, v))
    requires forall n :: n in e ==> n in f && f[n] == e[n]
    ensures Describes(g, f, s, v) && Shown(g, s, v) == Shown(h, s, v)
    decreases s, 0
  {
    match s
    case Atom(_) =>
    case Ref(_) =>
    case Def(_, d) => DescriptionLifts(h, e, d, v, g, f);
    case Node(_, parts) =>
      assert Shown(h, s, v)[0] == v;
      AllKeptSplit(h, g, [v], ShownParts(h, s, v, |parts|));
      PartsLift(h, e, s, v, g, f, |parts|);
  }

  ghost predicate Kept(h: Heap, g: Heap, o: Value) {
    InHeap(h, o) && InHeap(g, o) && Fields(g, o) == Fields(h, o)
  }

  ghost predicate AllKept(h: Heap, g: Heap, objs: seq<Value>) {
    forall i :: 0 <= i < |objs| ==> Kept(h, g, objs[i])
  }

  lemma AllKeptSplit(h: Heap, g: Heap, a: seq<Value>, b: seq<Value>)
    requires AllKept(h, g, a + b)
    ensures AllKept(h, g, a) && AllKept(h, g, b)
  {
    assert forall i :: 0 <= i < |a| ==> a[i] == (a + b)[i];
    assert forall i :: 0 <= i < |b| ==> b[i] == (a + b)[|a| + i];
  }

  // The same for the first k parts of a node whose other fields may still change.
  lemma {:induction false} PartsLift(h: Heap, e: map<nat, Value>, s: Syn, v: Value, g: Heap, f: map<nat, Value>, k: nat)
    requires WellFormed(h) && InHeap(h, v) && WellFormed(g) && InHeap(g, v) && s.Node? && k <= |s.parts|
    requires RightKind(h, v, s) && RightKind(g, v, s)
    requires forall j :: 0 <= j < k ==> Field(g, v, j) == Field(h, v, j) && Describes(h, e, s.parts[j], Field(h, v, j))
    requires AllKept(h, g, ShownParts(h, s, v, k))
    requires forall n :: n in e ==> n in f && f[n] == e[n]
    ensures forall j :: 0 <= j < k ==> Describes(g, f, s.parts[j], Field(g, v, j))
    ensures ShownParts(g, s, v, k) == ShownParts(h, s, v, k)
    decreases s, 0, k
  {
    if k == 0 {
      hide Describes;
    } else {
      hide WellFormed, Kept, AllKept, Describes, Shown, ShownParts, Fields;
      ShownOneMore(h, s, v, k);
      ShownOneMore(g, s, v, k);
      AllKeptSplit(h, g, ShownParts(h, s, v, k - 1), Shown(h, s.parts[k - 1], Field(h, v, k - 1)));
      PartsLift(h, e, s, v, g, f, k - 1);
      DescriptionLifts(h, e, s.parts[k - 1], Field(h, v, k - 1), g, f);
    }
  }

  lemma ShownOneMore(h: Heap, s: Syn, v: Value, k: nat)
    requires WellFormed(h) && InHeap(h, v) && s.Node? && RightKind(h, v, s) && 0 < k <= |s.parts|
    ensures ShownParts(h, s, v, k) == ShownParts(h, s, v, k - 1) + Shown(h, s.parts[k - 1], Field(h, v, k - 1))
  {
  }

  // ---- labels

  function Ids(labels: seq<DatumLabel>): set<nat> {
    set l | l in labels :: l.id
  }

  lemma {:induction false} FindKnown(labels: seq<DatumLabel>, id: nat)
    ensures FindLabel(labels, id).Some? <==> id in Ids(labels)
    ensures FindLabel(labels, id).Some? ==> DatumLabel(id, FindLabel(labels, id).value) in labels
  {
    if labels != [] && labels[0].id != id {
      FindKnown(labels[1..], id);
      assert forall l :: l in labels <==> l == labels[0] || l in labels[1..];
    }
  }

  ghost function EnvOf(labels: seq<DatumLabel>): map<nat, Value> {
    map id | id in Ids(labels) :: (FindKnown(labels, id); FindLabel(labels, id).value)
  }

  // A later definition never shadows an earlier one.
  lemma {:induction false} FindInPrefix(labels: seq<DatumLabel>, more: seq<DatumLabel>, id: nat)
    requires labels <= more && id in Ids(labels)
    ensures FindLabel(more, id) == FindLabel(labels, id)
  {
    FindKnown(labels, id);
    if labels[0].id != id {
      assert labels[1..] <= more[1..];
      assert forall l :: l in labels <==> l == labels[0] || l in labels[1..];
      FindInPrefix(labels[1..], more[1..], id);
    }
  }

  lemma EnvGrows(labels: seq<DatumLabel>, more: seq<DatumLabel>)
    requires labels <= more
    ensures forall n :: n in EnvOf(labels) ==> n in EnvOf(more) && EnvOf(more)[n] == EnvOf(labels)[n]
  {
    forall n | n in EnvOf(labels) ensures n in EnvOf(more) && EnvOf(more)[n] == EnvOf(labels)[n] {
      FindInPrefix(labels, more, n);
      FindKnown(more, n);
    }
  }

  lemma {:induction false} FindAdded(labels: seq<DatumLabel>, id: nat, v: Value)
    requires id !in Ids(labels)
    ensures var more := labels + [DatumLabel(id, v)];
      FindLabel(more, id) == Some(v) && Ids(more) == Ids(labels) + {id} && EnvOf(more)[id] == v
  {
    var more := labels + [DatumLabel(id, v)];
    assert forall l :: l in more <==> l in labels || l == DatumLabel(id, v);
    if labels != [] {
      assert labels[0] in labels && labels[0].id in Ids(labels);
      assert more[1..] == labels[1..] + [DatumLabel(id, v)];
      assert forall l :: l in labels[1..] ==> l in labels;
      FindAdded(labels[1..], id, v);
    }
    FindKnown(more, id);
  }

  // ---- one datum

  ghost predicate StateOk(st: State) {
    && WellFormed(st.heap)
    && forall l :: l in st.labels ==> InHeap(st.heap, l.value)
  }

  // What loading s from st promises about the value v and the state it leaves.
  ghost predicate LoadedAs(inp: Input, s: Syn, st: State, v: Value, st': State)
    requires Encodable(inp.pool, s) && Scope(s, Ids(st.labels)).Some?
  {
    && StateOk(st') && InHeap(st'.heap, v)
    && st'.pos == st.pos + |Encode(inp.pool, s)| && st'.depth == st.depth
    && KeepsBut(st.heap, st'.heap, LeafV(NIL))
    && st.labels <= st'.labels && |st'.labels| == |st.labels| + Labels(s)
    && Ids(st'.labels) == Scope(s, Ids(st.labels)).value
    && Describes(st'.heap, EnvOf(st'.labels), s, v)
    && AllFresh(st.heap, st'.heap, Shown(st'.heap, s, v)) && Distinct(Shown(st'.heap, s, v))
  }

  // The same for the first k parts of a node, whose container c was allocated beforehand.
  ghost predicate PartsLoadedAs(inp: Input, s: Syn, k: nat, st: State, c: Value, st': State)
    requires Encodable(inp.pool, s) && s.Node? && k <= |s.parts| && ScopeParts(s, k, Ids(st.labels)).Some?
  {
    && StateOk(st') && InHeap(st'.heap, c) && RightKind(st'.heap, c, s)
    && st'.pos == st.pos + |EncodeParts(inp.pool, s, k)| && st'.depth == st.depth
    && KeepsBut(st.heap, st'.heap, c)
    && st.labels <= st'.labels && |st'.labels| == |st.labels| + LabelsOfParts(s, k)
    && Ids(st'.labels) == ScopeParts(s, k, Ids(st.labels)).value
    && (forall j :: 0 <= j < k ==> Describes(st'.heap, EnvOf(st'.labels), s.parts[j], Field(st'.heap, c, j)))
    && AllFresh(st.heap, st'.heap, ShownParts(st'.heap, s, c, k)) && Distinct(ShownParts(st'.heap, s, c, k))
  }

  // The datum an optional label and what follows it stand for.
  function WithLabel(id: int, d: Syn): Syn {
    if id < 0 then d else Def(id, d)
  }

  lemma EncodeStart(pool: seq<seq<byte>>, d: Syn)
    requires Encodable(pool, d)
    ensures var tag := Encode(pool, d)[0];
      && (tag == TAG_LABEL_REF <==> d.Ref?) && (tag == TAG_LABEL_DEF <==> d.Def?)
      && (d.Node? ==> tag == if d.vector then TAG_VECTOR else TAG_PAIR)
      && (d.Atom? ==> tag != TAG_PAIR && tag != TAG_VECTOR)
  {
  }

  // The result r of reading s from st is what it should be: a value exactly if the text fits the caps.
  ghost predicate LoadsAs(inp: Input, s: Syn, st: State, r: Result<(Value, State)>)
    requires Encodable(inp.pool, s) && Scope(s, Ids(st.labels)).Some?
  {
    && (r.Ok? <==> Fits(s, st.depth, |st.labels|))
    && (r.Ok? ==> LoadedAs(inp, s, st, r.value.0, r.value.1))
  }

  ghost predicate PartsLoadAs(inp: Input, s: Syn, k: nat, st: State, c: Value, r: Result<State>)
    requires Encodable(inp.pool, s) && s.Node? && k <= |s.parts| && ScopeParts(s, k, Ids(st.labels)).Some?
  {
    && (r.Ok? <==> PartsFit(s, k, st.depth, |st.labels|))
    && (r.Ok? ==> PartsLoadedAs(inp, s, k, st, c, r.value))
  }

  // The state after an atom with or without a label.
  function AfterAtom(st: State, pos: nat, id: int, l: Leaf): State {
    st.(pos := pos, labels := if id < 0 then st.labels else st.labels + [DatumLabel(id, LeafV(l))])
  }

  lemma AtomLoadedAs(inp: Input, l: Leaf, id: int, st: State)
    requires Encodable(inp.pool, WithLabel(id, Atom(l))) && StateOk(st) && (id >= 0 ==> id !in Ids(st.labels))
    ensures Scope(WithLabel(id, Atom(l)), Ids(st.labels)).Some?
    ensures LoadedAs(inp, WithLabel(id, Atom(l)), st, LeafV(l),
                     AfterAtom(st, st.pos + |Encode(inp.pool, WithLabel(id, Atom(l)))|, id, l))
  {
    var st' := AfterAtom(st, st.pos + |Encode(inp.pool, WithLabel(id, Atom(l)))|, id, l);
    hide Encode, Encodable, Fields, EnvOf, Ids;
    if id >= 0 {
      FindAdded(st.labels, id, LeafV(l));
      LabelStays(st.labels, id, LeafV(l), st'.labels);
    }
    AtomSeen(st'.heap, EnvOf(st'.labels), l, id);
    AtomLabels(l, id, Ids(st.labels));
    hide WellFormed, Describes, Shown, Scope, Labels;
  }

  lemma AtomLabels(l: Leaf, id: int, known: set<nat>)
    requires id >= 0 ==> id !in known
    ensures Scope(WithLabel(id, Atom(l)), known) == Some(if id < 0 then known else known + {id})
    ensures Labels(WithLabel(id, Atom(l))) == if id < 0 then 0 else 1
  {
    assert Scope(Atom(l), if id < 0 then known else known + {id}).Some? && Labels(Atom(l)) == 0;
  }

  lemma AtomSeen(h: Heap, env: map<nat, Value>, l: Leaf, id: int)
    requires WellFormed(h) && (id >= 0 ==> id in env && env[id] == LeafV(l))
    ensures Describes(h, env, WithLabel(id, Atom(l)), LeafV(l)) && Shown(h, WithLabel(id, Atom(l)), LeafV(l)) == []
  {
    assert Describes(h, env, Atom(l), LeafV(l)) && Shown(h, Atom(l), LeafV(l)) == [];
    hide WellFormed;
  }

  lemma TaggedAtom(inp: Input, l: Leaf, id: int, st: State)
    requires Serialisable(inp.pool, l) && |inp.pool| <= 0xFF_FFFF && st.depth < MAX_DATUM_DEPTH
    requires st.pos > 0 && At(inp, st.pos - 1, EncodeLeaf(inp.pool, l))
    ensures var code := EncodeLeaf(inp.pool, l);
      ReadTagged(inp, st, code[0], id) ==
      if LeafFits(l) && (id < 0 || |st.labels| < LABELS_CAP) then
        Ok((LeafV(l), AfterAtom(st, st.pos - 1 + |code|, id, l)))
      else Abort
  {
    hide *;
    var code := EncodeLeaf(inp.pool, l);
    AtomTag(inp.pool, l);
    LeafLoads(inp, l, st.pos - 1);
    AtWithin(inp, st.pos - 1, code);
    LoadsIs(inp, l, st.pos - 1);
    DispatchLeaf(inp, code[0], id, st);
    if LeafFits(l) {
      LabelAdded(st, st.pos - 1 + |code|, id, l);
    }
  }

  lemma AtomTag(pool: seq<seq<byte>>, l: Leaf)
    requires Serialisable(pool, l)
    ensures |EncodeLeaf(pool, l)| >= 1
    ensures EncodeLeaf(pool, l)[0] != TAG_PAIR && EncodeLeaf(pool, l)[0] != TAG_VECTOR
  {
    AtomEncoding(pool, l);
    EncodeStart(pool, Atom(l));
    hide EncodeLeaf, Serialisable;
  }

  lemma LoadsIs(inp: Input, l: Leaf, pos: nat)
    requires Serialisable(inp.pool, l) && Loads(inp, l, pos)
    ensures var code := EncodeLeaf(inp.pool, l);
      ReadLeaf(inp, code[0], pos + 1) == if LeafFits(l) then Ok((l, pos + |code|)) else Abort
  {
    hide EncodeLeaf, Serialisable, ReadLeaf, LeafFits;
  }

  lemma DispatchLeaf(inp: Input, tag: byte, id: int, st: State)
    requires st.depth < MAX_DATUM_DEPTH && st.pos <= |inp.buf| && tag != TAG_PAIR && tag != TAG_VECTOR
    ensures ReadLeaf(inp, tag, st.pos).Abort? ==> ReadTagged(inp, st, tag, id).Abort?
    ensures ReadLeaf(inp, tag, st.pos).Ok? ==>
      var (l, pos) := ReadLeaf(inp, tag, st.pos).value;
      ReadTagged(inp, st, tag, id) == match AddLabel(st.(pos := pos), id, LeafV(l)) {
        case Abort => Abort
        case Ok(st') => Ok((LeafV(l), st'))
      }
  {
    hide ReadLeaf, AddLabel, ReadContainer, ReadCount;
  }

  lemma LabelAdded(st: State, pos: nat, id: int, l: Leaf)
    ensures AddLabel(st.(pos := pos), id, LeafV(l)) ==
      if id < 0 || |st.labels| < LABELS_CAP then Ok(AfterAtom(st, pos, id, l)) else Abort
  {
  }

  // An atom, with or without a label; st is the state after its tag byte.
  lemma AtomLoads(inp: Input, l: Leaf, id: int, st: State, before: State)
    requires Serialisable(inp.pool, l) && |inp.pool| <= 0xFF_FFFF && (id >= 0 ==> FitsInt32(id))
    requires st.pos > 0 && At(inp, st.pos - 1, EncodeLeaf(inp.pool, l)) && st.depth < MAX_DATUM_DEPTH
    requires StateOk(st) && (id >= 0 ==> id !in Ids(st.labels))
    requires before == st.(pos := before.pos)
    requires st.pos - 1 + |EncodeLeaf(inp.pool, l)| == before.pos + |Encode(inp.pool, WithLabel(id, Atom(l)))|
    ensures LoadsAs(inp, WithLabel(id, Atom(l)), before, ReadTagged(inp, st, EncodeLeaf(inp.pool, l)[0], id))
  {
    hide LoadedAs, EncodeLeaf, Serialisable, LeafFits, ReadLeaf, Ids, EnvOf, Encodable, Encode, ReadTagged, At, StateOk;
    hide Scope, Fits, WithLabel;
    AtomEncodable(inp.pool, l, id);
    StateOkAnywhere(st, before.pos);
    AtomFits(l, id, st.depth, |st.labels|);
    TaggedAtom(inp, l, id, st);
    AtomLoadedAs(inp, l, id, before);
  }

  lemma AtomEncodable(pool: seq<seq<byte>>, l: Leaf, id: int)
    requires Serialisable(pool, l) && (id >= 0 ==> FitsInt32(id))
    ensures Encodable(pool, WithLabel(id, Atom(l)))
  {
    hide Serialisable;
  }

  lemma AtomFits(l: Leaf, id: int, depth: nat, n: nat)
    requires depth < MAX_DATUM_DEPTH
    ensures Fits(WithLabel(id, Atom(l)), depth, n) <==> LeafFits(l) && (id < 0 || n < LABELS_CAP)
  {
    if id >= 0 {
      assert Fits(Def(id, Atom(l)), depth, n) <==> n < LABELS_CAP && Fits(Atom(l), depth, n + 1);
    }
    hide LeafFits;
  }

  lemma RefLoads(inp: Input, n: nat, st: State)
    requires FitsInt32(n) && At(inp, st.pos, Encode(inp.pool, Ref(n))) && StateOk(st) && n in Ids(st.labels)
    ensures LoadsAs(inp, Ref(n), st, ReadRec(inp, st))
  {
    assert Encode(inp.pool, Ref(n)) == [TAG_LABEL_REF] + I32(n);
    hide At, I32, Encode, StateOk, Ids, ReadI32, MustRead, FindLabel, LoadedAs, ReadTagged;
    AtSplit(inp, st.pos, [TAG_LABEL_REF], I32(n));
    ByteRead(inp, st.pos, TAG_LABEL_REF);
    I32Read(inp, st.pos + 1, n);
    FindKnown(st.labels, n);
    RefLoaded(inp, n, st);
  }

  lemma RefLoaded(inp: Input, n: nat, st: State)
    requires FitsInt32(n) && StateOk(st) && n in Ids(st.labels)
    ensures FindLabel(st.labels, n).Some?
    ensures LoadedAs(inp, Ref(n), st, FindLabel(st.labels, n).value, st.(pos := st.pos + 5))
  {
    FindKnown(st.labels, n);
    hide WellFormed, FindLabel, Fields;
  }

  // Which tag read_datum_rec dispatches on, and where.
  lemma DispatchPlain(inp: Input, s: Syn, st: State)
    requires Encodable(inp.pool, s) && !s.Def? && !s.Ref? && At(inp, st.pos, Encode(inp.pool, s))
    requires st.depth < MAX_DATUM_DEPTH
    ensures ReadRec(inp, st) == ReadTagged(inp, st.(pos := st.pos + 1), Encode(inp.pool, s)[0], -1)
  {
    EncodeStart(inp.pool, s);
    TagThenRest(inp, st.pos, Encode(inp.pool, s));
  }

  lemma DispatchLabelled(inp: Input, n: nat, d: Syn, st: State)
    requires Encodable(inp.pool, Def(n, d)) && At(inp, st.pos, Encode(inp.pool, Def(n, d)))
    requires st.depth < MAX_DATUM_DEPTH
    ensures At(inp, st.pos + 5, Encode(inp.pool, d))
    ensures ReadRec(inp, st) == ReadTagged(inp, st.(pos := st.pos + 6), Encode(inp.pool, d)[0], n)
  {
    hide *;
    DefEncoding(inp.pool, n, d);
    var code := Encode(inp.pool, d);
    AtSplit(inp, st.pos, [TAG_LABEL_DEF] + I32(n), code);
    AtSplit(inp, st.pos, [TAG_LABEL_DEF], I32(n));
    I32Read(inp, st.pos + 1, n);
    TagThenRest(inp, st.pos + 5, code);
    ByteRead(inp, st.pos, TAG_LABEL_DEF);
    ByteRead(inp, st.pos + 5, code[0]);
    ReadsDefinition(inp, st, n, code[0]);
  }

  lemma ByteRead(inp: Input, pos: nat, b: byte)
    requires At(inp, pos, [b])
    ensures MustRead(inp, pos, 1) == Ok([b])
  {
  }

  lemma ReadsDefinition(inp: Input, st: State, n: int, t: byte)
    requires st.depth < MAX_DATUM_DEPTH && MustRead(inp, st.pos, 1) == Ok([TAG_LABEL_DEF])
    requires ReadI32(inp, st.pos + 1) == Ok(n) && MustRead(inp, st.pos + 5, 1) == Ok([t])
    ensures ReadRec(inp, st) == ReadTagged(inp, st.(pos := st.pos + 6), t, n)
  {
    hide ReadTagged, MustRead, ReadI32;
  }

  lemma {:induction false} LoadRec(inp: Input, s: Syn, st: State)
    requires Encodable(inp.pool, s) && |inp.pool| <= 0xFF_FFFF && At(inp, st.pos, Encode(inp.pool, s))
    requires StateOk(st) && Scope(s, Ids(st.labels)).Some?
    ensures LoadsAs(inp, s, st, ReadRec(inp, st))
    decreases s, 2
  {
    hide LoadsAs, At, StateOk, ReadRec, ReadTagged, Ids, Encode, Describes, EncodeLeaf;
    if st.depth >= MAX_DATUM_DEPTH {
      TooDeep(inp, s, st);
    } else {
      match s
      case Atom(l) =>
        DispatchPlain(inp, s, st);
        StateOkAnywhere(st, st.pos + 1);
        AtomEncoding(inp.pool, l);
        AtomLoads(inp, l, -1, st.(pos := st.pos + 1), st);
      case Ref(n) => RefLoads(inp, n, st);
      case Def(n, d) =>
        DispatchLabelled(inp, n, d, st);
        StateOkAnywhere(st, st.pos + 6);
        DefEncoding(inp.pool, n, d);
        if d.Atom? {
          AtomEncoding(inp.pool, d.leaf);
          AtomLoads(inp, d.leaf, n, st.(pos := st.pos + 6), st);
        } else {
          NodeLoads(inp, d, n, st.(pos := st.pos + 6), st);
        }
      case Node(_, _) =>
        DispatchPlain(inp, s, st);
        StateOkAnywhere(st, st.pos + 1);
        NodeLoads(inp, s, -1, st.(pos := st.pos + 1), st);
    }
  }

  lemma TooDeep(inp: Input, s: Syn, st: State)
    requires Encodable(inp.pool, s) && Scope(s, Ids(st.labels)).Some? && st.depth >= MAX_DATUM_DEPTH
    ensures LoadsAs(inp, s, st, ReadRec(inp, st))
  {
    hide LoadedAs;
  }

  lemma AtomEncoding(pool: seq<seq<byte>>, l: Leaf)
    requires Serialisable(pool, l)
    ensures Encode(pool, Atom(l)) == EncodeLeaf(pool, l)
  {
    hide EncodeLeaf, Serialisable;
  }

  lemma DefEncoding(pool: seq<seq<byte>>, n: nat, d: Syn)
    requires Encodable(pool, Def(n, d))
    ensures FitsInt32(n) && Encodable(pool, d) && Encode(pool, Def(n, d)) == [TAG_LABEL_DEF] + I32(n) + Encode(pool, d)
    ensures |Encode(pool, Def(n, d))| == 5 + |Encode(pool, d)|
  {
    hide I32;
  }

  lemma StateOkAtDepth(st: State, depth: nat)
    requires StateOk(st)
    ensures StateOk(st.(depth := depth))
  {
  }

  lemma StateOkAnywhere(st: State, pos: nat)
    requires StateOk(st)
    ensures StateOk(st.(pos := pos))
  {
  }

  // ---- nodes

  lemma SetFieldKeeps(h: Heap, c: Value, k: nat, x: Value)
    requires WellFormed(h) && InHeap(h, c) && !c.LeafV? && k < |Fields(h, c)| && InHeap(h, x)
    ensures var g := SetField(h, c, k, x);
      && WellFormed(g) && KeepsBut(h, g, c) && Fields(g, c) == Fields(h, c)[k := x]
      && |g.pairs| == |h.pairs| && |g.vecs| == |h.vecs|
  {
    var g := SetField(h, c, k, x);
    forall v, j | InHeap(g, v) && 0 <= j < |Fields(g, v)| ensures InHeap(g, Fields(g, v)[j]) {
      if v != c {
        assert Fields(g, v) == Fields(h, v) && InHeap(h, v);
      } else if j != k {
        assert InHeap(h, Fields(h, v)[j]);
      }
    }
  }

  lemma FreshStaysFresh(h: Heap, g: Heap, objs: seq<Value>, more: Heap, c: Value)
    requires AllFresh(h, g, objs) && KeepsBut(g, more, c) && InHeap(h, c)
    ensures AllFresh(h, more, objs) && AllKept(g, more, objs)
  {
  }

  // The part k - 1 has been read into x and patched into the container.
  lemma PartLoaded(inp: Input, s: Syn, k: nat, st: State, c: Value, mid: State, x: Value, st2: State, st3: State)
    requires s.Node? && Encodable(inp.pool, s) && 0 < k <= |s.parts| && InHeap(st.heap, c)
    requires ScopeParts(s, k, Ids(st.labels)).Some?
    requires PartsLoadedAs(inp, s, k - 1, st, c, mid)
    requires LoadedAs(inp, s.parts[k - 1], mid, x, st2)
    requires st3 == st2.(heap := SetField(st2.heap, c, k - 1, x), depth := st.depth)
    ensures PartsLoadedAs(inp, s, k, st, c, st3)
  {
    hide Describes, Shown, Encode, Scope, Labels, EnvOf, SetField, WellFormed;
    hide EncodeParts, ScopeParts, LabelsOfParts, Encodable, AllFresh, Distinct, ShownParts;
    PartStep(inp.pool, s, k, Ids(st.labels));
    var part, h1, h2, h3 := s.parts[k - 1], mid.heap, st2.heap, st3.heap;
    assert Fields(h2, c) == Fields(h1, c);
    SetFieldKeeps(h2, c, k - 1, x);
    PartsKept(inp, s, k, st, c, mid, st2, st3);
    FreshStaysFresh(h1, h2, Shown(h2, part, x), h3, c);
    DescriptionLifts(h2, EnvOf(st2.labels), part, x, h3, EnvOf(st3.labels));
    assert Field(h3, c, k - 1) == x;
    var before, last := ShownParts(h1, s, c, k - 1), Shown(h2, part, x);
    ShownOneMore(h3, s, c, k);
    DistinctTogether(st.heap, h1, h3, before, last);
  }

  lemma DistinctTogether(h: Heap, mid: Heap, g: Heap, a: seq<Value>, b: seq<Value>)
    requires AllFresh(h, mid, a) && AllFresh(mid, g, b) && Distinct(a) && Distinct(b)
    requires |h.pairs| <= |mid.pairs| <= |g.pairs| && |h.vecs| <= |mid.vecs| <= |g.vecs|
    ensures AllFresh(h, g, a + b) && Distinct(a + b)
  {
  }

  lemma PartsKept(inp: Input, s: Syn, k: nat, st: State, c: Value, mid: State, st2: State, st3: State)
    requires s.Node? && Encodable(inp.pool, s) && 0 < k <= |s.parts| && InHeap(st.heap, c)
    requires ScopeParts(s, k - 1, Ids(st.labels)).Some?
    requires PartsLoadedAs(inp, s, k - 1, st, c, mid)
    requires KeepsBut(mid.heap, st2.heap, LeafV(NIL)) && KeepsBut(st2.heap, st3.heap, c) && mid.labels <= st3.labels
    requires WellFormed(st3.heap) && Fields(st2.heap, c) == Fields(mid.heap, c)
    requires |Fields(st3.heap, c)| == |Fields(mid.heap, c)|
    requires forall j :: 0 <= j < k - 1 ==> Fields(st3.heap, c)[j] == Fields(mid.heap, c)[j]
    ensures RightKind(st3.heap, c, s)
    ensures forall j :: 0 <= j < k - 1 ==> Describes(st3.heap, EnvOf(st3.labels), s.parts[j], Field(st3.heap, c, j))
    ensures ShownParts(st3.heap, s, c, k - 1) == ShownParts(mid.heap, s, c, k - 1)
    ensures KeepsBut(st.heap, st3.heap, c)
  {
    hide Describes, Shown, Encode, Scope, Labels, EnvOf, WellFormed;
    EnvGrows(mid.labels, st3.labels);
    KeepsThrough(mid.heap, st2.heap, st3.heap, c);
    KeepsThrough(st.heap, mid.heap, st3.heap, c);
    FreshStaysFresh(st.heap, mid.heap, ShownParts(mid.heap, s, c, k - 1), st3.heap, c);
    forall j | 0 <= j < k - 1 ensures Field(st3.heap, c, j) == Field(mid.heap, c, j) {
    }
    PartsLift(mid.heap, EnvOf(mid.labels), s, c, st3.heap, EnvOf(st3.labels), k - 1);
  }

  lemma KeepsThrough(h: Heap, m: Heap, g: Heap, c: Value)
    requires (KeepsBut(h, m, c) || KeepsBut(h, m, LeafV(NIL))) && KeepsBut(m, g, c)
    ensures KeepsBut(h, g, c)
  {
    forall o | InHeap(h, o) && o != c ensures Fields(g, o) == Fields(h, o) {
      assert InHeap(m, o);
      if !o.LeafV? {
        assert Fields(m, o) == Fields(h, o);
      }
    }
  }

  lemma NoParts(inp: Input, s: Syn, st: State, c: Value)
    requires s.Node? && Encodable(inp.pool, s) && At(inp, st.pos, [])
    requires StateOk(st) && InHeap(st.heap, c) && RightKind(st.heap, c, s)
    ensures st.pos <= |inp.buf|
    ensures PartsLoadedAs(inp, s, 0, st, c, st)
  {
  }

  lemma NextPart(inp: Input, s: Syn, k: nat, st: State, c: Value, mid: State)
    requires s.Node? && Encodable(inp.pool, s) && 0 < k <= |s.parts| && ScopeParts(s, k, Ids(st.labels)).Some?
    requires PartsLoadedAs(inp, s, k - 1, st, c, mid)
    ensures StateOk(mid) && mid.depth == st.depth && |mid.labels| == |st.labels| + LabelsOfParts(s, k - 1)
    ensures mid.pos == st.pos + |EncodeParts(inp.pool, s, k - 1)|
    ensures Ids(mid.labels) == ScopeParts(s, k - 1, Ids(st.labels)).value
  {
  }

  lemma NodeHasFields(h: Heap, c: Value, s: Syn)
    requires InHeap(h, c) && s.Node? && RightKind(h, c, s)
    ensures HasFields(h, c, |s.parts|)
  {
  }

  lemma NothingEncoded(inp: Input, s: Syn, st: State)
    requires s.Node? && Encodable(inp.pool, s) && At(inp, st.pos, EncodeParts(inp.pool, s, 0))
    ensures At(inp, st.pos, []) && ScopeParts(s, 0, Ids(st.labels)).Some?
  {
  }

  // What the text of the first k parts is, says and defines, taken apart at the last of them.
  lemma PartStep(pool: seq<seq<byte>>, s: Syn, k: nat, known: set<nat>)
    requires s.Node? && Encodable(pool, s) && 0 < k <= |s.parts|
    ensures Encodable(pool, s.parts[k - 1]) && LabelsOfParts(s, k) == LabelsOfParts(s, k - 1) + Labels(s.parts[k - 1])
    ensures EncodeParts(pool, s, k) == EncodeParts(pool, s, k - 1) + Encode(pool, s.parts[k - 1])
    ensures ScopeParts(s, k, known).Some? ==>
      && ScopeParts(s, k - 1, known).Some?
      && ScopeParts(s, k, known) == Scope(s.parts[k - 1], ScopeParts(s, k - 1, known).value)
  {
    hide Scope, Encode, Labels;
  }

  lemma {:induction false} PartsLoad(inp: Input, s: Syn, k: nat, st: State, c: Value)
    requires s.Node? && Encodable(inp.pool, s) && |inp.pool| <= 0xFF_FFFF && k <= |s.parts|
    requires At(inp, st.pos, EncodeParts(inp.pool, s, k))
    requires StateOk(st) && InHeap(st.heap, c) && RightKind(st.heap, c, s) && ScopeParts(s, k, Ids(st.labels)).Some?
    ensures st.pos <= |inp.buf|
    ensures PartsLoadAs(inp, s, k, st, c, ReadParts(inp, st, c, |s.parts|, k))
    decreases s, 0, k
  {
    hide PartsLoadedAs, LoadedAs, StateOk, At, Ids, ReadRec, ReadParts, SetField, WellFormed, Fields;
    hide Scope, Labels, Fits, Encode, Encodable, EncodeParts, ScopeParts, LabelsOfParts;
    NodeHasFields(st.heap, c, s);
    AtWithin(inp, st.pos, EncodeParts(inp.pool, s, k));
    if k == 0 {
      NothingEncoded(inp, s, st);
      NoParts(inp, s, st, c);
      ReadNoParts(inp, st, c, |s.parts|);
    } else {
      PartStep(inp.pool, s, k, Ids(st.labels));
      ReadOneMore(inp, st, c, |s.parts|, k - 1);
      AtSplit(inp, st.pos, EncodeParts(inp.pool, s, k - 1), Encode(inp.pool, s.parts[k - 1]));
      PartsLoad(inp, s, k - 1, st, c);
      var mid := ReadParts(inp, st, c, |s.parts|, k - 1);
      if mid.Ok? {
        NextPart(inp, s, k, st, c, mid.value);
        LoadRec(inp, s.parts[k - 1], mid.value);
        var r := ReadRec(inp, mid.value);
        if r.Ok? {
          var st2 := r.value.1;
          PartLoaded(inp, s, k, st, c, mid.value, r.value.0, st2,
                     st2.(heap := SetField(st2.heap, c, k - 1, r.value.0), depth := st.depth));
        }
      }
    }
  }

  lemma AllocateKeeps(h: Heap, vector: bool, n: nat)
    requires WellFormed(h) && (!vector ==> n == 2)
    ensures var (c, g) := Allocate(h, vector, n);
      && WellFormed(g) && KeepsBut(h, g, LeafV(NIL)) && !InHeap(h, c) && HasFields(g, c, n) && (c.VecV? <==> vector)
  {
    var (c, g) := Allocate(h, vector, n);
    forall v, j | InHeap(g, v) && 0 <= j < |Fields(g, v)| ensures InHeap(g, Fields(g, v)[j]) {
      if v != c {
        assert Fields(g, v) == Fields(h, v) && InHeap(h, Fields(h, v)[j]);
      }
    }
  }

  // The state in which the parts of a node are read: its container allocated, and registered if it has a label.
  function Opened(st: State, pos: nat, d: Syn, id: int): State
    requires d.Node?
  {
    var (c, g) := Allocate(st.heap, d.vector, |d.parts|);
    State(pos, g, if id < 0 then st.labels else st.labels + [DatumLabel(id, c)], st.depth + 1)
  }

  lemma NodeDispatch(inp: Input, d: Syn, id: int, st: State)
    requires d.Node? && Encodable(inp.pool, d) && st.depth < MAX_DATUM_DEPTH
    requires st.pos > 0 && At(inp, st.pos - 1, Encode(inp.pool, d))
    ensures var pos := st.pos + if d.vector then 4 else 0;
      && st.pos - 1 + |Encode(inp.pool, d)| == pos + |EncodeParts(inp.pool, d, |d.parts|)|
      && At(inp, pos, EncodeParts(inp.pool, d, |d.parts|))
      && ReadTagged(inp, st, Encode(inp.pool, d)[0], id) ==
         if d.vector && |d.parts| > MAX_COUNT then Abort
         else ReadContainer(inp, st.(pos := pos), d.vector, |d.parts|, id)
  {
    hide *;
    var n, parts := |d.parts|, EncodeParts(inp.pool, d, |d.parts|);
    NodeEncoding(inp.pool, d);
    if d.vector {
      AtSplit(inp, st.pos - 1, [TAG_VECTOR] + I32(n), parts);
      AtSplit(inp, st.pos - 1, [TAG_VECTOR], I32(n));
      I32Read(inp, st.pos, n);
      AtWithin(inp, st.pos + 4, parts);
      TaggedVector(inp, st, n, id);
    } else {
      AtSplit(inp, st.pos - 1, [TAG_PAIR], parts);
      AtWithin(inp, st.pos, parts);
      TaggedPair(inp, st, id);
    }
  }

  lemma NodeEncoding(pool: seq<seq<byte>>, d: Syn)
    requires d.Node? && Encodable(pool, d)
    ensures FitsInt32(|d.parts|) && (!d.vector ==> |d.parts| == 2)
    ensures Encode(pool, d)
      == (if d.vector then [TAG_VECTOR] + I32(|d.parts|) else [TAG_PAIR]) + EncodeParts(pool, d, |d.parts|)
    ensures Encode(pool, d)[0] == if d.vector then TAG_VECTOR else TAG_PAIR
  {
    hide I32, EncodeParts;
  }

  lemma AtWithin(inp: Input, pos: nat, bytes: seq<byte>)
    requires At(inp, pos, bytes)
    ensures pos + |bytes| <= |inp.buf|
  {
  }

  lemma TaggedVector(inp: Input, st: State, n: nat, id: int)
    requires st.depth < MAX_DATUM_DEPTH && st.pos + 4 <= |inp.buf|
    requires ReadCount(inp, st.pos) == if n <= MAX_COUNT then Ok(n) else Abort
    ensures ReadTagged(inp, st, TAG_VECTOR, id) ==
      if n > MAX_COUNT then Abort else ReadContainer(inp, st.(pos := st.pos + 4), true, n, id)
  {
    hide ReadContainer, ReadCount;
  }

  lemma TaggedPair(inp: Input, st: State, id: int)
    requires st.depth < MAX_DATUM_DEPTH && st.pos <= |inp.buf|
    ensures ReadTagged(inp, st, TAG_PAIR, id) == ReadContainer(inp, st, false, 2, id)
  {
    hide ReadContainer;
  }

  lemma OpenedOk(inp: Input, d: Syn, id: int, st: State, pos: nat)
    requires d.Node? && Encodable(inp.pool, WithLabel(id, d)) && StateOk(st) && Scope(WithLabel(id, d), Ids(st.labels)).Some?
    ensures var begun, c := Opened(st, pos, d, id), Allocate(st.heap, d.vector, |d.parts|).0;
      && StateOk(begun) && InHeap(begun.heap, c) && RightKind(begun.heap, c, d)
      && Scope(WithLabel(id, d), Ids(st.labels)) == ScopeParts(d, |d.parts|, Ids(begun.labels))
  {
    AllocateKeeps(st.heap, d.vector, |d.parts|);
    var c := Allocate(st.heap, d.vector, |d.parts|).0;
    if id >= 0 {
      var n: nat := id;
      FindAdded(st.labels, n, c);
    }
  }

  // All parts read: the node is loaded.
  lemma NodeLoaded(inp: Input, d: Syn, id: int, st: State, pos: nat, st': State)
    requires d.Node? && Encodable(inp.pool, WithLabel(id, d)) && StateOk(st) && Scope(WithLabel(id, d), Ids(st.labels)).Some?
    requires ScopeParts(d, |d.parts|, Ids(Opened(st, pos, d, id).labels)).Some?
    requires pos + |EncodeParts(inp.pool, d, |d.parts|)| == st.pos + |Encode(inp.pool, WithLabel(id, d))|
    requires PartsLoadedAs(inp, d, |d.parts|, Opened(st, pos, d, id), Allocate(st.heap, d.vector, |d.parts|).0, st')
    ensures LoadedAs(inp, WithLabel(id, d), st, Allocate(st.heap, d.vector, |d.parts|).0, st'.(depth := st.depth))
  {
    hide *;
    var c, begun, n := Allocate(st.heap, d.vector, |d.parts|).0, Opened(st, pos, d, id), |d.parts|;
    NodeOpened(inp, d, id, st, pos);
    NodeLabels(d, id);
    NodeEncodable(inp.pool, d, id);
    OpenedOk(inp, d, id, st, pos);
    NodeUnpacked(inp, d, begun, c, st');
    KeepsThroughNew(st.heap, begun.heap, st'.heap, c);
    if id >= 0 {
      NewLabel(d, id, Ids(st.labels));
      LabelStays(st.labels, id, c, st'.labels);
    }
    NodeSeen(st'.heap, EnvOf(st'.labels), d, id, c);
    Larger(begun.heap, st'.heap, c);
    Larger(st.heap, begun.heap, LeafV(NIL));
    FirstIsFresh(st.heap, begun.heap, st'.heap, c, ShownParts(st'.heap, d, c, n));
    StateOkAtDepth(st', st.depth);
    NodePacked(inp, WithLabel(id, d), st, c, st'.(depth := st.depth), [c] + ShownParts(st'.heap, d, c, n));
  }

  lemma NewLabel(d: Syn, id: nat, known: set<nat>)
    requires Scope(WithLabel(id, d), known).Some?
    ensures id !in known
  {
  }

  lemma NodeUnpacked(inp: Input, d: Syn, begun: State, c: Value, st': State)
    requires d.Node? && Encodable(inp.pool, d) && ScopeParts(d, |d.parts|, Ids(begun.labels)).Some?
    requires PartsLoadedAs(inp, d, |d.parts|, begun, c, st')
    ensures StateOk(st') && WellFormed(st'.heap) && InHeap(st'.heap, c) && RightKind(st'.heap, c, d)
    ensures |d.parts| <= |Fields(st'.heap, c)|
    ensures st'.pos == begun.pos + |EncodeParts(inp.pool, d, |d.parts|)|
    ensures KeepsBut(begun.heap, st'.heap, c)
    ensures begun.labels <= st'.labels && |st'.labels| == |begun.labels| + LabelsOfParts(d, |d.parts|)
    ensures Ids(st'.labels) == ScopeParts(d, |d.parts|, Ids(begun.labels)).value
    ensures forall j :: 0 <= j < |d.parts| ==> Describes(st'.heap, EnvOf(st'.labels), d.parts[j], Field(st'.heap, c, j))
    ensures AllFresh(begun.heap, st'.heap, ShownParts(st'.heap, d, c, |d.parts|))
    ensures Distinct(ShownParts(st'.heap, d, c, |d.parts|))
  {
    hide Describes, ShownParts, EncodeParts, ScopeParts, LabelsOfParts, KeepsBut, AllFresh, Distinct, WellFormed, EnvOf, Ids;
  }

  lemma NodePacked(inp: Input, s: Syn, st: State, v: Value, st': State, shown: seq<Value>)
    requires Encodable(inp.pool, s) && Scope(s, Ids(st.labels)).Some?
    requires StateOk(st') && WellFormed(st'.heap) && InHeap(st'.heap, v)
    requires st'.pos == st.pos + |Encode(inp.pool, s)| && st'.depth == st.depth
    requires KeepsBut(st.heap, st'.heap, LeafV(NIL))
    requires st.labels <= st'.labels && |st'.labels| == |st.labels| + Labels(s)
    requires Ids(st'.labels) == Scope(s, Ids(st.labels)).value
    requires Describes(st'.heap, EnvOf(st'.labels), s, v) && Shown(st'.heap, s, v) == shown
    requires AllFresh(st.heap, st'.heap, shown) && Distinct(shown)
    ensures LoadedAs(inp, s, st, v, st')
  {
    hide Describes, Shown, Encode, Scope, Labels, KeepsBut, AllFresh, Distinct, WellFormed, EnvOf, Ids;
  }

  lemma Larger(h: Heap, g: Heap, c: Value)
    requires KeepsBut(h, g, c)
    ensures |h.pairs| <= |g.pairs| && |h.vecs| <= |g.vecs|
  {
  }

  lemma NodeLabels(d: Syn, id: int)
    requires d.Node?
    ensures Labels(WithLabel(id, d)) == (if id < 0 then 0 else 1) + LabelsOfParts(d, |d.parts|)
    ensures id >= 0 ==> WithLabel(id, d) == Def(id, d)
  {
  }

  lemma LabelStays(labels: seq<DatumLabel>, id: nat, c: Value, more: seq<DatumLabel>)
    requires id !in Ids(labels) && labels + [DatumLabel(id, c)] <= more
    ensures id in EnvOf(more) && EnvOf(more)[id] == c
  {
    FindAdded(labels, id, c);
    EnvGrows(labels + [DatumLabel(id, c)], more);
  }

  lemma NodeSeen(h: Heap, env: map<nat, Value>, d: Syn, id: int, c: Value)
    requires WellFormed(h) && InHeap(h, c) && d.Node? && RightKind(h, c, d) && (id >= 0 ==> id in env && env[id] == c)
    requires |d.parts| <= |Fields(h, c)|
    requires forall j :: 0 <= j < |d.parts| ==> Describes(h, env, d.parts[j], Field(h, c, j))
    ensures Describes(h, env, WithLabel(id, d), c)
    ensures Shown(h, WithLabel(id, d), c) == [c] + ShownParts(h, d, c, |d.parts|)
  {
    assert Describes(h, env, d, c);
    hide ShownParts, WellFormed;
  }

  lemma NodeOpened(inp: Input, d: Syn, id: int, st: State, pos: nat)
    requires d.Node? && Encodable(inp.pool, WithLabel(id, d)) && StateOk(st)
    ensures var begun, (c, g) := Opened(st, pos, d, id), Allocate(st.heap, d.vector, |d.parts|);
      && begun.pos == pos && begun.heap == g && begun.depth == st.depth + 1 && st.labels <= begun.labels
      && begun.labels == (if id < 0 then st.labels else st.labels + [DatumLabel(id, c)])
      && !c.LeafV? && !InHeap(st.heap, c) && WellFormed(g) && KeepsBut(st.heap, g, LeafV(NIL)) && HasFields(g, c, |d.parts|)
  {
    NodeEncodable(inp.pool, d, id);
    AllocateKeeps(st.heap, d.vector, |d.parts|);
    hide Allocate, Encodable, Fields;
  }

  lemma KeepsThroughNew(h: Heap, m: Heap, g: Heap, c: Value)
    requires KeepsBut(h, m, LeafV(NIL)) && KeepsBut(m, g, c) && !InHeap(h, c)
    ensures KeepsBut(h, g, LeafV(NIL))
  {
    forall o | InHeap(h, o) && o != LeafV(NIL) ensures Fields(g, o) == Fields(h, o) {
      assert InHeap(m, o) && o != c;
    }
  }

  lemma FirstIsFresh(h: Heap, m: Heap, g: Heap, c: Value, objs: seq<Value>)
    requires AllFresh(m, g, objs) && Distinct(objs) && !c.LeafV? && !InHeap(h, c) && InHeap(m, c)
    requires |h.pairs| <= |m.pairs| <= |g.pairs| && |h.vecs| <= |m.vecs| <= |g.vecs|
    ensures AllFresh(h, g, [c] + objs) && Distinct([c] + objs)
  {
  }

  lemma {:induction false} NodeLoads(inp: Input, d: Syn, id: int, st: State, before: State)
    requires d.Node? && Encodable(inp.pool, WithLabel(id, d)) && |inp.pool| <= 0xFF_FFFF
    requires st.pos > 0 && At(inp, st.pos - 1, Encode(inp.pool, d)) && st.depth < MAX_DATUM_DEPTH
    requires StateOk(st) && Scope(WithLabel(id, d), Ids(st.labels)).Some?
    requires before == st.(pos := before.pos)
    requires st.pos - 1 + |Encode(inp.pool, d)| == before.pos + |Encode(inp.pool, WithLabel(id, d))|
    ensures LoadsAs(inp, WithLabel(id, d), before, ReadTagged(inp, st, Encode(inp.pool, d)[0], id))
    decreases d, 1
  {
    hide LoadedAs, PartsLoadedAs, StateOk, Ids, Encode, EncodeParts, Encodable, ReadTagged, ReadParts, Scope, ScopeParts, At, Allocate;
    NodeEncodable(inp.pool, d, id);
    NodeDispatch(inp, d, id, st);
    var pos := st.pos + if d.vector then 4 else 0;
    var c, n := Allocate(st.heap, d.vector, |d.parts|).0, |d.parts|;
    StateOkAnywhere(st, before.pos);
    if id < 0 || |st.labels| < LABELS_CAP {
      var begun := Opened(before, pos, d, id);
      OpenedOk(inp, d, id, before, pos);
      PartsLoad(inp, d, n, begun, c);
      var r := ReadParts(inp, begun, c, n, n);
      if r.Ok? {
        NodeLoaded(inp, d, id, before, pos, r.value);
      }
      ContainerIsParts(inp, d, id, st, before, pos);
    }
    NodeFits(d, id, st.depth, |st.labels|);
  }

  lemma NodeFits(d: Syn, id: int, depth: nat, n: nat)
    requires d.Node?
    ensures Fits(WithLabel(id, d), depth, n) <==>
      && depth < MAX_DATUM_DEPTH && (id < 0 || n < LABELS_CAP) && (d.vector ==> |d.parts| <= MAX_COUNT)
      && PartsFit(d, |d.parts|, depth + 1, if id < 0 then n else n + 1)
  {
    if id >= 0 {
      assert Fits(Def(id, d), depth, n) <==> depth < MAX_DATUM_DEPTH && n < LABELS_CAP && Fits(d, depth, n + 1);
    }
  }

  lemma ContainerIsParts(inp: Input, d: Syn, id: int, st: State, before: State, pos: nat)
    requires d.Node? && (!d.vector ==> |d.parts| == 2) && st.depth < MAX_DATUM_DEPTH && pos <= |inp.buf|
    requires before == st.(pos := before.pos) && (id < 0 || |st.labels| < LABELS_CAP)
    ensures var c, n := Allocate(st.heap, d.vector, |d.parts|).0, |d.parts|;
      && HasFields(Opened(before, pos, d, id).heap, c, n)
      && ReadContainer(inp, st.(pos := pos), d.vector, n, id) ==
         match ReadParts(inp, Opened(before, pos, d, id), c, n, n)
         case Abort => Abort
         case Ok(st') => Ok((c, st'.(depth := st.depth)))
  {
    hide *;
    AllocatesFields(st.heap, d.vector, |d.parts|);
    OpenedIs(before, pos, d, id);
    ContainerReads(inp, st.(pos := pos), d.vector, |d.parts|, id, Opened(before, pos, d, id));
  }

  lemma OpenedIs(before: State, pos: nat, d: Syn, id: int)
    requires d.Node?
    ensures var (c, g) := Allocate(before.heap, d.vector, |d.parts|);
      Opened(before, pos, d, id) ==
      State(pos, g, if id < 0 then before.labels else before.labels + [DatumLabel(id, c)], before.depth + 1)
  {
    hide Allocate;
  }

  lemma ContainerReads(inp: Input, st: State, vector: bool, n: nat, id: int, begun: State)
    requires st.depth < MAX_DATUM_DEPTH && st.pos <= |inp.buf| && (!vector ==> n == 2)
    requires id < 0 || |st.labels| < LABELS_CAP
    requires var (c, g) := Allocate(st.heap, vector, n);
      HasFields(g, c, n)
      && begun == State(st.pos, g, if id < 0 then st.labels else st.labels + [DatumLabel(id, c)], st.depth + 1)
    ensures var c := Allocate(st.heap, vector, n).0;
      ReadContainer(inp, st, vector, n, id) ==
      match ReadParts(inp, begun, c, n, n)
      case Abort => Abort
      case Ok(st') => Ok((c, st'.(depth := st.depth)))
  {
    hide ReadParts, Allocate, HasFields, KeepsContainers, Fields;
  }

  lemma AllocatesFields(h: Heap, vector: bool, n: nat)
    requires !vector ==> n == 2
    ensures var (c, g) := Allocate(h, vector, n); HasFields(g, c, n)
  {
  }

  lemma NodeEncodable(pool: seq<seq<byte>>, d: Syn, id: int)
    requires Encodable(pool, WithLabel(id, d))
    ensures Encodable(pool, d)
    ensures d.Node? && !d.vector ==> |d.parts| == 2
  {
  }
}
