/** A literal through the serializer and the loader: what comes back, and exactly when. */
module IceDatum {
  import opened Util
  import opened Decimal
  import opened SchemeHeap
  import opened Sharing
  import opened LabelledDatum
  import opened Labelling
  import opened IceFormat
  import opened IceLoader
  import opened IceRoundTrip

  // ---- the caps, said without reference to the order of reading

  function Max(a: nat, b: nat): nat {
    if a < b then b else a
  }

  // How many datums are nested in each other at most.
  function Height(s: Syn): nat
    decreases s, 0
  {
    match s
    case Atom(_) => 1
    case Ref(_) => 1
    case Def(_, d) => Height(d)
    case Node(_, parts) => 1 + HeightOfParts(s, |parts|)
  }

  function HeightOfParts(s: Syn, k: nat): nat
    requires s.Node? && k <= |s.parts|
    decreases s, 0, k
  {
    if k == 0 then 0 else Max(HeightOfParts(s, k - 1), Height(s.parts[k - 1]))
  }

  // Every vector, bytevector and integer text is within the count cap.
  predicate SizesFit(s: Syn)
    decreases s
  {
    match s
    case Atom(l) => LeafFits(l)
    case Ref(_) => true
    case Def(_, d) => SizesFit(d)
    case Node(vector, parts) =>
      && (vector ==> |parts| <= MAX_COUNT)
      && forall k :: 0 <= k < |parts| ==> SizesFit(parts[k])
  }

  lemma {:induction false} FitsIffWithinCaps(s: Syn, depth: nat, n: nat)
    requires n <= LABELS_CAP && depth <= MAX_DATUM_DEPTH
    ensures Fits(s, depth, n) <==>
            depth + Height(s) <= MAX_DATUM_DEPTH && n + Labels(s) <= LABELS_CAP && SizesFit(s)
    decreases s, 0
  {
    match s
    case Atom(_) =>
    case Ref(_) =>
    case Def(_, d) =>
      if n < LABELS_CAP {
        FitsIffWithinCaps(d, depth, n + 1);
      }
      HeightPositive(d);
    case Node(_, parts) =>
      if depth < MAX_DATUM_DEPTH {
        PartsFitIffWithinCaps(s, |parts|, depth + 1, n);
      }
  }

  lemma HeightPositive(s: Syn)
    ensures Height(s) >= 1
  {
  }

  lemma {:induction false} PartsFitIffWithinCaps(s: Syn, k: nat, depth: nat, n: nat)
    requires s.Node? && k <= |s.parts| && n <= LABELS_CAP && depth <= MAX_DATUM_DEPTH
    ensures PartsFit(s, k, depth, n) <==>
      && depth + HeightOfParts(s, k) <= MAX_DATUM_DEPTH
      && n + LabelsOfParts(s, k) <= LABELS_CAP
      && forall j :: 0 <= j < k ==> SizesFit(s.parts[j])
    decreases s, 0, k
  {
    if k > 0 {
      PartsFitIffWithinCaps(s, k - 1, depth, n);
      if n + LabelsOfParts(s, k - 1) <= LABELS_CAP {
        FitsIffWithinCaps(s.parts[k - 1], depth, n + LabelsOfParts(s, k - 1));
      }
    }
  }

  lemma {:induction false} LabelsAreDefined(h: Heap, e: map<nat, Value>, s: Syn, v: Value)
    requires WellFormed(h) && InHeap(h, v) && Describes(h, e, s, v)
    ensures Labels(s) == |Defined(h, s, v)|
    decreases s, 0
  {
    match s
    case Atom(_) =>
    case Ref(_) =>
    case Def(_, d) => LabelsAreDefined(h, e, d, v);
    case Node(_, parts) => LabelsOfPartsAreDefined(h, e, s, v, |parts|);
  }

  lemma {:induction false} LabelsOfPartsAreDefined(h: Heap, e: map<nat, Value>, s: Syn, v: Value, k: nat)
    requires WellFormed(h) && InHeap(h, v) && s.Node? && k <= |s.parts| && Describes(h, e, s, v)
    ensures LabelsOfParts(s, k) == |DefinedParts(h, s, v, k)|
    decreases s, 0, k
  {
    if k > 0 {
      LabelsOfPartsAreDefined(h, e, s, v, k - 1);
      LabelsAreDefined(h, e, s.parts[k - 1], Field(h, v, k - 1));
    }
  }

  // ---- one top-level datum

  // read_datum: labels are scoped to the datum.
  function ReadDatum(inp: Input, pos: nat, heap: Heap): Result<(Value, State)> {
    ReadRec(inp, State(pos, heap, [], 0))
  }

  // Any well-scoped labelled datum is loaded as the heap structure it describes, exactly if it is within the caps.
  lemma LabelledDatumLoads(inp: Input, pos: nat, heap: Heap, s: Syn)
    requires Encodable(inp.pool, s) && |inp.pool| <= 0xFF_FFFF && At(inp, pos, Encode(inp.pool, s))
    requires WellFormed(heap) && Scope(s, {}).Some?
    ensures var r := ReadDatum(inp, pos, heap);
      && (r.Ok? <==> Height(s) <= MAX_DATUM_DEPTH && Labels(s) <= LABELS_CAP && SizesFit(s))
      && (r.Ok? ==>
           assert Ids([]) == {};
           LoadedAs(inp, s, State(pos, heap, [], 0), r.value.0, r.value.1))
  {
    assert Ids([]) == {};
    LoadRec(inp, s, State(pos, heap, [], 0));
    FitsIffWithinCaps(s, 0, 0);
  }

  // Main result.  The serializer writes v as it labels it; the loader reads that back if and only if nothing is
  // nested deeper than 4000, at most 256 objects are shared or circular, and no count exceeds 2097152.  What it
  // builds is then the same graph as v: the same shape along every path, and eq? exactly where v is.
  lemma LiteralRoundTrip(h: Heap, v: Value, inp: Input, pos: nat, heap: Heap)
    requires WellFormed(h) && InHeap(h, v) && WellFormed(heap)
    requires Encodable(inp.pool, LabelledText(h, v)) && |inp.pool| <= 0xFF_FFFF
    requires At(inp, pos, Encode(inp.pool, LabelledText(h, v)))
    ensures var s, r := LabelledText(h, v), ReadDatum(inp, pos, heap);
      && (r.Ok? <==> Height(s) <= MAX_DATUM_DEPTH && |Defined(h, s, v)| <= LABELS_CAP && SizesFit(s))
      && (r.Ok? ==>
           var (w, st) := r.value;
           && st.pos == pos + |Encode(inp.pool, s)| && st.depth == 0
           && WellFormed(st.heap) && InHeap(st.heap, w)
           && KeepsBut(heap, st.heap, LeafV(NIL))
           && SameGraph(h, v, st.heap, w))
  {
    hide LoadedAs, LabelledText, Encodable, Encode, At, Describes, Shown, Defined, ReadDatum, SameGraph, SizesFit, Height, Labels, Numbered, Scope;
    var s := LabelledText(h, v);
    var env := LabelledTextIsFaithful(h, v);
    NumberedIsScoped(s, 0);
    assert Interval(0) == {};
    LabelledDatumLoads(inp, pos, heap, s);
    LabelsAreDefined(h, env, s, v);
    var r := ReadDatum(inp, pos, heap);
    if r.Ok? {
      assert Ids([]) == {};
      LoadedSameGraph(h, env, v, inp, s, State(pos, heap, [], 0), r.value.0, r.value.1);
    }
  }

  lemma LoadedSameGraph(h: Heap, env: map<nat, Value>, v: Value, inp: Input, s: Syn, st: State, w: Value, st': State)
    requires WellFormed(h) && InHeap(h, v) && Describes(h, env, s, v) && Distinct(Shown(h, s, v))
    requires Encodable(inp.pool, s) && Scope(s, {}).Some? && st.labels == [] && Ids([]) == {}
    requires LoadedAs(inp, s, st, w, st')
    ensures WellFormed(st'.heap) && InHeap(st'.heap, w) && SameGraph(h, v, st'.heap, w)
    ensures st'.pos == st.pos + |Encode(inp.pool, s)| && st'.depth == st.depth && KeepsBut(st.heap, st'.heap, LeafV(NIL))
  {
    SameTextSameGraph(h, env, v, st'.heap, EnvOf(st'.labels), w, s);
  }

  // ---- a list that the serializer writes and the loader refuses

  // A list of n empty lists.
  function ListHeap(n: nat): Heap {
    Heap(seq(n, i requires 0 <= i < n => (LeafV(NIL), if i + 1 < n then PairV(i + 1) else LeafV(NIL))), [])
  }

  function ListFrom(n: nat, i: nat): Value {
    if i < n then PairV(i) else LeafV(NIL)
  }

  lemma ListHeapIs(n: nat)
    ensures WellFormed(ListHeap(n))
    ensures forall i :: 0 <= i < n ==> Fields(ListHeap(n), PairV(i)) == [LeafV(NIL), ListFrom(n, i + 1)]
  {
  }

  // What element last of the list holds of the object o.
  lemma ListOccurs(n: nat, last: Value, o: Value)
    requires WellFormed(ListHeap(n)) && InHeap(ListHeap(n), last) && !o.LeafV?
    ensures Occurs(Fields(ListHeap(n), last), o) <= if o.PairV? && o.p > 0 && last == PairV(o.p - 1) then 1 else 0
  {
    ListHeapIs(n);
    if last.PairV? {
      var a, b := LeafV(NIL), ListFrom(n, last.p + 1);
      assert [a, b][..1] == [a] && [a][..0] == [];
      hide ListHeap;
      assert Occurs([], o) == 0;
      assert Occurs([a], o) == 0;
      assert Occurs([a, b], o) == if b == o then 1 else 0;
    } else {
      assert Fields(ListHeap(n), last) == [];
    }
  }

  // No element of the list has two incoming edges.
  lemma {:induction false} ListEdges(n: nat, us: seq<Value>, o: Value)
    requires WellFormed(ListHeap(n)) && AllInHeap(ListHeap(n), us) && Distinct(us) && !o.LeafV?
    ensures EdgesInto(ListHeap(n), us, o) <= if o.PairV? && o.p > 0 && PairV(o.p - 1) in us then 1 else 0
  {
    hide ListHeap, Occurs, Fields, WellFormed;
    if us != [] {
      var front, last := us[..|us| - 1], us[|us| - 1];
      assert last !in front && forall x :: x in front ==> x in us;
      ListEdges(n, front, o);
      ListOccurs(n, last, o);
    }
  }

  lemma {:induction false} NumberedGrows(s: Syn, n: nat)
    requires Numbered(s, n).Some?
    ensures Numbered(s, n).value >= n
    decreases s, 0
  {
    match s
    case Atom(_) =>
    case Ref(_) =>
    case Def(_, d) => NumberedGrows(d, n + 1);
    case Node(_, parts) => NumberedPartsGrow(s, |parts|, n);
  }

  lemma {:induction false} NumberedPartsGrow(s: Syn, k: nat, n: nat)
    requires s.Node? && k <= |s.parts| && NumberedParts(s, k, n).Some?
    ensures NumberedParts(s, k, n).value >= n
    decreases s, 0, k
  {
    if k > 0 {
      NumberedPartsGrow(s, k - 1, n);
      NumberedGrows(s.parts[k - 1], NumberedParts(s, k - 1, n).value);
    }
  }

  // A text without labels defines none and refers to none.
  lemma PlainText(h: Heap, env: map<nat, Value>, s: Syn, v: Value)
    requires WellFormed(h) && InHeap(h, v) && Describes(h, env, s, v) && Numbered(s, 0) == Some(0)
    ensures v.LeafV? ==> s == Atom(v.leaf)
    ensures !v.LeafV? ==> s.Node? && RightKind(h, v, s)
  {
    if s.Def? {
      NumberedGrows(s.datum, 1);
    }
    hide WellFormed, Fields;
  }

  lemma PlainParts(s: Syn)
    requires s.Node? && |s.parts| == 2 && Numbered(s, 0) == Some(0)
    ensures Numbered(s.parts[0], 0) == Some(0) && Numbered(s.parts[1], 0) == Some(0)
  {
    assert NumberedParts(s, 2, 0) == Some(0) && NumberedParts(s, 0, 0) == Some(0);
    NumberedPartsGrow(s, 1, 0);
    NumberedGrows(s.parts[1], NumberedParts(s, 1, 0).value);
  }

  // The text of the list without labels: one datum deeper for every element.
  lemma {:induction false} PlainListText(n: nat, i: nat, env: map<nat, Value>, s: Syn, pool: seq<seq<byte>>)
    requires i <= n && WellFormed(ListHeap(n)) && Describes(ListHeap(n), env, s, ListFrom(n, i))
    requires Numbered(s, 0) == Some(0)
    ensures Height(s) == n - i + 1 && SizesFit(s) && Encodable(pool, s)
    decreases s
  {
    if i == n {
      PlainText(ListHeap(n), env, s, ListFrom(n, i));
      hide Describes, ListHeap, WellFormed, Numbered;
    } else {
      hide *;
      PlainListParts(n, i, env, s);
      PlainListText(n, i + 1, env, s.parts[1], pool);
      PairIs(s, s.parts[0], s.parts[1], pool);
    }
  }

  lemma PlainListParts(n: nat, i: nat, env: map<nat, Value>, s: Syn)
    requires i < n && WellFormed(ListHeap(n)) && Describes(ListHeap(n), env, s, ListFrom(n, i))
    requires Numbered(s, 0) == Some(0)
    ensures s.Node? && |s.parts| == 2 && s == Node(false, [s.parts[0], s.parts[1]]) && s.parts[0] == Atom(NIL)
    ensures Describes(ListHeap(n), env, s.parts[1], ListFrom(n, i + 1)) && Numbered(s.parts[1], 0) == Some(0)
  {
    hide *;
    ListFields(n, i);
    PlainText(ListHeap(n), env, s, PairV(i));
    PairDescribed(ListHeap(n), env, s, PairV(i));
    PlainParts(s);
    PlainText(ListHeap(n), env, s.parts[0], LeafV(NIL));
  }

  lemma ListFields(n: nat, i: nat)
    requires i < n && WellFormed(ListHeap(n))
    ensures ListFrom(n, i) == PairV(i) && InHeap(ListHeap(n), PairV(i)) && |Fields(ListHeap(n), PairV(i))| == 2
    ensures Field(ListHeap(n), PairV(i), 0) == LeafV(NIL) && Field(ListHeap(n), PairV(i), 1) == ListFrom(n, i + 1)
    ensures InHeap(ListHeap(n), ListFrom(n, i + 1)) && InHeap(ListHeap(n), LeafV(NIL))
  {
    hide WellFormed;
  }

  lemma PairDescribed(h: Heap, env: map<nat, Value>, s: Syn, v: Value)
    requires WellFormed(h) && InHeap(h, v) && v.PairV? && Describes(h, env, s, v) && s.Node?
    ensures |Fields(h, v)| == 2 && |s.parts| == 2 && s == Node(false, [s.parts[0], s.parts[1]])
    ensures Describes(h, env, s.parts[0], Field(h, v, 0)) && Describes(h, env, s.parts[1], Field(h, v, 1))
  {
    hide WellFormed;
  }

  lemma PairIs(s: Syn, car: Syn, cdr: Syn, pool: seq<seq<byte>>)
    requires s == Node(false, [car, cdr]) && car == Atom(NIL) && SizesFit(cdr) && Encodable(pool, cdr)
    ensures Height(s) == 1 + Height(cdr) && SizesFit(s) && Encodable(pool, s)
  {
    HeightPositive(cdr);
    assert HeightOfParts(s, 0) == 0 && HeightOfParts(s, 1) == Max(0, Height(car)) && Height(car) == 1;
    assert HeightOfParts(s, 2) == Max(HeightOfParts(s, 1), Height(cdr));
  }

  // The serializer writes a list of n elements for every n; the loader takes it back up to 3999 of them.
  lemma LongListIsRefused(n: nat, inp: Input, pos: nat, heap: Heap)
    requires WellFormed(heap) && |inp.pool| <= 0xFF_FFFF
    ensures WellFormed(ListHeap(n)) && InHeap(ListHeap(n), ListFrom(n, 0))
    ensures var s := LabelledText(ListHeap(n), ListFrom(n, 0));
      && Encodable(inp.pool, s)
      && (At(inp, pos, Encode(inp.pool, s)) ==> (ReadDatum(inp, pos, heap).Ok? <==> n < MAX_DATUM_DEPTH))
  {
    ListHeapIs(n);
    var h, v := ListHeap(n), ListFrom(n, 0);
    var s := LabelledText(h, v);
    var env := LabelledTextIsFaithful(h, v);
    if Defined(h, s, v) != [] {
      var o := Defined(h, s, v)[0];
      assert o in Defined(h, s, v) && IsReachableObject(h, v, o);
      ListEdges(n, Shown(h, s, v), o);
      assert false;
    }
    PlainListText(n, 0, env, s, inp.pool);
    if At(inp, pos, Encode(inp.pool, s)) {
      LiteralRoundTrip(h, v, inp, pos, heap);
    }
  }
}
