/** Pass 2 of `write-shared` and of the ICE serializer: write each object once, labelled #0, #1, ... in the
    order of definition if it is reached more than once, and refer to it by label from then on. */
module Labelling {
  import opened Util
  import opened SchemeHeap
  import opened Sharing
  import opened LabelledDatum

  // What has been written so far: every object, and those of them that have a label; an object's label is its
  // position in `labelled`, whose length is next_label.
  datatype Written = Written(objects: seq<Value>, labelled: seq<Value>)

  const NOTHING: Written := Written([], [])

  function LabelOf(labelled: seq<Value>, v: Value): (n: nat)
    ensures v in labelled ==> n < |labelled| && labelled[n] == v
  {
    if labelled == [] || labelled[0] == v then 0 else 1 + LabelOf(labelled[1..], v)
  }

  function Begin(shared: set<Value>, st: Written, v: Value): Written {
    Written(st.objects + [v], if v in shared then st.labelled + [v] else st.labelled)
  }

  function Wrap(shared: set<Value>, st: Written, v: Value, node: Syn): Syn {
    if v in shared then Def(|st.labelled|, node) else node
  }

  // The labelled text of v.  An object already written is referred to by its label.
  function Label(h: Heap, shared: set<Value>, st: Written, v: Value): (r: (Syn, Written))
    requires WellFormed(h) && InHeap(h, v)
    ensures st.objects <= r.1.objects && st.labelled <= r.1.labelled
    decreases Objects(h) - Elems(st.objects), 1
  {
    if v.LeafV? then (Atom(v.leaf), st)
    else if v in st.objects then (Ref(LabelOf(st.labelled, v)), st)
    else
      FieldsInHeap(h, v);
      ObjectsComplete(h, v);
      assert v in Elems(Begin(shared, st, v).objects) && forall x :: x in st.objects ==> x in Begin(shared, st, v).objects;
      var (parts, st') := LabelAll(h, shared, Begin(shared, st, v), Fields(h, v));
      (Wrap(shared, st, v, Node(v.VecV?, parts)), st')
  }

  function LabelAll(h: Heap, shared: set<Value>, st: Written, vs: seq<Value>): (r: (seq<Syn>, Written))
    requires WellFormed(h) && AllInHeap(h, vs)
    ensures |r.0| == |vs| && st.objects <= r.1.objects && st.labelled <= r.1.labelled
    decreases Objects(h) - Elems(st.objects), 2, |vs|
  {
    if vs == [] then ([], st)
    else
      var (front, mid) := LabelAll(h, shared, st, vs[..|vs| - 1]);
      assert forall x :: x in st.objects ==> x in mid.objects;
      assert Objects(h) - Elems(mid.objects) <= Objects(h) - Elems(st.objects);
      var (last, st') := Label(h, shared, mid, vs[|vs| - 1]);
      (front + [last], st')
  }

  // ---- pass 2 walks exactly like pass 1

  lemma {:induction false} LabelFollowsMark(h: Heap, shared: set<Value>, t: Table, st: Written, v: Value)
    requires WellFormed(h) && InHeap(h, v) && t.count.Keys == Elems(t.order) && st.objects == t.order
    ensures Label(h, shared, st, v).1.objects == Mark(h, t, v).order
    decreases Objects(h) - Elems(t.order), 1
  {
    if !v.LeafV? && v !in t.order {
      FieldsInHeap(h, v);
      ObjectsComplete(h, v);
      assert v in Elems(Enter(t, v).order) && forall x :: x in t.order ==> x in Enter(t, v).order;
      LabelAllFollowsMark(h, shared, Enter(t, v), Begin(shared, st, v), Fields(h, v));
    }
  }

  lemma {:induction false} LabelAllFollowsMark(h: Heap, shared: set<Value>, t: Table, st: Written, vs: seq<Value>)
    requires WellFormed(h) && AllInHeap(h, vs) && t.count.Keys == Elems(t.order) && st.objects == t.order
    ensures LabelAll(h, shared, st, vs).1.objects == MarkAll(h, t, vs).order
    decreases Objects(h) - Elems(t.order), 2, |vs|
  {
    if vs != [] {
      var front := vs[..|vs| - 1];
      LabelAllFollowsMark(h, shared, t, st, front);
      var mid := MarkAll(h, t, front);
      assert forall x :: x in t.order ==> x in mid.order;
      assert Objects(h) - Elems(mid.order) <= Objects(h) - Elems(t.order);
      LabelFollowsMark(h, shared, mid, LabelAll(h, shared, st, front).1, vs[|vs| - 1]);
    }
  }

  // The objects to label: those that pass 1 has counted at least twice in the end.
  ghost predicate CoversRepeats(shared: set<Value>, t: Table)
    requires t.count.Keys == Elems(t.order)
  {
    forall o :: o in t.order && t.count[o] >= 2 ==> o in shared
  }

  lemma CountsOnlyGrow(h: Heap, t: Table, v: Value)
    requires WellFormed(h) && InHeap(h, v) && TableOk(h, t)
    ensures forall o :: o in t.order ==> Mark(h, t, v).count[o] >= t.count[o]
    ensures v in t.order ==> Mark(h, t, v).count[v] >= 2
    ensures TableOk(h, Mark(h, t, v))
  {
    MarkSpec(h, t, v);
    var r := Mark(h, t, v);
    forall o | o in t.order ensures r.count[o] >= t.count[o] {
      assert CountGrows(h, t, [v], r, o);
    }
  }

  lemma CountsOnlyGrowAll(h: Heap, t: Table, vs: seq<Value>)
    requires WellFormed(h) && AllInHeap(h, vs) && TableOk(h, t)
    ensures forall o :: o in t.order ==> MarkAll(h, t, vs).count[o] >= t.count[o]
    ensures TableOk(h, MarkAll(h, t, vs))
  {
    MarkAllSpec(h, t, vs);
    var r := MarkAll(h, t, vs);
    forall o | o in t.order ensures r.count[o] >= t.count[o] {
      assert CountGrows(h, t, vs, r, o);
    }
  }

  // The labelled objects are exactly the shared ones among the written ones.
  ghost predicate WrittenOk(shared: set<Value>, st: Written) {
    && (forall o :: o in st.labelled <==> o in st.objects && o in shared)
    && Distinct(st.labelled)
  }

  lemma BeginOk(shared: set<Value>, st: Written, v: Value)
    requires WrittenOk(shared, st) && v !in st.objects
    ensures WrittenOk(shared, Begin(shared, st, v))
  {
  }

  ghost function Env(labelled: seq<Value>): map<nat, Value> {
    map n: nat | n < |labelled| :: labelled[n]
  }

  ghost predicate Extends(env: map<nat, Value>, labelled: seq<Value>) {
    forall n: nat :: n < |labelled| ==> n in env && env[n] == labelled[n]
  }

  lemma {:induction false} LabelAllPrefix(h: Heap, shared: set<Value>, st: Written, vs: seq<Value>, k: nat)
    requires WellFormed(h) && AllInHeap(h, vs) && k <= |vs|
    ensures LabelAll(h, shared, st, vs).0[..k] == LabelAll(h, shared, st, vs[..k]).0
    ensures LabelAll(h, shared, st, vs[..k]).1.labelled <= LabelAll(h, shared, st, vs).1.labelled
    decreases |vs|
  {
    if k == |vs| {
      assert vs[..k] == vs;
    } else {
      LabelAllPrefix(h, shared, st, vs[..|vs| - 1], k);
      assert vs[..|vs| - 1][..k] == vs[..k];
    }
  }

  // Everything pass 2 promises about the text of v, when it writes on from st.
  ghost predicate WrittenAs(h: Heap, shared: set<Value>, env: map<nat, Value>, st: Written, v: Value, s: Syn, st': Written)
    requires WellFormed(h) && InHeap(h, v)
  {
    && st.objects <= st'.objects && st.labelled <= st'.labelled
    && WrittenOk(shared, st')
    && Describes(h, env, s, v)
    && Shown(h, s, v) == st'.objects[|st.objects|..]
    && Defined(h, s, v) == st'.labelled[|st.labelled|..]
    && Numbered(s, |st.labelled|) == Some(|st'.labelled|)
  }

  // The same for the first k parts of a node.
  ghost predicate PartsWrittenAs(h: Heap, shared: set<Value>, env: map<nat, Value>, st: Written, v: Value, s: Syn, k: nat, st': Written)
    requires WellFormed(h) && InHeap(h, v) && s.Node? && RightKind(h, v, s) && k <= |s.parts|
  {
    && st.objects <= st'.objects && st.labelled <= st'.labelled
    && WrittenOk(shared, st')
    && (forall j :: 0 <= j < k ==> Describes(h, env, s.parts[j], Field(h, v, j)))
    && ShownParts(h, s, v, k) == st'.objects[|st.objects|..]
    && DefinedParts(h, s, v, k) == st'.labelled[|st.labelled|..]
    && NumberedParts(s, k, |st.labelled|) == Some(|st'.labelled|)
  }

  lemma {:induction false} LabelCorrect(h: Heap, shared: set<Value>, t: Table, st: Written, v: Value, env: map<nat, Value>)
    requires WellFormed(h) && InHeap(h, v) && TableOk(h, t) && st.objects == t.order && WrittenOk(shared, st)
    requires CoversRepeats(shared, Mark(h, t, v)) && Extends(env, Label(h, shared, st, v).1.labelled)
    ensures WrittenAs(h, shared, env, st, v, Label(h, shared, st, v).0, Label(h, shared, st, v).1)
    decreases Objects(h) - Elems(t.order), 1
  {
    if v.LeafV? || v in t.order {
      CountsOnlyGrow(h, t, v);
      AlreadyWritten(h, shared, env, st, v);
    } else {
      FirstVisit(h, shared, t, st, v);
      var node := Node(v.VecV?, LabelAll(h, shared, Begin(shared, st, v), Fields(h, v)).0);
      LabelPartsCorrect(h, shared, Enter(t, v), Begin(shared, st, v), v, node, |node.parts|, env);
      NodeWritten(h, shared, env, st, v, node, Label(h, shared, st, v).1);
    }
  }

  lemma FirstVisit(h: Heap, shared: set<Value>, t: Table, st: Written, v: Value)
    requires WellFormed(h) && InHeap(h, v) && TableOk(h, t) && st.objects == t.order && WrittenOk(shared, st)
    requires !v.LeafV? && v !in t.order
    ensures AllInHeap(h, Fields(h, v)) && TableOk(h, Enter(t, v)) && WrittenOk(shared, Begin(shared, st, v))
    ensures Objects(h) - Elems(Enter(t, v).order) < Objects(h) - Elems(t.order)
    ensures var n, begun := |Fields(h, v)|, Begin(shared, st, v);
      && Mark(h, t, v) == MarkAll(h, Enter(t, v), Fields(h, v)[..n])
      && Label(h, shared, st, v).1 == LabelAll(h, shared, begun, Fields(h, v)[..n]).1
      && Label(h, shared, st, v).0 == Wrap(shared, st, v, Node(v.VecV?, LabelAll(h, shared, begun, Fields(h, v)).0))
  {
    FieldsInHeap(h, v);
    ObjectsComplete(h, v);
    assert v in Elems(Enter(t, v).order) && forall x :: x in t.order ==> x in Enter(t, v).order;
    BeginOk(shared, st, v);
    assert Fields(h, v)[..|Fields(h, v)|] == Fields(h, v);
  }

  lemma AlreadyWritten(h: Heap, shared: set<Value>, env: map<nat, Value>, st: Written, v: Value)
    requires WellFormed(h) && InHeap(h, v) && WrittenOk(shared, st) && Extends(env, st.labelled)
    requires v.LeafV? || (v in st.objects && v in shared)
    ensures WrittenAs(h, shared, env, st, v, Label(h, shared, st, v).0, st)
  {
    assert st.objects[|st.objects|..] == [] && st.labelled[|st.labelled|..] == [];
  }

  lemma NodeWritten(h: Heap, shared: set<Value>, env: map<nat, Value>, st: Written, v: Value, node: Syn, st': Written)
    requires WellFormed(h) && InHeap(h, v) && node.Node? && RightKind(h, v, node) && v !in st.objects
    requires PartsWrittenAs(h, shared, env, Begin(shared, st, v), v, node, |node.parts|, st')
    requires Extends(env, st'.labelled)
    ensures WrittenAs(h, shared, env, st, v, Wrap(shared, st, v, node), st')
  {
    var begun := Begin(shared, st, v);
    assert st'.objects[|st.objects|..] == [v] + st'.objects[|begun.objects|..];
    if v in shared {
      assert st'.labelled[|st.labelled|] == v;
      assert st'.labelled[|st.labelled|..] == [v] + st'.labelled[|begun.labelled|..];
    }
  }

  lemma {:induction false} LabelPartsCorrect(
      h: Heap, shared: set<Value>, t: Table, st: Written, v: Value, s: Syn, k: nat, env: map<nat, Value>)
    requires WellFormed(h) && InHeap(h, v) && AllInHeap(h, Fields(h, v)) && TableOk(h, t)
    requires st.objects == t.order && WrittenOk(shared, st)
    requires s.Node? && s.parts == LabelAll(h, shared, st, Fields(h, v)).0 && RightKind(h, v, s) && k <= |s.parts|
    requires CoversRepeats(shared, MarkAll(h, t, Fields(h, v)[..k]))
    requires Extends(env, LabelAll(h, shared, st, Fields(h, v)[..k]).1.labelled)
    ensures PartsWrittenAs(h, shared, env, st, v, s, k, LabelAll(h, shared, st, Fields(h, v)[..k]).1)
    decreases Objects(h) - Elems(t.order), 2, k
  {
    hide *;
    if k == 0 {
      NoPartsWritten(h, shared, env, st, v, s);
    } else {
      FrontInHeap(h, Fields(h, v), k - 1);
      FrontInHeap(h, Fields(h, v), k);
      LastPart(h, shared, t, st, Fields(h, v), k);
      ExtendsFront(env, LabelAll(h, shared, st, Fields(h, v)[..k - 1]).1.labelled,
                   LabelAll(h, shared, st, Fields(h, v)[..k]).1.labelled);
      LabelPartsCorrect(h, shared, t, st, v, s, k - 1, env);
      LastPartCorrect(h, shared, t, st, v, s, k, env);
    }
  }

  lemma {:induction false} LastPartCorrect(
      h: Heap, shared: set<Value>, t: Table, st: Written, v: Value, s: Syn, k: nat, env: map<nat, Value>)
    requires WellFormed(h) && InHeap(h, v) && AllInHeap(h, Fields(h, v)) && TableOk(h, t) && st.objects == t.order
    requires s.Node? && s.parts == LabelAll(h, shared, st, Fields(h, v)).0 && RightKind(h, v, s) && 0 < k <= |s.parts|
    requires CoversRepeats(shared, MarkAll(h, t, Fields(h, v)[..k]))
    requires Extends(env, LabelAll(h, shared, st, Fields(h, v)[..k]).1.labelled)
    requires PartsWrittenAs(h, shared, env, st, v, s, k - 1, LabelAll(h, shared, st, Fields(h, v)[..k - 1]).1)
    ensures PartsWrittenAs(h, shared, env, st, v, s, k, LabelAll(h, shared, st, Fields(h, v)[..k]).1)
    decreases Objects(h) - Elems(t.order), 2, 0
  {
    var fields := Fields(h, v);
    var front, last := fields[..k - 1], fields[k - 1];
    var mid, midT := LabelAll(h, shared, st, front).1, MarkAll(h, t, front);
    assert last == Field(h, v, k - 1);
    hide *;
    LastPart(h, shared, t, st, fields, k);
    PartsAreOk(h, shared, env, st, v, s, k - 1, mid);
    LabelCorrect(h, shared, midT, mid, last, env);
    PartWritten(h, shared, env, st, v, s, k, mid, Label(h, shared, mid, last).1);
  }

  lemma FrontInHeap(h: Heap, vs: seq<Value>, k: nat)
    requires AllInHeap(h, vs) && k <= |vs|
    ensures AllInHeap(h, vs[..k])
  {
  }

  lemma NoPartsWritten(h: Heap, shared: set<Value>, env: map<nat, Value>, st: Written, v: Value, s: Syn)
    requires WellFormed(h) && InHeap(h, v) && AllInHeap(h, Fields(h, v)) && s.Node? && RightKind(h, v, s)
    requires WrittenOk(shared, st)
    ensures PartsWrittenAs(h, shared, env, st, v, s, 0, LabelAll(h, shared, st, Fields(h, v)[..0]).1)
  {
    assert LabelAll(h, shared, st, Fields(h, v)[..0]).1 == st;
    hide LabelAll;
  }

  lemma PartsAreOk(h: Heap, shared: set<Value>, env: map<nat, Value>, st: Written, v: Value, s: Syn, k: nat, mid: Written)
    requires WellFormed(h) && InHeap(h, v) && s.Node? && RightKind(h, v, s) && k <= |s.parts|
    requires PartsWrittenAs(h, shared, env, st, v, s, k, mid)
    ensures WrittenOk(shared, mid)
  {
  }

  lemma ExtendsFront(env: map<nat, Value>, front: seq<Value>, labelled: seq<Value>)
    requires Extends(env, labelled) && front <= labelled
    ensures Extends(env, front)
  {
  }

  // Both passes over the first k fields end with the field k - 1, starting from where the fields before it led.
  lemma LastPart(h: Heap, shared: set<Value>, t: Table, st: Written, fields: seq<Value>, k: nat)
    requires WellFormed(h) && AllInHeap(h, fields) && TableOk(h, t) && st.objects == t.order && 0 < k <= |fields|
    ensures var front, last := fields[..k - 1], fields[k - 1];
      var mid, midT := LabelAll(h, shared, st, front).1, MarkAll(h, t, front);
      && TableOk(h, midT) && mid.objects == midT.order
      && Objects(h) - Elems(midT.order) <= Objects(h) - Elems(t.order)
      && MarkAll(h, t, fields[..k]) == Mark(h, midT, last)
      && LabelAll(h, shared, st, fields[..k]).1 == Label(h, shared, mid, last).1
      && LabelAll(h, shared, st, fields).0[k - 1] == Label(h, shared, mid, last).0
      && mid.labelled <= LabelAll(h, shared, st, fields[..k]).1.labelled
      && (CoversRepeats(shared, MarkAll(h, t, fields[..k])) ==> CoversRepeats(shared, midT))
  {
    var front, last := fields[..k - 1], fields[k - 1];
    LastMarked(h, shared, t, fields, k);
    LastLabelled(h, shared, st, fields, k);
    LabelAllFollowsMark(h, shared, t, st, front);
  }

  lemma LastMarked(h: Heap, shared: set<Value>, t: Table, fields: seq<Value>, k: nat)
    requires WellFormed(h) && AllInHeap(h, fields) && TableOk(h, t) && 0 < k <= |fields|
    ensures var midT := MarkAll(h, t, fields[..k - 1]);
      && TableOk(h, midT)
      && Objects(h) - Elems(midT.order) <= Objects(h) - Elems(t.order)
      && MarkAll(h, t, fields[..k]) == Mark(h, midT, fields[k - 1])
      && (CoversRepeats(shared, MarkAll(h, t, fields[..k])) ==> CoversRepeats(shared, midT))
  {
    var front, last := fields[..k - 1], fields[k - 1];
    assert fields[..k][..k - 1] == front && fields[..k][k - 1] == last;
    var midT := MarkAll(h, t, front);
    assert MarkAll(h, t, fields[..k]) == Mark(h, midT, last);
    hide Mark, MarkAll, Objects, WellFormed, Fields, CoversRepeats, Elems, Distinct;
    CountsOnlyGrowAll(h, t, front);
    CountsOnlyGrow(h, midT, last);
    Shrinks(Objects(h), t.order, midT.order);
    if CoversRepeats(shared, Mark(h, midT, last)) {
      LaterCovers(shared, midT, Mark(h, midT, last));
    }
  }

  lemma Shrinks(objects: set<Value>, order: seq<Value>, later: seq<Value>)
    requires order <= later
    ensures objects - Elems(later) <= objects - Elems(order)
  {
    assert forall x :: x in order ==> x in later;
  }

  lemma LaterCovers(shared: set<Value>, t: Table, later: Table)
    requires t.count.Keys == Elems(t.order) && later.count.Keys == Elems(later.order)
    requires CoversRepeats(shared, later) && t.order <= later.order
    requires forall o :: o in t.order ==> o in t.count && o in later.count && later.count[o] >= t.count[o]
    ensures CoversRepeats(shared, t)
  {
  }

  lemma LastLabelled(h: Heap, shared: set<Value>, st: Written, fields: seq<Value>, k: nat)
    requires WellFormed(h) && AllInHeap(h, fields) && 0 < k <= |fields|
    ensures var mid := LabelAll(h, shared, st, fields[..k - 1]).1;
      && LabelAll(h, shared, st, fields[..k]).1 == Label(h, shared, mid, fields[k - 1]).1
      && LabelAll(h, shared, st, fields).0[k - 1] == Label(h, shared, mid, fields[k - 1]).0
  {
    var front, last := fields[..k - 1], fields[k - 1];
    assert fields[..k][..k - 1] == front && fields[..k][k - 1] == last;
    LabelAllPrefix(h, shared, st, fields, k);
    assert LabelAll(h, shared, st, fields).0[k - 1] == LabelAll(h, shared, st, fields).0[..k][k - 1];
  }

  lemma PartWritten(h: Heap, shared: set<Value>, env: map<nat, Value>, st: Written, v: Value, s: Syn, k: nat, mid: Written, st': Written)
    requires WellFormed(h) && InHeap(h, v) && s.Node? && RightKind(h, v, s) && 0 < k <= |s.parts|
    requires PartsWrittenAs(h, shared, env, st, v, s, k - 1, mid)
    requires WrittenAs(h, shared, env, mid, Field(h, v, k - 1), s.parts[k - 1], st')
    ensures PartsWrittenAs(h, shared, env, st, v, s, k, st')
  {
    assert st'.objects[|st.objects|..] == mid.objects[|st.objects|..] + st'.objects[|mid.objects|..];
    assert st'.labelled[|st.labelled|..] == mid.labelled[|st.labelled|..] + st'.labelled[|mid.labelled|..];
  }

  // ---- main results

  // The objects of v that pass 1 reaches at least twice.
  function SharedObjects(h: Heap, v: Value): set<Value>
    requires WellFormed(h) && InHeap(h, v)
  {
    var t := Mark(h, EMPTY_TABLE, v);
    set o | o in t.order && t.count[o] >= 2
  }

  // The text that both passes together produce.
  function LabelledText(h: Heap, v: Value): Syn
    requires WellFormed(h) && InHeap(h, v)
  {
    Label(h, SharedObjects(h, v), NOTHING, v).0
  }

  // The text describes v; shows every reachable object exactly once; defines labels 0, 1, 2, ... in this order,
  // each before its first use; and labels exactly the objects with two or more incoming edges, where the root
  // counts as one edge.
  lemma LabelledTextIsFaithful(h: Heap, v: Value) returns (env: map<nat, Value>)
    requires WellFormed(h) && InHeap(h, v)
    ensures Describes(h, env, LabelledText(h, v), v)
    ensures var shown := Shown(h, LabelledText(h, v), v);
      && Distinct(shown)
      && (forall o :: o in shown <==> IsReachableObject(h, v, o))
      && AllInHeap(h, shown)
      && (forall o :: o in Defined(h, LabelledText(h, v), v) <==>
            o in shown && (if o == v then 1 else 0) + EdgesInto(h, shown, o) >= 2)
    ensures Distinct(Defined(h, LabelledText(h, v), v))
    ensures Numbered(LabelledText(h, v), 0) == Some(|Defined(h, LabelledText(h, v), v)|)
  {
    var shared, t := SharedObjects(h, v), Mark(h, EMPTY_TABLE, v);
    MarkCountsIncomingEdges(h, v);
    var r := Label(h, shared, NOTHING, v);
    env := Env(r.1.labelled);
    LabelCorrect(h, shared, EMPTY_TABLE, NOTHING, v, env);
    LabelFollowsMark(h, shared, EMPTY_TABLE, NOTHING, v);
    assert r.1.objects[0..] == r.1.objects && r.1.labelled[0..] == r.1.labelled;
  }
}
