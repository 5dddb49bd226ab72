/** The two passes behind `write-shared` (icecreme/builtins.c) and behind the datum labels of the ICE
    serializer (src/creme/compile/chunk_serializer.cr): count how often each pair or vector is reached, then
    write every object once, with a label if it was reached more than once. */
module Sharing {
  import opened Util
  import opened SchemeHeap

  // ---- pass 1: share_mark / count_datum_visits

  // The entries of a ShareTable: the objects in the order they were first reached, and how often so far.
  datatype Table = Table(order: seq<Value>, count: map<Value, nat>)

  ghost predicate AllInHeap(h: Heap, vs: seq<Value>) {
    forall k :: 0 <= k < |vs| ==> InHeap(h, vs[k])
  }

  lemma FieldsInHeap(h: Heap, v: Value)
    requires WellFormed(h) && InHeap(h, v)
    ensures AllInHeap(h, Fields(h, v))
  {
  }

  lemma ObjectsComplete(h: Heap, v: Value)
    requires InHeap(h, v) && !v.LeafV?
    ensures v in Objects(h)
  {
  }

  function Enter(t: Table, v: Value): Table {
    Table(t.order + [v], t.count[v := 1])
  }

  function Mark(h: Heap, t: Table, v: Value): (r: Table)
    requires WellFormed(h) && InHeap(h, v) && t.count.Keys == Elems(t.order)
    ensures r.count.Keys == Elems(r.order) && t.order <= r.order
    decreases Objects(h) - Elems(t.order), 1
  {
    if v.LeafV? then t
    else if v in t.order then t.(count := t.count[v := t.count[v] + 1])
    else
      FieldsInHeap(h, v);
      ObjectsComplete(h, v);
      assert v in Elems(Enter(t, v).order) && forall x :: x in t.order ==> x in Enter(t, v).order;
      MarkAll(h, Enter(t, v), Fields(h, v))
  }

  function MarkAll(h: Heap, t: Table, vs: seq<Value>): (r: Table)
    requires WellFormed(h) && AllInHeap(h, vs) && t.count.Keys == Elems(t.order)
    ensures r.count.Keys == Elems(r.order) && t.order <= r.order
    decreases Objects(h) - Elems(t.order), 2, |vs|
  {
    if vs == [] then t
    else
      var front := vs[..|vs| - 1];
      var mid := MarkAll(h, t, front);
      assert forall x :: x in t.order ==> x in mid.order;
      assert Objects(h) - Elems(mid.order) <= Objects(h) - Elems(t.order);
      Mark(h, mid, vs[|vs| - 1])
  }

  // ---- what pass 1 counts: edges

  function Occurs(vs: seq<Value>, o: Value): nat {
    if vs == [] then 0
    else Occurs(vs[..|vs| - 1], o) + (if vs[|vs| - 1] == o then 1 else 0)
  }

  // How many fields of the objects us hold o.
  function EdgesInto(h: Heap, us: seq<Value>, o: Value): nat
    requires AllInHeap(h, us)
  {
    if us == [] then 0
    else EdgesInto(h, us[..|us| - 1], o) + Occurs(Fields(h, us[|us| - 1]), o)
  }

  lemma {:induction false} EdgesAppend(h: Heap, us: seq<Value>, ws: seq<Value>, o: Value)
    requires AllInHeap(h, us) && AllInHeap(h, ws)
    ensures AllInHeap(h, us + ws)
    ensures EdgesInto(h, us + ws, o) == EdgesInto(h, us, o) + EdgesInto(h, ws, o)
  {
    hide Occurs;
    if ws == [] {
      assert us + ws == us;
    } else {
      var front, all := ws[..|ws| - 1], us + ws;
      EdgesAppend(h, us, front, o);
      assert all[..|all| - 1] == us + front && all[|all| - 1] == ws[|ws| - 1];
    }
  }

  function Times(t: Table, o: Value): nat
  {
    if o in t.count then t.count[o] else 0
  }

  ghost predicate Reaches(h: Heap, v: Value, o: Value)
    requires WellFormed(h) && InHeap(h, v)
  {
    exists path :: Follow(h, v, path) == Some(o)
  }

  ghost predicate ReachesAny(h: Heap, vs: seq<Value>, o: Value)
    requires WellFormed(h) && AllInHeap(h, vs)
  {
    exists k :: 0 <= k < |vs| && Reaches(h, vs[k], o)
  }

  ghost predicate TableOk(h: Heap, t: Table) {
    && t.count.Keys == Elems(t.order)
    && Distinct(t.order)
    && AllInHeap(h, t.order)
    && forall o :: o in t.order ==> !o.LeafV? && t.count[o] >= 1
  }

  // Every container among vs is in the table.
  ghost predicate AllEntered(vs: seq<Value>, t: Table) {
    forall k :: 0 <= k < |vs| ==> vs[k].LeafV? || vs[k] in t.order
  }

  ghost predicate CountsEdges(h: Heap, t: Table, targets: seq<Value>, r: Table)
    requires TableOk(h, r) && t.order <= r.order
  {
    forall o: Value :: !o.LeafV? ==> CountGrows(h, t, targets, r, o)
  }

  ghost predicate CountGrows(h: Heap, t: Table, targets: seq<Value>, r: Table, o: Value)
    requires AllInHeap(h, r.order) && t.order <= r.order
  {
    Times(r, o) == Times(t, o) + Occurs(targets, o) + EdgesInto(h, r.order[|t.order|..], o)
  }

  // Whatever is entered after the first n objects has all its fields entered as well.
  ghost predicate ClosedFrom(h: Heap, n: nat, r: Table)
    requires AllInHeap(h, r.order)
  {
    forall i :: n <= i < |r.order| ==> AllEntered(Fields(h, r.order[i]), r)
  }

  ghost predicate LedToFrom(h: Heap, n: nat, targets: seq<Value>, r: Table)
    requires WellFormed(h) && AllInHeap(h, targets)
  {
    forall i :: n <= i < |r.order| ==> ReachesAny(h, targets, r.order[i])
  }

  // r is what t becomes when each of `targets` is reached once more: what is newly entered is what they lead
  // to, and every count has grown by the number of edges just walked.
  ghost predicate MarkedFrom(h: Heap, t: Table, targets: seq<Value>, r: Table)
    requires WellFormed(h) && AllInHeap(h, targets)
  {
    && TableOk(h, r) && t.order <= r.order
    && AllEntered(targets, r)
    && ClosedFrom(h, |t.order|, r)
    && LedToFrom(h, |t.order|, targets, r)
    && CountsEdges(h, t, targets, r)
  }

  lemma {:induction false} MarkSpec(h: Heap, t: Table, v: Value)
    requires WellFormed(h) && InHeap(h, v) && TableOk(h, t)
    ensures MarkedFrom(h, t, [v], Mark(h, t, v))
    decreases Objects(h) - Elems(t.order), 1
  {
    assert t.count.Keys == Elems(t.order);
    hide *;
    if v.LeafV? || v in t.order {
      MarkedAgain(h, t, v);
    } else {
      FieldsInHeap(h, v);
      Entered(h, t, v);
      MarkAllSpec(h, Enter(t, v), Fields(h, v));
      EnteredThenMarked(h, t, v, Mark(h, t, v));
    }
  }

  lemma MarkedAgain(h: Heap, t: Table, v: Value)
    requires WellFormed(h) && InHeap(h, v) && TableOk(h, t) && (v.LeafV? || v in t.order)
    ensures MarkedFrom(h, t, [v], Mark(h, t, v))
  {
    var r := Mark(h, t, v);
    assert r.order[|t.order|..] == [];
    assert forall o :: Occurs([v], o) == if o == v then 1 else 0;
    hide WellFormed;
  }

  lemma Entered(h: Heap, t: Table, v: Value)
    requires WellFormed(h) && InHeap(h, v) && TableOk(h, t) && AllInHeap(h, Fields(h, v)) && !v.LeafV? && v !in t.order
    ensures TableOk(h, Enter(t, v)) && Mark(h, t, v) == MarkAll(h, Enter(t, v), Fields(h, v))
    ensures Objects(h) - Elems(Enter(t, v).order) < Objects(h) - Elems(t.order)
  {
    ObjectsComplete(h, v);
    assert v in Elems(Enter(t, v).order) && forall x :: x in t.order ==> x in Enter(t, v).order;
    hide WellFormed;
  }

  lemma EnteredThenMarked(h: Heap, t: Table, v: Value, r: Table)
    requires WellFormed(h) && InHeap(h, v) && TableOk(h, t) && !v.LeafV? && v !in t.order
    requires AllInHeap(h, Fields(h, v)) && MarkedFrom(h, Enter(t, v), Fields(h, v), r)
    ensures MarkedFrom(h, t, [v], r)
  {
    var n := |t.order|;
    assert r.order[n] == v && t.order <= r.order;
    assert ClosedFrom(h, n, r);
    FieldsLeadOn(h, v, r, n);
    CountOfEntered(h, t, v, r);
  }

  lemma FieldsLeadOn(h: Heap, v: Value, r: Table, n: nat)
    requires WellFormed(h) && InHeap(h, v) && n < |r.order| && r.order[n] == v
    requires AllInHeap(h, Fields(h, v)) && LedToFrom(h, n + 1, Fields(h, v), r)
    ensures LedToFrom(h, n, [v], r)
  {
    forall i | n <= i < |r.order| ensures ReachesAny(h, [v], r.order[i]) {
      if i == n {
        assert Follow(h, v, []) == Some(v);
      } else {
        assert ReachesAny(h, Fields(h, v), r.order[i]);
        var k :| 0 <= k < |Fields(h, v)| && Reaches(h, Fields(h, v)[k], r.order[i]);
        var path :| Follow(h, Fields(h, v)[k], path) == Some(r.order[i]);
        assert ([k] + path)[1..] == path;
        assert Follow(h, v, [k] + path) == Some(r.order[i]);
      }
      assert Reaches(h, [v][0], r.order[i]);
    }
  }

  lemma EdgesFromOne(h: Heap, v: Value, o: Value)
    requires InHeap(h, v)
    ensures AllInHeap(h, [v]) && EdgesInto(h, [v], o) == Occurs(Fields(h, v), o)
    ensures Occurs([v], o) == if v == o then 1 else 0
  {
  }

  lemma CountOfEntered(h: Heap, t: Table, v: Value, r: Table)
    requires InHeap(h, v) && TableOk(h, t) && !v.LeafV? && v !in t.order
    requires TableOk(h, r) && Enter(t, v).order <= r.order && CountsEdges(h, Enter(t, v), Fields(h, v), r)
    ensures CountsEdges(h, t, [v], r)
  {
    hide EdgesInto, WellFormed;
    var n := |t.order|;
    assert r.order[n] == v;
    assert r.order[n..] == [v] + r.order[n + 1..];
    forall o: Value | !o.LeafV? ensures CountGrows(h, t, [v], r, o) {
      assert CountGrows(h, Enter(t, v), Fields(h, v), r, o);
      EdgesAppend(h, [v], r.order[n + 1..], o);
      EdgesFromOne(h, v, o);
      assert Times(Enter(t, v), o) == Times(t, o) + Occurs([v], o);
    }
  }

  lemma {:induction false} MarkAllSpec(h: Heap, t: Table, vs: seq<Value>)
    requires WellFormed(h) && AllInHeap(h, vs) && TableOk(h, t)
    ensures MarkedFrom(h, t, vs, MarkAll(h, t, vs))
    decreases Objects(h) - Elems(t.order), 2, |vs|
  {
    if vs == [] {
      assert t.order[|t.order|..] == [];
    } else {
      var front, last := vs[..|vs| - 1], vs[|vs| - 1];
      var mid := MarkAll(h, t, front);
      MarkAllSpec(h, t, front);
      assert forall x :: x in t.order ==> x in mid.order;
      assert Objects(h) - Elems(mid.order) <= Objects(h) - Elems(t.order);
      MarkSpec(h, mid, last);
      MarkedTwice(h, t, vs, mid, Mark(h, mid, last));
    }
  }

  lemma MarkedTwice(h: Heap, t: Table, vs: seq<Value>, mid: Table, r: Table)
    requires WellFormed(h) && vs != [] && AllInHeap(h, vs) && TableOk(h, t)
    requires MarkedFrom(h, t, vs[..|vs| - 1], mid) && MarkedFrom(h, mid, [vs[|vs| - 1]], r)
    ensures MarkedFrom(h, t, vs, r)
  {
    var front, last := vs[..|vs| - 1], vs[|vs| - 1];
    assert t.order <= r.order;
    MarkedTwiceClosed(h, t, front, last, vs, mid, r);
    MarkedTwiceLed(h, |t.order|, front, last, vs, mid, r);
    MarkedTwiceCounts(h, t, front, last, vs, mid, r);
  }

  lemma MarkedTwiceClosed(h: Heap, t: Table, front: seq<Value>, last: Value, vs: seq<Value>, mid: Table, r: Table)
    requires vs == front + [last] && AllInHeap(h, mid.order) && AllInHeap(h, r.order) && mid.order <= r.order
    requires AllEntered(front, mid) && ClosedFrom(h, |t.order|, mid)
    requires AllEntered([last], r) && ClosedFrom(h, |mid.order|, r)
    ensures AllEntered(vs, r) && ClosedFrom(h, |t.order|, r)
  {
    assert forall x :: x in mid.order ==> x in r.order;
    assert [last][0].LeafV? || [last][0] in r.order;
    forall i | |t.order| <= i < |r.order| ensures AllEntered(Fields(h, r.order[i]), r) {
      if i < |mid.order| {
        assert r.order[i] == mid.order[i];
        assert AllEntered(Fields(h, mid.order[i]), mid);
      }
    }
  }

  lemma MarkedTwiceLed(h: Heap, n: nat, front: seq<Value>, last: Value, vs: seq<Value>, mid: Table, r: Table)
    requires WellFormed(h) && AllInHeap(h, vs) && vs == front + [last] && AllInHeap(h, front) && AllInHeap(h, [last])
    requires mid.order <= r.order && LedToFrom(h, n, front, mid) && LedToFrom(h, |mid.order|, [last], r)
    ensures LedToFrom(h, n, vs, r)
  {
    forall i | n <= i < |r.order| ensures ReachesAny(h, vs, r.order[i]) {
      if i < |mid.order| {
        assert ReachesAny(h, front, mid.order[i]);
        var k :| 0 <= k < |front| && Reaches(h, front[k], mid.order[i]);
        assert Reaches(h, vs[k], r.order[i]);
      } else {
        assert ReachesAny(h, [last], r.order[i]);
        assert Reaches(h, vs[|vs| - 1], r.order[i]);
      }
    }
  }

  lemma Spliced<T>(a: seq<T>, b: seq<T>, c: seq<T>)
    requires a <= b <= c
    ensures c[|a|..] == b[|a|..] + c[|b|..]
  {
  }

  lemma OccursAppend(front: seq<Value>, last: Value, o: Value)
    ensures Occurs(front + [last], o) == Occurs(front, o) + Occurs([last], o)
  {
    assert (front + [last])[..|front|] == front;
    assert Occurs([], o) == 0;
  }

  lemma MarkedTwiceCounts(h: Heap, t: Table, front: seq<Value>, last: Value, vs: seq<Value>, mid: Table, r: Table)
    requires vs == front + [last] && TableOk(h, t) && TableOk(h, mid) && TableOk(h, r)
    requires t.order <= mid.order <= r.order
    requires CountsEdges(h, t, front, mid) && CountsEdges(h, mid, [last], r)
    ensures CountsEdges(h, t, vs, r)
  {
    var before, after := mid.order[|t.order|..], r.order[|mid.order|..];
    Spliced(t.order, mid.order, r.order);
    assert AllInHeap(h, before) && AllInHeap(h, after);
    hide TableOk, EdgesInto, Occurs, Times, AllInHeap;
    forall o: Value | !o.LeafV? ensures CountGrows(h, t, vs, r, o) {
      assert CountGrows(h, t, front, mid, o) && CountGrows(h, mid, [last], r, o);
      EdgesAppend(h, before, after, o);
      OccursAppend(front, last, o);
    }
  }

  // Pass 1 of a whole datum.
  const EMPTY_TABLE: Table := Table([], map[])

  ghost predicate IsReachableObject(h: Heap, v: Value, o: Value)
    requires WellFormed(h) && InHeap(h, v)
  {
    !o.LeafV? && Reaches(h, v, o)
  }

  lemma {:induction false} ClosedUnderPaths(h: Heap, r: Table, w: Value, path: seq<nat>)
    requires WellFormed(h) && TableOk(h, r) && InHeap(h, w)
    requires ClosedFrom(h, 0, r)
    requires (w.LeafV? || w in r.order) && Follow(h, w, path).Some?
    ensures Follow(h, w, path).value.LeafV? || Follow(h, w, path).value in r.order
    decreases |path|
  {
    if path != [] {
      var i :| 0 <= i < |r.order| && r.order[i] == w;
      assert AllEntered(Fields(h, r.order[i]), r);
      ClosedUnderPaths(h, r, Field(h, w, path[0]), path[1..]);
    }
  }

  // Main result on pass 1: it enters exactly the objects reachable from the root, each once, and counts for each
  // the edges that lead to it: those out of reachable objects, and the one to the root itself.
  lemma MarkCountsIncomingEdges(h: Heap, v: Value)
    requires WellFormed(h) && InHeap(h, v)
    ensures var t := Mark(h, EMPTY_TABLE, v);
      && TableOk(h, t)
      && (forall o :: o in t.order <==> IsReachableObject(h, v, o))
      && (forall o :: o in t.order ==>
           t.count[o] == (if o == v then 1 else 0) + EdgesInto(h, t.order, o))
  {
    var t := Mark(h, EMPTY_TABLE, v);
    MarkSpec(h, EMPTY_TABLE, v);
    EnteredIffReachable(h, v, t);
    assert t.order[0..] == t.order;
    forall o | o in t.order ensures t.count[o] == (if o == v then 1 else 0) + EdgesInto(h, t.order, o) {
      assert CountGrows(h, EMPTY_TABLE, [v], t, o);
      assert Occurs([v], o) == if o == v then 1 else 0;
    }
  }

  lemma EnteredIffReachable(h: Heap, v: Value, t: Table)
    requires WellFormed(h) && InHeap(h, v) && TableOk(h, t)
    requires AllEntered([v], t) && ClosedFrom(h, 0, t) && LedToFrom(h, 0, [v], t)
    ensures forall o :: o in t.order <==> IsReachableObject(h, v, o)
  {
    forall o ensures o in t.order <==> IsReachableObject(h, v, o) {
      if o in t.order {
        var i :| 0 <= i < |t.order| && t.order[i] == o;
        assert ReachesAny(h, [v], t.order[i]);
      }
      if IsReachableObject(h, v, o) {
        var path :| Follow(h, v, path) == Some(o);
        assert [v][0].LeafV? || [v][0] in t.order;
        ClosedUnderPaths(h, t, v, path);
      }
    }
  }
}
