/** `write-shared` as the code performs it (icecreme/builtins.c): a growable table of entries filled by
    share_mark, then a writer that prints as it descends. */
module WriteShared {
  import opened Util
  import opened SchemeHeap
  import opened Sharing
  import opened LabelledDatum
  import opened Labelling
  import opened DatumText

  datatype ShareEntry = ShareEntry(obj: Value, count: nat, number: int, printed: bool)

  // The entries hold the table of pass 1.
  ghost predicate Holds(entries: seq<ShareEntry>, t: Table) {
    && t.count.Keys == Elems(t.order)
    && |entries| == |t.order|
    && forall i :: 0 <= i < |entries| ==>
         entries[i].obj == t.order[i] && t.order[i] in t.count && t.count[t.order[i]] == entries[i].count
  }

  // The label fields say what pass 2 has labelled so far.
  ghost predicate Labels(entries: seq<ShareEntry>, nextLabel: nat, labelled: seq<Value>) {
    && nextLabel == |labelled|
    && forall i :: 0 <= i < |entries| ==>
         && (entries[i].printed <==> entries[i].obj in labelled)
         && entries[i].number == if entries[i].obj in labelled then LabelOf(labelled, entries[i].obj) else -1
  }

  // Whatever the walk still to come reaches is in the final table, reached no more often than counted there.
  ghost predicate Below(t: Table, final: Table) {
    forall o :: o in t.count ==> o in final.count && t.count[o] <= final.count[o]
  }

  lemma MarkBelow(h: Heap, t: Table, v: Value, final: Table)
    requires WellFormed(h) && InHeap(h, v) && TableOk(h, t) && TableOk(h, final) && Below(Mark(h, t, v), final)
    ensures Below(t, final)
    ensures v in t.order ==> v in final.count && final.count[v] >= 2
  {
    CountsOnlyGrow(h, t, v);
    var r := Mark(h, t, v);
    assert forall o :: o in t.order ==> o in r.order;
  }

  ghost function Repeated(t: Table): set<Value> {
    set o | o in t.count && t.count[o] >= 2
  }

  lemma LabelOfAppend(labelled: seq<Value>, v: Value, o: Value)
    requires v !in labelled
    ensures LabelOf(labelled + [v], v) == |labelled|
    ensures o in labelled ==> LabelOf(labelled + [v], o) == LabelOf(labelled, o)
  {
    if labelled != [] {
      assert (labelled + [v])[1..] == labelled[1..] + [v];
      LabelOfAppend(labelled[1..], v, o);
    }
  }

  lemma EntryCounts(h: Heap, entries: seq<ShareEntry>, t: Table, i: nat)
    requires WellFormed(h) && Holds(entries, t) && TableOk(h, t) && i < |entries| && Unlabelled(entries)
    ensures InHeap(h, entries[i].obj)
    ensures var counted := entries[i := entries[i].(count := entries[i].count + 1)];
      Holds(counted, Mark(h, t, entries[i].obj)) && Unlabelled(counted)
  {
    forall j | 0 <= j < |entries| && j != i ensures entries[j].obj != entries[i].obj {
      assert t.order[j] != t.order[i];
    }
  }

  lemma EntryAdded(entries: seq<ShareEntry>, t: Table, v: Value)
    requires Holds(entries, t) && v !in t.order && Unlabelled(entries)
    ensures var added := entries + [ShareEntry(v, 1, -1, false)];
      Holds(added, Enter(t, v)) && Unlabelled(added)
  {
  }

  lemma MarkOk(h: Heap, t: Table, v: Value)
    requires WellFormed(h) && InHeap(h, v) && TableOk(h, t)
    ensures TableOk(h, Mark(h, t, v))
  {
    MarkSpec(h, t, v);
  }

  lemma Entering(h: Heap, t: Table, v: Value)
    requires WellFormed(h) && InHeap(h, v) && TableOk(h, t) && !v.LeafV? && v !in t.order
    ensures AllInHeap(h, Fields(h, v)) && TableOk(h, Enter(t, v))
    ensures Mark(h, t, v) == MarkAll(h, Enter(t, v), Fields(h, v))
    ensures Objects(h) - Elems(Enter(t, v).order) < Objects(h) - Elems(t.order)
  {
    FieldsInHeap(h, v);
    ObjectsComplete(h, v);
    assert v in Elems(Enter(t, v).order) && forall x :: x in t.order ==> x in Enter(t, v).order;
  }

  lemma StillToEnter(h: Heap, t: Table, now: Table)
    requires t.order <= now.order
    ensures Objects(h) - Elems(now.order) <= Objects(h) - Elems(t.order)
  {
    assert forall x :: x in t.order ==> x in now.order;
  }

  // No label assigned yet.
  ghost predicate Unlabelled(entries: seq<ShareEntry>) {
    forall i :: 0 <= i < |entries| ==> entries[i].number == -1 && !entries[i].printed
  }

  // ---- the text of pass 2, piece by piece

  lemma {:induction false} LabelIsPairShaped(h: Heap, shared: set<Value>, st: Written, v: Value)
    requires WellFormed(h) && InHeap(h, v)
    ensures PairShaped(Label(h, shared, st, v).0)
    decreases Objects(h) - Elems(st.objects), 1
  {
    if !v.LeafV? && v !in st.objects {
      FieldsInHeap(h, v);
      ObjectsComplete(h, v);
      assert v in Elems(Begin(shared, st, v).objects) && forall x :: x in st.objects ==> x in Begin(shared, st, v).objects;
      LabelAllIsPairShaped(h, shared, Begin(shared, st, v), Fields(h, v));
    }
  }

  lemma {:induction false} LabelAllIsPairShaped(h: Heap, shared: set<Value>, st: Written, vs: seq<Value>)
    requires WellFormed(h) && AllInHeap(h, vs)
    ensures forall k :: 0 <= k < |vs| ==> PairShaped(LabelAll(h, shared, st, vs).0[k])
    decreases Objects(h) - Elems(st.objects), 2, |vs|
  {
    if vs != [] {
      var front := vs[..|vs| - 1];
      var mid := LabelAll(h, shared, st, front).1;
      LabelAllIsPairShaped(h, shared, st, front);
      assert forall x :: x in st.objects ==> x in mid.objects;
      assert Objects(h) - Elems(mid.objects) <= Objects(h) - Elems(st.objects);
      LabelIsPairShaped(h, shared, mid, vs[|vs| - 1]);
    }
  }

  ghost function Text(h: Heap, shared: set<Value>, st: Written, v: Value): seq<Token>
    requires WellFormed(h) && InHeap(h, v)
  {
    LabelIsPairShaped(h, shared, st, v);
    Print(Label(h, shared, st, v).0)
  }

  ghost function TailText(h: Heap, shared: set<Value>, st: Written, v: Value): seq<Token>
    requires WellFormed(h) && InHeap(h, v)
  {
    LabelIsPairShaped(h, shared, st, v);
    PrintTail(Label(h, shared, st, v).0)
  }

  ghost function After(h: Heap, shared: set<Value>, st: Written, v: Value): Written
    requires WellFormed(h) && InHeap(h, v)
  {
    Label(h, shared, st, v).1
  }

  function Prefix(shared: set<Value>, st: Written, v: Value): seq<Token> {
    if v in shared then [LabelDef(|st.labelled|)] else []
  }

  // The items vs, separated by spaces.
  ghost function ItemsText(h: Heap, shared: set<Value>, st: Written, vs: seq<Value>): seq<Token>
    requires WellFormed(h) && AllInHeap(h, vs)
  {
    if vs == [] then []
    else
      var front := vs[..|vs| - 1];
      ItemsText(h, shared, st, front)
      + (if front != [] then [Space] else [])
      + Text(h, shared, LabelAll(h, shared, st, front).1, vs[|vs| - 1])
  }

  lemma PairLabelled(h: Heap, shared: set<Value>, st: Written, v: Value)
    requires WellFormed(h) && InHeap(h, v) && v.PairV? && v !in st.objects
    ensures var begun := Begin(shared, st, v);
      var a := Label(h, shared, begun, Field(h, v, 0));
      var d := Label(h, shared, a.1, Field(h, v, 1));
      Label(h, shared, st, v) == (Wrap(shared, st, v, Node(false, [a.0, d.0])), d.1)
  {
    FieldsInHeap(h, v);
    var begun := Begin(shared, st, v);
    var car, cdr := Field(h, v, 0), Field(h, v, 1);
    assert Fields(h, v)[..1] == [car] && [car][..0] == [];
    assert LabelAll(h, shared, begun, []) == ([], begun);
    var one := LabelAll(h, shared, begun, [car]);
    assert one == ([] + [Label(h, shared, begun, car).0], Label(h, shared, begun, car).1);
    var both := LabelAll(h, shared, begun, Fields(h, v));
    assert both == (one.0 + [Label(h, shared, one.1, cdr).0], Label(h, shared, one.1, cdr).1);
    assert both.0 == [Label(h, shared, begun, car).0, Label(h, shared, one.1, cdr).0];
  }

  lemma PairText(h: Heap, shared: set<Value>, st: Written, v: Value)
    requires WellFormed(h) && InHeap(h, v) && v.PairV? && v !in st.objects
    ensures var begun := Begin(shared, st, v);
      var mid := After(h, shared, begun, Field(h, v, 0));
      && After(h, shared, st, v) == After(h, shared, mid, Field(h, v, 1))
      && Text(h, shared, st, v) == Prefix(shared, st, v) + [Open]
           + (Text(h, shared, begun, Field(h, v, 0)) + TailText(h, shared, mid, Field(h, v, 1)))
      && (v !in shared ==>
           TailText(h, shared, st, v) == [Space]
             + (Text(h, shared, begun, Field(h, v, 0)) + TailText(h, shared, mid, Field(h, v, 1))))
  {
    PairLabelled(h, shared, st, v);
    var begun := Begin(shared, st, v);
    var a := Label(h, shared, begun, Field(h, v, 0));
    var d := Label(h, shared, a.1, Field(h, v, 1));
    LabelIsPairShaped(h, shared, st, v);
    LabelIsPairShaped(h, shared, begun, Field(h, v, 0));
    LabelIsPairShaped(h, shared, a.1, Field(h, v, 1));
    PairPrinted(a.0, d.0, |st.labelled|);
    Regroup(Prefix(shared, st, v), [Open], Print(a.0), PrintTail(d.0));
  }

  lemma PairPrinted(a: Syn, d: Syn, n: nat)
    requires PairShaped(a) && PairShaped(d)
    ensures var node := Node(false, [a, d]);
      && PairShaped(node) && Print(node) == [Open] + Print(a) + PrintTail(d)
      && Print(Def(n, node)) == [LabelDef(n)] + Print(node)
      && PrintTail(node) == [Space] + (Print(a) + PrintTail(d))
  {
    Regroup([], [Space], Print(a), PrintTail(d));
  }

  // A datum that does not simply continue a list is written after a dot.
  lemma DottedText(h: Heap, shared: set<Value>, st: Written, v: Value)
    requires WellFormed(h) && InHeap(h, v) && v != LeafV(NIL)
    requires v.PairV? ==> v in shared || v in st.objects
    ensures TailText(h, shared, st, v) == [Dot] + Text(h, shared, st, v) + [Close]
  {
    LabelIsPairShaped(h, shared, st, v);
  }

  lemma {:induction false} VectorText(h: Heap, shared: set<Value>, st: Written, v: Value)
    requires WellFormed(h) && InHeap(h, v) && v.VecV? && v !in st.objects
    ensures AllInHeap(h, Fields(h, v))
    ensures After(h, shared, st, v) == LabelAll(h, shared, Begin(shared, st, v), Fields(h, v)).1
    ensures Text(h, shared, st, v) ==
            Prefix(shared, st, v) + [OpenVector] + ItemsText(h, shared, Begin(shared, st, v), Fields(h, v)) + [Close]
  {
    FieldsInHeap(h, v);
    var begun, fields := Begin(shared, st, v), Fields(h, v);
    var node := Node(true, LabelAll(h, shared, begun, fields).0);
    LabelIsPairShaped(h, shared, st, v);
    ItemsPrinted(h, shared, begun, fields, node, 0);
    assert ItemsText(h, shared, begun, fields[..0]) + PrintItems(node, 0) == PrintItems(node, 0);
    assert Print(node) == [OpenVector] + PrintItems(node, 0);
  }

  lemma {:induction false} ItemsPrinted(h: Heap, shared: set<Value>, st: Written, vs: seq<Value>, node: Syn, k: nat)
    requires WellFormed(h) && AllInHeap(h, vs) && k <= |vs|
    requires node == Node(true, LabelAll(h, shared, st, vs).0) && PairShaped(node)
    ensures ItemsText(h, shared, st, vs[..k]) + PrintItems(node, k) == ItemsText(h, shared, st, vs) + [Close]
    decreases |vs| - k
  {
    if k == |vs| {
      assert vs[..k] == vs;
    } else {
      ItemPrinted(h, shared, st, vs, node, k);
      ItemsPrinted(h, shared, st, vs, node, k + 1);
    }
  }

  lemma ItemPrinted(h: Heap, shared: set<Value>, st: Written, vs: seq<Value>, node: Syn, k: nat)
    requires WellFormed(h) && AllInHeap(h, vs) && k < |vs|
    requires node == Node(true, LabelAll(h, shared, st, vs).0) && PairShaped(node)
    ensures ItemsText(h, shared, st, vs[..k]) + PrintItems(node, k) ==
            ItemsText(h, shared, st, vs[..k + 1]) + PrintItems(node, k + 1)
  {
    var next := vs[..k + 1];
    assert next[..k] == vs[..k] && next[k] == vs[k];
    var mid := LabelAll(h, shared, st, vs[..k]).1;
    LabelAllPrefix(h, shared, st, vs, k + 1);
    assert node.parts[k] == node.parts[..k + 1][k];
    LabelIsPairShaped(h, shared, mid, vs[k]);
    var gap := if k > 0 then [Space] else [];
    assert Print(node.parts[k]) == Text(h, shared, mid, vs[k]);
    assert ItemsText(h, shared, st, next) == ItemsText(h, shared, st, vs[..k]) + gap + Text(h, shared, mid, vs[k]);
    Regroup(ItemsText(h, shared, st, vs[..k]), gap, Text(h, shared, mid, vs[k]), PrintItems(node, k + 1));
  }

  // ---- what the writer may rely on at each step

  // The table of pass 1 as it stood when it came to v; the table at the end; and what has been written.
  ghost predicate InStep(h: Heap, t: Table, st: Written, v: Value, final: Table)
    requires WellFormed(h) && InHeap(h, v)
  {
    && TableOk(h, t) && TableOk(h, final) && st.objects == t.order
    && WrittenOk(Repeated(final), st) && TableOk(h, Mark(h, t, v)) && Below(Mark(h, t, v), final)
  }

  ghost predicate AllInStep(h: Heap, t: Table, st: Written, vs: seq<Value>, final: Table)
    requires WellFormed(h) && AllInHeap(h, vs)
  {
    && TableOk(h, t) && TableOk(h, final) && st.objects == t.order
    && WrittenOk(Repeated(final), st) && TableOk(h, MarkAll(h, t, vs)) && Below(MarkAll(h, t, vs), final)
  }

  // Where the code looks an object up: it has an entry, and if it was written before, it is a repeated one.
  lemma EntryFound(h: Heap, t: Table, st: Written, v: Value, final: Table)
    requires WellFormed(h) && InHeap(h, v) && InStep(h, t, st, v, final) && !v.LeafV?
    ensures v in final.order
    ensures v in st.objects ==> v in Repeated(final)
    ensures v in st.labelled <==> v in st.objects && v in Repeated(final)
  {
    MarkSpec(h, t, v);
    assert AllEntered([v], Mark(h, t, v)) && ([v][0].LeafV? || [v][0] in Mark(h, t, v).order);
    MarkBelow(h, t, v, final);
  }

  lemma CountTells(entries: seq<ShareEntry>, final: Table, i: nat)
    requires Holds(entries, final) && i < |entries|
    ensures entries[i].count >= 2 <==> entries[i].obj in Repeated(final)
  {
  }

  lemma IntoFields(h: Heap, t: Table, st: Written, v: Value, final: Table)
    requires WellFormed(h) && InHeap(h, v) && InStep(h, t, st, v, final) && !v.LeafV? && v !in st.objects
    ensures AllInHeap(h, Fields(h, v)) && Enter(t, v).count.Keys == Elems(Enter(t, v).order)
    ensures AllInStep(h, Enter(t, v), Begin(Repeated(final), st, v), Fields(h, v), final)
    ensures Objects(h) - Elems(Enter(t, v).order) < Objects(h) - Elems(t.order)
  {
    Entering(h, t, v);
    BeginOk(Repeated(final), st, v);
  }

  // After the first k values, the k-th is next.
  lemma IntoItem(h: Heap, t: Table, st: Written, vs: seq<Value>, k: nat, final: Table)
    requires WellFormed(h) && AllInHeap(h, vs) && k < |vs| && AllInStep(h, t, st, vs[..k + 1], final)
    requires WrittenOk(Repeated(final), LabelAll(h, Repeated(final), st, vs[..k]).1)
    ensures InStep(h, MarkAll(h, t, vs[..k]), LabelAll(h, Repeated(final), st, vs[..k]).1, vs[k], final)
    ensures Objects(h) - Elems(MarkAll(h, t, vs[..k]).order) <= Objects(h) - Elems(t.order)
    ensures LabelAll(h, Repeated(final), st, vs[..k + 1]).1 ==
            Label(h, Repeated(final), LabelAll(h, Repeated(final), st, vs[..k]).1, vs[k]).1
  {
    assert vs[..k + 1][..k] == vs[..k];
    LabelAllFollowsMark(h, Repeated(final), t, st, vs[..k]);
    MarkAllSpec(h, t, vs[..k]);
    StillToEnter(h, t, MarkAll(h, t, vs[..k]));
  }

  // What holds for a whole list of values holds for every front part of it.
  lemma {:induction false} FrontInStep(h: Heap, t: Table, st: Written, vs: seq<Value>, k: nat, final: Table)
    requires WellFormed(h) && AllInHeap(h, vs) && k <= |vs| && AllInStep(h, t, st, vs, final)
    ensures AllInStep(h, t, st, vs[..k], final)
    decreases |vs|
  {
    if k == |vs| {
      assert vs[..k] == vs;
    } else {
      var front := vs[..|vs| - 1];
      MarkAllSpec(h, t, front);
      MarkBelow(h, MarkAll(h, t, front), vs[|vs| - 1], final);
      FrontInStep(h, t, st, front, k, final);
      assert front[..k] == vs[..k];
    }
  }

  lemma StepKeepsOk(h: Heap, t: Table, st: Written, v: Value, final: Table)
    requires WellFormed(h) && InHeap(h, v) && InStep(h, t, st, v, final)
    ensures WrittenOk(Repeated(final), Label(h, Repeated(final), st, v).1)
    ensures Label(h, Repeated(final), st, v).1.objects == Mark(h, t, v).order
  {
    var shared := Repeated(final);
    LabelFollowsMark(h, shared, t, st, v);
    LabelCorrect(h, shared, t, st, v, Env(Label(h, shared, st, v).1.labelled));
  }

  lemma IntoCar(h: Heap, t: Table, st: Written, v: Value, final: Table)
    requires WellFormed(h) && InHeap(h, v) && InStep(h, t, st, v, final) && v.PairV? && v !in st.objects
    ensures var t1, st1 := Enter(t, v), Begin(Repeated(final), st, v);
      && InStep(h, t1, st1, Field(h, v, 0), final)
      && Objects(h) - Elems(t1.order) < Objects(h) - Elems(t.order)
      && t1.count.Keys == Elems(t1.order) && MarkAll(h, t1, Fields(h, v)[..1]) == Mark(h, t1, Field(h, v, 0))
  {
    hide *;
    IntoFields(h, t, st, v, final);
    var t1, st1, fields := Enter(t, v), Begin(Repeated(final), st, v), Fields(h, v);
    PairFields(h, v);
    FrontInStep(h, t1, st1, fields, 1, final);
    FrontOfOne(h, t1, st1, fields, Repeated(final));
    IntoItem(h, t1, st1, fields, 0, final);
  }

  lemma PairFields(h: Heap, v: Value)
    requires WellFormed(h) && InHeap(h, v) && v.PairV?
    ensures |Fields(h, v)| == 2 && Field(h, v, 0) == Fields(h, v)[0] && Field(h, v, 1) == Fields(h, v)[1]
    ensures Fields(h, v)[..0 + 1] == Fields(h, v)[..1]
  {
  }

  // Before and after the first of several values.
  lemma FrontOfOne(h: Heap, t: Table, st: Written, vs: seq<Value>, shared: set<Value>)
    requires WellFormed(h) && AllInHeap(h, vs) && t.count.Keys == Elems(t.order) && vs != []
    ensures AllInHeap(h, vs[..0]) && AllInHeap(h, vs[..1])
    ensures MarkAll(h, t, vs[..0]) == t && LabelAll(h, shared, st, vs[..0]).1 == st
    ensures MarkAll(h, t, vs[..1]) == Mark(h, t, vs[0])
  {
    assert vs[..0] == [] && vs[..1][..0] == [] && vs[..1][0] == vs[0];
    assert MarkAll(h, t, vs[..0]) == t;
    hide Mark, WellFormed, Elems, Label;
  }

  lemma IntoCdr(h: Heap, t: Table, st: Written, v: Value, final: Table)
    requires WellFormed(h) && InHeap(h, v) && InStep(h, t, st, v, final) && v.PairV? && v !in st.objects
    ensures var t1, st1 := Enter(t, v), Begin(Repeated(final), st, v);
      var t2, st2 := Mark(h, t1, Field(h, v, 0)), After(h, Repeated(final), st1, Field(h, v, 0));
      && InStep(h, t2, st2, Field(h, v, 1), final)
      && Objects(h) - Elems(t2.order) < Objects(h) - Elems(t.order)
  {
    hide Mark, MarkAll, Label, LabelAll, WrittenOk, Below, AllInStep;
    IntoFields(h, t, st, v, final);
    IntoCar(h, t, st, v, final);
    var t1, st1, fields := Enter(t, v), Begin(Repeated(final), st, v), Fields(h, v);
    assert fields[..1 + 1] == fields && fields[..1] == [Field(h, v, 0)] && fields[..0] == [];
    StepKeepsOk(h, t1, st1, Field(h, v, 0), final);
    OneLabelled(h, Repeated(final), st1, Field(h, v, 0));
    IntoItem(h, t1, st1, fields, 1, final);
  }

  lemma OneLabelled(h: Heap, shared: set<Value>, st: Written, v: Value)
    requires WellFormed(h) && InHeap(h, v)
    ensures AllInHeap(h, [v]) && LabelAll(h, shared, st, [v]).1 == Label(h, shared, st, v).1
  {
    assert [v][..0] == [] && LabelAll(h, shared, st, []) == ([], st);
  }

  lemma LeafText(h: Heap, shared: set<Value>, st: Written, v: Value)
    requires WellFormed(h) && InHeap(h, v) && v.LeafV?
    ensures Text(h, shared, st, v) == [Plain(v.leaf)] && After(h, shared, st, v) == st
    ensures v.leaf == NIL ==> TailText(h, shared, st, v) == [Close]
  {
  }

  lemma NoItems(h: Heap, shared: set<Value>, st: Written, items: seq<Value>)
    requires WellFormed(h)
    ensures items[..0] == [] && LabelAll(h, shared, st, []).1 == st && ItemsText(h, shared, st, []) == []
  {
  }

  lemma OneMoreItem(h: Heap, shared: set<Value>, st: Written, items: seq<Value>, k: nat)
    requires WellFormed(h) && AllInHeap(h, items) && k < |items|
    ensures ItemsText(h, shared, st, items[..k + 1]) ==
            ItemsText(h, shared, st, items[..k]) + (if k > 0 then [Space] else [])
            + Text(h, shared, LabelAll(h, shared, st, items[..k]).1, items[k])
  {
    assert items[..k + 1][..k] == items[..k];
  }

  lemma AddOn(start: seq<Token>, done: seq<Token>, gap: seq<Token>, more: seq<Token>)
    ensures start + done + gap + more == start + (done + gap + more)
  {
  }

  // The text of a container without its label.
  ghost function Body(h: Heap, shared: set<Value>, st: Written, v: Value): seq<Token>
    requires WellFormed(h) && InHeap(h, v) && !v.LeafV?
  {
    var begun := Begin(shared, st, v);
    if v.PairV? then
      [Open] + (Text(h, shared, begun, Field(h, v, 0)) + TailText(h, shared, After(h, shared, begun, Field(h, v, 0)), Field(h, v, 1)))
    else
      FieldsInHeap(h, v);
      [OpenVector] + ItemsText(h, shared, begun, Fields(h, v)) + [Close]
  }

  lemma TextIsPrefixAndBody(h: Heap, shared: set<Value>, st: Written, v: Value)
    requires WellFormed(h) && InHeap(h, v) && !v.LeafV? && v !in st.objects
    ensures Text(h, shared, st, v) == Prefix(shared, st, v) + Body(h, shared, st, v)
  {
    if v.PairV? {
      PairText(h, shared, st, v);
    } else {
      VectorText(h, shared, st, v);
    }
  }

  // The label fields after an object has been begun.
  lemma LabelGiven(entries: seq<ShareEntry>, labelled: seq<Value>, i: nat, final: Table)
    requires Distinct(final.order) && Holds(entries, final) && Labels(entries, |labelled|, labelled)
    requires i < |entries| && entries[i].obj !in labelled
    ensures var given := entries[i := entries[i].(number := |labelled|, printed := true)];
      Holds(given, final) && Labels(given, |labelled| + 1, labelled + [entries[i].obj])
  {
    var v := entries[i].obj;
    var given := entries[i := entries[i].(number := |labelled|, printed := true)];
    assert Holds(given, final);
    assert forall j :: 0 <= j < |given| && j != i ==> given[j] == entries[j] && given[j].obj != v by {
      assert forall j :: 0 <= j < |given| && j != i ==> final.order[j] != final.order[i];
    }
    hide Holds, LabelOf;
    forall j | 0 <= j < |given|
      ensures given[j].printed <==> given[j].obj in labelled + [v]
      ensures given[j].number == if given[j].obj in labelled + [v] then LabelOf(labelled + [v], given[j].obj) else -1
    {
      LabelOfAppend(labelled, v, given[j].obj);
    }
  }

  // An object written before is its reference.
  lemma WrittenBefore(h: Heap, shared: set<Value>, st: Written, v: Value)
    requires WellFormed(h) && InHeap(h, v) && !v.LeafV? && v in st.objects
    ensures After(h, shared, st, v) == st && Text(h, shared, st, v) == [LabelRef(LabelOf(st.labelled, v))]
  {
  }

  class Output {
    var toks: seq<Token>

    constructor ()
      ensures toks == []
    {
      toks := [];
    }

    method Put(t: Token)
      modifies this
      ensures toks == old(toks) + [t]
    {
      toks := toks + [t];
    }
  }

  class ShareTable {
    var entries: seq<ShareEntry>
    var nextLabel: nat

    constructor ()
      ensures entries == [] && nextLabel == 0
    {
      entries, nextLabel := [], 0;
    }

    // The index of the entry for ptr, or -1.
    method Lookup(ptr: Value) returns (i: int)
      ensures i == -1 ==> forall k :: 0 <= k < |entries| ==> entries[k].obj != ptr
      ensures i != -1 ==> 0 <= i < |entries| && entries[i].obj == ptr
    {
      for j := 0 to |entries|
        invariant forall k :: 0 <= k < j ==> entries[k].obj != ptr
      {
        if entries[j].obj == ptr {
          return j;
        }
      }
      return -1;
    }

    method ShareMark(h: Heap, v: Value, ghost t: Table)
      requires WellFormed(h) && InHeap(h, v) && TableOk(h, t) && Holds(entries, t) && Unlabelled(entries)
      modifies this
      ensures TableOk(h, Mark(h, t, v)) && Holds(entries, Mark(h, t, v)) && Unlabelled(entries)
      ensures nextLabel == old(nextLabel)
      decreases Objects(h) - Elems(t.order), 1
    {
      MarkOk(h, t, v);
      if v.LeafV? {
        return;
      }
      var i := Lookup(v);
      if i != -1 {
        assert v == entries[i].obj;
        EntryCounts(h, entries, t, i);
        entries := entries[i := entries[i].(count := entries[i].count + 1)];
        return;
      }
      assert v !in t.order;
      Entering(h, t, v);
      EntryAdded(entries, t, v);
      entries := entries + [ShareEntry(v, 1, -1, false)];
      ShareMarkAll(h, Fields(h, v), Enter(t, v));
    }

    // The calls for car and cdr, and the loop over the items of a vector.
    method ShareMarkAll(h: Heap, vs: seq<Value>, ghost t: Table)
      requires WellFormed(h) && AllInHeap(h, vs) && TableOk(h, t) && Holds(entries, t) && Unlabelled(entries)
      modifies this
      ensures TableOk(h, MarkAll(h, t, vs)) && Holds(entries, MarkAll(h, t, vs)) && Unlabelled(entries)
      ensures nextLabel == old(nextLabel)
      decreases Objects(h) - Elems(t.order), 2
    {
      ghost var now := t;
      for k := 0 to |vs|
        invariant now == MarkAll(h, t, vs[..k]) && TableOk(h, now) && Holds(entries, now) && Unlabelled(entries)
        invariant nextLabel == old(nextLabel)
      {
        assert vs[..k + 1][..k] == vs[..k];
        StillToEnter(h, t, now);
        ShareMark(h, vs[k], now);
        now := Mark(h, now, vs[k]);
      }
      assert vs[..|vs|] == vs;
    }

    // write_value_shared: the label, if any, then the contents.
    method WriteValueShared(h: Heap, v: Value, out: Output, ghost t: Table, ghost st: Written, ghost final: Table)
      requires WellFormed(h) && InHeap(h, v) && InStep(h, t, st, v, final)
      requires Holds(entries, final) && Labels(entries, nextLabel, st.labelled)
      modifies this, out
      ensures Holds(entries, final) && Labels(entries, nextLabel, After(h, Repeated(final), st, v).labelled)
      ensures out.toks == old(out.toks) + Text(h, Repeated(final), st, v)
      decreases Objects(h) - Elems(t.order), 3
    {
      hide Mark, Label, InStep, WrittenOk, Labels, Holds, Body;
      if v.LeafV? {
        LeafText(h, Repeated(final), st, v);
        out.Put(Plain(v.leaf));
        return;
      }
      var done := WriteLabel(h, v, out, t, st, final);
      if done {
        return;
      }
      TextIsPrefixAndBody(h, Repeated(final), st, v);
      if v.PairV? {
        WritePair(h, v, out, t, st, final);
      } else {
        WriteVector(h, v, out, t, st, final);
      }
    }

    // The #n# of an object written before (and nothing else), or the #n= of one to be written now.
    method WriteLabel(h: Heap, v: Value, out: Output, ghost t: Table, ghost st: Written, ghost final: Table)
      returns (done: bool)
      requires WellFormed(h) && InHeap(h, v) && InStep(h, t, st, v, final) && !v.LeafV?
      requires Holds(entries, final) && Labels(entries, nextLabel, st.labelled)
      modifies this, out
      ensures done <==> v in st.objects
      ensures done ==> After(h, Repeated(final), st, v) == st
      ensures Holds(entries, final)
      ensures Labels(entries, nextLabel, if done then st.labelled else Begin(Repeated(final), st, v).labelled)
      ensures out.toks == old(out.toks) +
        if done then Text(h, Repeated(final), st, v) else Prefix(Repeated(final), st, v)
    {
      EntryFound(h, t, st, v, final);
      assert Distinct(final.order) && final.count.Keys == Elems(final.order);
      if v in st.objects {
        WrittenBefore(h, Repeated(final), st, v);
      }
      hide InStep, WrittenOk, TableOk, Below, Mark, Label, WellFormed, Labels, After, Text;
      var i := Lookup(v);
      assert i != -1 && entries[i].obj == final.order[i] == v;
      hide Holds;
      done := LabelEntry(i, out, st.labelled, final);
    }

    // The entry of a repeated object: its reference if it is printed, else its definition under the next label.
    method LabelEntry(i: nat, out: Output, ghost labelled: seq<Value>, ghost final: Table) returns (done: bool)
      requires i < |entries| && Distinct(final.order) && Holds(entries, final) && Labels(entries, nextLabel, labelled)
      requires entries[i].obj in labelled ==> entries[i].obj in Repeated(final)
      modifies this, out
      ensures var v, shared := old(entries[i].obj), Repeated(final);
        && (done <==> v in labelled) && Holds(entries, final)
        && Labels(entries, nextLabel, if v in shared && !done then labelled + [v] else labelled)
        && out.toks == old(out.toks) +
           if done then [LabelRef(LabelOf(labelled, v))] else if v in shared then [LabelDef(|labelled|)] else []
    {
      CountTells(entries, final, i);
      assert nextLabel == |labelled| && (entries[i].printed <==> entries[i].obj in labelled);
      assert entries[i].number == if entries[i].obj in labelled then LabelOf(labelled, entries[i].obj) else -1;
      if entries[i].obj !in labelled {
        LabelGiven(entries, labelled, i, final);
      }
      hide Holds, Labels, Repeated, LabelOf, Distinct;
      if entries[i].count < 2 {
        return false;
      }
      if entries[i].printed {
        out.Put(LabelRef(entries[i].number));
        return true;
      }
      if entries[i].number < 0 {
        entries := entries[i := entries[i].(number := nextLabel)];
        nextLabel := nextLabel + 1;
      }
      out.Put(LabelDef(entries[i].number));
      entries := entries[i := entries[i].(printed := true)];
      return false;
    }

    // The T_PAIR case: the first element, then the rest of the list.
    method WritePair(h: Heap, v: Value, out: Output, ghost t: Table, ghost st: Written, ghost final: Table)
      requires WellFormed(h) && InHeap(h, v) && InStep(h, t, st, v, final) && v.PairV? && v !in st.objects
      requires Holds(entries, final) && Labels(entries, nextLabel, Begin(Repeated(final), st, v).labelled)
      modifies this, out
      ensures Holds(entries, final) && Labels(entries, nextLabel, After(h, Repeated(final), st, v).labelled)
      ensures out.toks == old(out.toks) + Body(h, Repeated(final), st, v)
      decreases Objects(h) - Elems(t.order), 2
    {
      hide Mark, Label, InStep, WrittenOk, Labels, Text, TailText, After, Below, TableOk, Repeated, Objects, WellFormed;
      ghost var shared := Repeated(final);
      IntoCar(h, t, st, v, final);
      IntoCdr(h, t, st, v, final);
      PairText(h, shared, st, v);
      ghost var t1, st1 := Enter(t, v), Begin(shared, st, v);
      ghost var t2, st2 := Mark(h, t1, Field(h, v, 0)), After(h, shared, st1, Field(h, v, 0));
      out.Put(Open);
      WriteValueShared(h, Field(h, v, 0), out, t1, st1, final);
      WriteTail(h, Field(h, v, 1), out, t2, st2, final);
    }

    // The loop over the rest of a list: elements one after the other, up to a labelled tail or the end.
    method WriteTail(h: Heap, v: Value, out: Output, ghost t: Table, ghost st: Written, ghost final: Table)
      requires WellFormed(h) && InHeap(h, v) && InStep(h, t, st, v, final)
      requires Holds(entries, final) && Labels(entries, nextLabel, st.labelled)
      modifies this, out
      ensures Holds(entries, final) && Labels(entries, nextLabel, After(h, Repeated(final), st, v).labelled)
      ensures out.toks == old(out.toks) + TailText(h, Repeated(final), st, v)
      decreases Objects(h) - Elems(t.order), 5
    {
      hide Mark, Label, InStep, WrittenOk, Labels, Text, TailText, After, Below, TableOk, Repeated, Objects, WellFormed;
      ghost var shared := Repeated(final);
      ghost var mk, s := t, st;
      var cur := v;
      while true
        invariant InHeap(h, cur) && InStep(h, mk, s, cur, final)
        invariant Objects(h) - Elems(mk.order) <= Objects(h) - Elems(t.order)
        invariant Holds(entries, final) && Labels(entries, nextLabel, s.labelled)
        invariant After(h, shared, s, cur) == After(h, shared, st, v)
        invariant out.toks + TailText(h, shared, s, cur) == old(out.toks) + TailText(h, shared, st, v)
        decreases Objects(h) - Elems(mk.order)
      {
        if cur == LeafV(NIL) {
          LeafText(h, shared, s, cur);
          out.Put(Close);
          return;
        }
        if cur.PairV? {
          EntryFound(h, mk, s, cur, final);
          var i := Lookup(cur);
          assert i != -1 && entries[i].obj == final.order[i] == cur;
          CountTells(entries, final, i);
          if entries[i].count >= 2 {
            WriteDotted(h, cur, out, mk, s, final);
            return;
          }
          IntoCar(h, mk, s, cur, final);
          IntoCdr(h, mk, s, cur, final);
          ghost var mk1, s1 := Enter(mk, cur), Begin(shared, s, cur);
          WriteElement(h, cur, out, mk, s, final);
          PairText(h, shared, s, cur);
          mk, s := Mark(h, mk1, Field(h, cur, 0)), After(h, shared, s1, Field(h, cur, 0));
          cur := Field(h, cur, 1);
        } else {
          WriteDotted(h, cur, out, mk, s, final);
          return;
        }
      }
    }

    // One more element of a list.
    method WriteElement(h: Heap, v: Value, out: Output, ghost t: Table, ghost st: Written, ghost final: Table)
      requires WellFormed(h) && InHeap(h, v) && InStep(h, t, st, v, final)
      requires v.PairV? && v !in st.objects && v !in Repeated(final)
      requires Holds(entries, final) && Labels(entries, nextLabel, st.labelled)
      modifies this, out
      ensures var begun := Begin(Repeated(final), st, v);
        && Holds(entries, final) && Labels(entries, nextLabel, After(h, Repeated(final), begun, Field(h, v, 0)).labelled)
        && out.toks + TailText(h, Repeated(final), After(h, Repeated(final), begun, Field(h, v, 0)), Field(h, v, 1)) ==
           old(out.toks) + TailText(h, Repeated(final), st, v)
      decreases Objects(h) - Elems(t.order), 3
    {
      hide Mark, Label, InStep, WrittenOk, Labels, Text, TailText, After, Below, TableOk, Repeated, Objects, WellFormed;
      IntoCar(h, t, st, v, final);
      PairText(h, Repeated(final), st, v);
      out.Put(Space);
      WriteValueShared(h, Field(h, v, 0), out, Enter(t, v), Begin(Repeated(final), st, v), final);
    }

    // A dotted tail.
    method WriteDotted(h: Heap, v: Value, out: Output, ghost t: Table, ghost st: Written, ghost final: Table)
      requires WellFormed(h) && InHeap(h, v) && InStep(h, t, st, v, final) && v != LeafV(NIL)
      requires v.PairV? ==> v in Repeated(final) || v in st.objects
      requires Holds(entries, final) && Labels(entries, nextLabel, st.labelled)
      modifies this, out
      ensures Holds(entries, final) && Labels(entries, nextLabel, After(h, Repeated(final), st, v).labelled)
      ensures out.toks == old(out.toks) + TailText(h, Repeated(final), st, v)
      decreases Objects(h) - Elems(t.order), 4
    {
      hide Mark, Label, InStep, WrittenOk, Labels, Text, TailText, After, Below, TableOk, Repeated, Objects, WellFormed;
      DottedText(h, Repeated(final), st, v);
      out.Put(Dot);
      WriteValueShared(h, v, out, t, st, final);
      out.Put(Close);
    }

    // The T_VECTOR case.
    method WriteVector(h: Heap, v: Value, out: Output, ghost t: Table, ghost st: Written, ghost final: Table)
      requires WellFormed(h) && InHeap(h, v) && InStep(h, t, st, v, final) && v.VecV? && v !in st.objects
      requires Holds(entries, final) && Labels(entries, nextLabel, Begin(Repeated(final), st, v).labelled)
      modifies this, out
      ensures Holds(entries, final) && Labels(entries, nextLabel, After(h, Repeated(final), st, v).labelled)
      ensures out.toks == old(out.toks) + Body(h, Repeated(final), st, v)
      decreases Objects(h) - Elems(t.order), 2
    {
      hide Mark, MarkAll, Label, LabelAll, InStep, WrittenOk, Labels, Text, ItemsText, Below, TableOk, Repeated, Objects, WellFormed;
      ghost var shared := Repeated(final);
      VectorText(h, shared, st, v);
      IntoFields(h, t, st, v, final);
      out.Put(OpenVector);
      ghost var start := out.toks;
      var items := Fields(h, v);
      ghost var t1, st1 := Enter(t, v), Begin(shared, st, v);
      NoItems(h, shared, st1, items);
      for k := 0 to |items|
        invariant Holds(entries, final) && WrittenOk(shared, LabelAll(h, shared, st1, items[..k]).1)
        invariant Labels(entries, nextLabel, LabelAll(h, shared, st1, items[..k]).1.labelled)
        invariant out.toks == start + ItemsText(h, shared, st1, items[..k])
      {
        FrontInStep(h, t1, st1, items, k + 1, final);
        IntoItem(h, t1, st1, items, k, final);
        OneMoreItem(h, shared, st1, items, k);
        if k != 0 {
          out.Put(Space);
        }
        ghost var mk, s := MarkAll(h, t1, items[..k]), LabelAll(h, shared, st1, items[..k]).1;
        StepKeepsOk(h, mk, s, items[k], final);
        WriteValueShared(h, items[k], out, mk, s, final);
        AddOn(start, ItemsText(h, shared, st1, items[..k]), if k > 0 then [Space] else [], Text(h, shared, s, items[k]));
      }
      assert items[..|items|] == items;
      out.Put(Close);
    }
  }

  // The whole of bi_write_shared, up to the port the bytes go to.
  method WriteSharedDatum(h: Heap, v: Value) returns (toks: seq<Token>)
    requires WellFormed(h) && InHeap(h, v)
    ensures PairShaped(LabelledText(h, v)) && toks == Print(LabelledText(h, v))
    ensures Read(toks) == Some((LabelledText(h, v), []))
  {
    var table := new ShareTable();
    table.ShareMark(h, v, EMPTY_TABLE);
    var out := new Output();
    ghost var final := Mark(h, EMPTY_TABLE, v);
    table.WriteValueShared(h, v, out, EMPTY_TABLE, NOTHING, final);
    toks := out.toks;
    assert Repeated(final) == SharedObjects(h, v);
    LabelIsPairShaped(h, SharedObjects(h, v), NOTHING, v);
    ReadPrint(LabelledText(h, v), []);
    assert toks + [] == toks;
  }
}
