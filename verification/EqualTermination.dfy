/** Exactly when `equal?` terminates.  The recursion of icecreme/builtins.c is written here with a bound on
    the C stack depth and no assumption about the heap: running out of stack is None. */
module EqualTermination {
  import opened Util
  import opened SchemeHeap
  import opened Equality

  function EqualWithin(h: Heap, a: Value, b: Value, seen: seq<(nat, nat)>, depth: nat): Option<bool>
    requires WellFormed(h) && InHeap(h, a) && InHeap(h, b)
    decreases depth, 0
  {
    if depth == 0 then None
    else match (a, b)
      case (LeafV(l), LeafV(m)) => Some(l == m)
      case (PairV(p), PairV(q)) =>
        if (p, q) in seen then Some(true)
        else
          (match EqualWithin(h, Field(h, a, 0), Field(h, b, 0), seen + [(p, q)], depth - 1)
           case Some(true) => EqualWithin(h, Field(h, a, 1), Field(h, b, 1), seen + [(p, q)], depth - 1)
           case r => r)
      case (VecV(i), VecV(j)) =>
        if |h.vecs[i]| != |h.vecs[j]| then Some(false) else ItemsEqualWithin(h, i, j, 0, seen, depth)
      case _ => Some(false)
  }

  function ItemsEqualWithin(h: Heap, i: nat, j: nat, k: nat, seen: seq<(nat, nat)>, depth: nat): Option<bool>
    requires WellFormed(h) && i < |h.vecs| && j < |h.vecs|
    requires |h.vecs[i]| == |h.vecs[j]| && k <= |h.vecs[i]| && depth > 0
    decreases depth - 1, 1, |h.vecs[i]| - k
  {
    if k == |h.vecs[i]| then Some(true)
    else
      match EqualWithin(h, Field(h, VecV(i), k), Field(h, VecV(j), k), seen, depth - 1)
      case Some(true) => ItemsEqualWithin(h, i, j, k + 1, seen, depth)
      case r => r
  }

  // More stack never changes an answer.
  lemma {:induction false} MoreStack(h: Heap, a: Value, b: Value, seen: seq<(nat, nat)>, d: nat, e: nat)
    requires WellFormed(h) && InHeap(h, a) && InHeap(h, b)
    requires d <= e && EqualWithin(h, a, b, seen, d).Some?
    ensures EqualWithin(h, a, b, seen, e) == EqualWithin(h, a, b, seen, d)
    decreases d, 0
  {
    if a.PairV? && b.PairV? && (a.p, b.p) !in seen {
      var deeper := seen + [(a.p, b.p)];
      MoreStack(h, Field(h, a, 0), Field(h, b, 0), deeper, d - 1, e - 1);
      if EqualWithin(h, Field(h, a, 0), Field(h, b, 0), deeper, d - 1) == Some(true) {
        MoreStack(h, Field(h, a, 1), Field(h, b, 1), deeper, d - 1, e - 1);
      }
    } else if a.VecV? && b.VecV? && |h.vecs[a.v]| == |h.vecs[b.v]| {
      MoreStackItems(h, a.v, b.v, 0, seen, d, e);
    }
  }

  lemma {:induction false} MoreStackItems(h: Heap, i: nat, j: nat, k: nat, seen: seq<(nat, nat)>, d: nat, e: nat)
    requires WellFormed(h) && i < |h.vecs| && j < |h.vecs|
    requires |h.vecs[i]| == |h.vecs[j]| && k <= |h.vecs[i]|
    requires 0 < d <= e && ItemsEqualWithin(h, i, j, k, seen, d).Some?
    ensures ItemsEqualWithin(h, i, j, k, seen, e) == ItemsEqualWithin(h, i, j, k, seen, d)
    decreases d - 1, 1, |h.vecs[i]| - k
  {
    if k < |h.vecs[i]| {
      MoreStack(h, Field(h, VecV(i), k), Field(h, VecV(j), k), seen, d - 1, e - 1);
      if EqualWithin(h, Field(h, VecV(i), k), Field(h, VecV(j), k), seen, d - 1) == Some(true) {
        MoreStackItems(h, i, j, k + 1, seen, d, e);
      }
    }
  }

  // The comparison of two pairs, or of the items from the k-th on, answers at a depth at which its parts do.
  lemma PairAnswers(h: Heap, a: Value, b: Value, seen: seq<(nat, nat)>, d: nat)
    requires WellFormed(h) && NoVectorCycle(h) && InHeap(h, a) && InHeap(h, b)
    requires a.PairV? && b.PairV? && (a.p, b.p) !in seen
    requires var deeper := seen + [(a.p, b.p)];
      && EqualWithin(h, Field(h, a, 0), Field(h, b, 0), deeper, d) == Some(EqualUnder(h, Field(h, a, 0), Field(h, b, 0), deeper))
      && EqualWithin(h, Field(h, a, 1), Field(h, b, 1), deeper, d) == Some(EqualUnder(h, Field(h, a, 1), Field(h, b, 1), deeper))
    ensures EqualWithin(h, a, b, seen, d + 1) == Some(EqualUnder(h, a, b, seen))
  {
    hide WellFormed, NoVectorCycle, Combinations, Elems;
  }

  lemma ItemAnswers(h: Heap, i: nat, j: nat, k: nat, seen: seq<(nat, nat)>, d: nat)
    requires WellFormed(h) && NoVectorCycle(h) && i < |h.vecs| && j < |h.vecs|
    requires |h.vecs[i]| == |h.vecs[j]| && k < |h.vecs[i]|
    requires var x, y := Field(h, VecV(i), k), Field(h, VecV(j), k);
      && EqualWithin(h, x, y, seen, d) == Some(EqualUnder(h, x, y, seen))
      && ItemsEqualWithin(h, i, j, k + 1, seen, d + 1) == Some(ItemsEqualUnder(h, i, j, k + 1, seen))
    ensures ItemsEqualWithin(h, i, j, k, seen, d + 1) == Some(ItemsEqualUnder(h, i, j, k, seen))
  {
    hide WellFormed, NoVectorCycle, Combinations, Elems, EqualWithin, EqualUnder;
  }

  lemma NoMoreItems(h: Heap, i: nat, j: nat, seen: seq<(nat, nat)>)
    requires WellFormed(h) && NoVectorCycle(h) && i < |h.vecs| && j < |h.vecs| && |h.vecs[i]| == |h.vecs[j]|
    ensures ItemsEqualWithin(h, i, j, |h.vecs[i]|, seen, 1) == Some(ItemsEqualUnder(h, i, j, |h.vecs[i]|, seen))
  {
    hide WellFormed, NoVectorCycle, Nesting, Combinations, Elems, EqualWithin, EqualUnder;
  }

  // What is no pair combination to be pushed and no two vectors of one length is compared at once.
  lemma AtOnce(h: Heap, a: Value, b: Value, seen: seq<(nat, nat)>)
    requires WellFormed(h) && NoVectorCycle(h) && InHeap(h, a) && InHeap(h, b)
    requires !(a.PairV? && b.PairV? && (a.p, b.p) !in seen)
    requires !(a.VecV? && b.VecV? && |h.vecs[a.v]| == |h.vecs[b.v]|)
    ensures EqualWithin(h, a, b, seen, 1) == Some(EqualUnder(h, a, b, seen))
  {
    hide WellFormed, NoVectorCycle, Nesting, Combinations, Elems, ItemsEqualWithin, ItemsEqualUnder;
  }

  lemma VectorsAnswer(h: Heap, i: nat, j: nat, seen: seq<(nat, nat)>, d: nat)
    requires WellFormed(h) && NoVectorCycle(h) && i < |h.vecs| && j < |h.vecs| && |h.vecs[i]| == |h.vecs[j]| && d > 0
    requires ItemsEqualWithin(h, i, j, 0, seen, d) == Some(ItemsEqualUnder(h, i, j, 0, seen))
    ensures EqualWithin(h, VecV(i), VecV(j), seen, d) == Some(EqualUnder(h, VecV(i), VecV(j), seen))
  {
    hide WellFormed, NoVectorCycle, Nesting, Combinations, Elems, ItemsEqualWithin, ItemsEqualUnder;
  }

  lemma OneMoreAncestor(h: Heap, a: Value, b: Value, seen: seq<(nat, nat)>)
    requires InHeap(h, a) && InHeap(h, b) && a.PairV? && b.PairV? && (a.p, b.p) !in seen
    ensures Combinations(h) - Elems(seen + [(a.p, b.p)]) < Combinations(h) - Elems(seen)
  {
    var deeper := seen + [(a.p, b.p)];
    assert (a.p, b.p) in Combinations(h) - Elems(seen) && (a.p, b.p) in Elems(deeper);
    assert forall x :: x in seen ==> x in deeper;
  }

  // Without a vector-only cycle some stack depth suffices, and the answer is the one Equality describes.
  lemma {:induction false} SomeDepthSuffices(h: Heap, a: Value, b: Value, seen: seq<(nat, nat)>) returns (d: nat)
    requires WellFormed(h) && NoVectorCycle(h) && InHeap(h, a) && InHeap(h, b)
    ensures EqualWithin(h, a, b, seen, d) == Some(EqualUnder(h, a, b, seen))
    decreases Combinations(h) - Elems(seen), Nesting(h, a), 0
  {
    hide WellFormed, NoVectorCycle, Nesting, Combinations, Elems;
    hide EqualWithin, EqualUnder, ItemsEqualWithin, ItemsEqualUnder;
    if a.PairV? && b.PairV? && (a.p, b.p) !in seen {
      OneMoreAncestor(h, a, b, seen);
      var deeper := seen + [(a.p, b.p)];
      var c := SomeDepthSuffices(h, Field(h, a, 0), Field(h, b, 0), deeper);
      var e := SomeDepthSuffices(h, Field(h, a, 1), Field(h, b, 1), deeper);
      MoreStack(h, Field(h, a, 0), Field(h, b, 0), deeper, c, c + e);
      MoreStack(h, Field(h, a, 1), Field(h, b, 1), deeper, e, c + e);
      d := c + e + 1;
      PairAnswers(h, a, b, seen, c + e);
    } else if a.VecV? && b.VecV? && |h.vecs[a.v]| == |h.vecs[b.v]| {
      d := SomeDepthSufficesItems(h, a.v, b.v, 0, seen);
      VectorsAnswer(h, a.v, b.v, seen, d);
    } else {
      d := 1;
      AtOnce(h, a, b, seen);
    }
  }

  lemma {:induction false} SomeDepthSufficesItems(h: Heap, i: nat, j: nat, k: nat, seen: seq<(nat, nat)>)
    returns (d: nat)
    requires WellFormed(h) && NoVectorCycle(h) && i < |h.vecs| && j < |h.vecs|
    requires |h.vecs[i]| == |h.vecs[j]| && k <= |h.vecs[i]|
    ensures d > 0 && ItemsEqualWithin(h, i, j, k, seen, d) == Some(ItemsEqualUnder(h, i, j, k, seen))
    decreases Combinations(h) - Elems(seen), Nesting(h, VecV(i)), 0, |h.vecs[i]| - k
  {
    hide WellFormed, NoVectorCycle, Nesting, Combinations, Elems;
    hide EqualWithin, EqualUnder, ItemsEqualWithin, ItemsEqualUnder;
    if k == |h.vecs[i]| {
      NoMoreItems(h, i, j, seen);
      d := 1;
    } else {
      NestingDrops(h, VecV(i), k);
      var x, y := Field(h, VecV(i), k), Field(h, VecV(j), k);
      var c := SomeDepthSuffices(h, x, y, seen);
      var e := SomeDepthSufficesItems(h, i, j, k + 1, seen);
      MoreStack(h, x, y, seen, c, c + e);
      MoreStackItems(h, i, j, k + 1, seen, e, c + e + 1);
      d := c + e + 1;
      ItemAnswers(h, i, j, k, seen, c + e);
    }
  }

  // A value compared with itself is never found different ...
  lemma {:induction false} SelfNeverDiffers(h: Heap, a: Value, seen: seq<(nat, nat)>, d: nat)
    requires WellFormed(h) && InHeap(h, a)
    ensures EqualWithin(h, a, a, seen, d).Some? ==> EqualWithin(h, a, a, seen, d).value
    decreases d, 0
  {
    if d > 0 && a.PairV? && (a.p, a.p) !in seen {
      SelfNeverDiffers(h, Field(h, a, 0), seen + [(a.p, a.p)], d - 1);
      SelfNeverDiffers(h, Field(h, a, 1), seen + [(a.p, a.p)], d - 1);
    } else if d > 0 && a.VecV? {
      SelfItemsNeverDiffer(h, a.v, 0, seen, d);
    }
  }

  lemma {:induction false} SelfItemsNeverDiffer(h: Heap, i: nat, k: nat, seen: seq<(nat, nat)>, d: nat)
    requires WellFormed(h) && i < |h.vecs| && k <= |h.vecs[i]| && d > 0
    ensures ItemsEqualWithin(h, i, i, k, seen, d).Some? ==> ItemsEqualWithin(h, i, i, k, seen, d).value
    ensures ItemsEqualWithin(h, i, i, k, seen, d).Some? ==>
      forall m :: k <= m < |h.vecs[i]| ==> EqualWithin(h, Field(h, VecV(i), m), Field(h, VecV(i), m), seen, d - 1).Some?
    decreases d - 1, 1, |h.vecs[i]| - k
  {
    if k < |h.vecs[i]| {
      SelfNeverDiffers(h, Field(h, VecV(i), k), seen, d - 1);
      SelfItemsNeverDiffer(h, i, k + 1, seen, d);
    }
  }

  // ... so a vector on a vector-only cycle, compared with itself, goes round the cycle at any stack depth.
  lemma {:induction false} CycleNeverAnswers(h: Heap, c: seq<nat>, at: nat, seen: seq<(nat, nat)>, d: nat)
    requires WellFormed(h) && VectorChain(h, c) && |c| >= 2 && c[0] == c[|c| - 1] && at < |c| - 1
    ensures EqualWithin(h, VecV(c[at]), VecV(c[at]), seen, d) == None
    decreases d
  {
    if d > 0 {
      var i := c[at];
      var k :| 0 <= k < |h.vecs[i]| && h.vecs[i][k] == VecV(c[at + 1]);
      var next := if at + 1 == |c| - 1 then 0 else at + 1;
      CycleNeverAnswers(h, c, next, seen, d - 1);
      assert c[next] == c[at + 1] && Field(h, VecV(i), k) == VecV(c[next]);
      SelfItemsNeverDiffer(h, i, 0, seen, d);
      assert EqualWithin(h, Field(h, VecV(i), k), Field(h, VecV(i), k), seen, d - 1) == None;
      assert EqualWithin(h, VecV(i), VecV(i), seen, d) == ItemsEqualWithin(h, i, i, 0, seen, d);
    }
  }

  ghost predicate Answers(h: Heap, a: Value, b: Value)
    requires WellFormed(h) && InHeap(h, a) && InHeap(h, b)
  {
    exists depth :: EqualWithin(h, a, b, [], depth).Some?
  }

  // equal? answers on all arguments drawn from a heap if and only if every cycle of the heap passes through
  // a pair: the ancestor stack records pairs only.
  lemma EqualTerminatesIffPairsBreakCycles(h: Heap)
    requires WellFormed(h)
    ensures (forall a, b :: InHeap(h, a) && InHeap(h, b) ==> Answers(h, a, b)) <==> NoVectorCycle(h)
  {
    if NoVectorCycle(h) {
      forall a, b | InHeap(h, a) && InHeap(h, b) ensures Answers(h, a, b) {
        var d := SomeDepthSuffices(h, a, b, []);
      }
    } else {
      var c :| VectorChain(h, c) && |c| >= 2 && c[0] == c[|c| - 1];
      var v := VecV(c[0]);
      if Answers(h, v, v) {
        var d :| EqualWithin(h, v, v, [], d).Some?;
        CycleNeverAnswers(h, c, 0, [], d);
      }
      assert InHeap(h, v) && !Answers(h, v, v);
    }
  }

  // The smallest such heap: one vector that holds itself.
  lemma SelfVectorNeverAnswers()
    ensures var h := Heap([], [[VecV(0)]]);
      WellFormed(h) && !NoVectorCycle(h) && !Answers(h, VecV(0), VecV(0))
  {
    var h := Heap([], [[VecV(0)]]);
    assert VectorChain(h, [0, 0]);
    if Answers(h, VecV(0), VecV(0)) {
      var d :| EqualWithin(h, VecV(0), VecV(0), [], d).Some?;
      CycleNeverAnswers(h, [0, 0], 0, [], d);
    }
  }
}
