/** `equal?` on possibly circular structure (icecreme/builtins.c): a structural comparison that remembers
    which pair/pair combinations are still being compared, and takes a combination that comes back to
    itself for equal. */
module Equality {
  import opened Util
  import opened SchemeHeap

  // ---- what equal? is for: no access path tells the two values apart

  ghost predicate ToldApartBy(h: Heap, a: Value, b: Value, path: seq<nat>)
    requires WellFormed(h) && InHeap(h, a) && InHeap(h, b)
  {
    var x, y := Follow(h, a, path), Follow(h, b, path);
    x.Some? && y.Some? && !SameShape(h, x.value, h, y.value)
  }

  ghost predicate Bisimilar(h: Heap, a: Value, b: Value)
    requires WellFormed(h) && InHeap(h, a) && InHeap(h, b)
  {
    forall path :: !ToldApartBy(h, a, b, path)
  }

  // ---- what the code computes

  function Combinations(h: Heap): set<(nat, nat)> {
    set i, j | 0 <= i < |h.pairs| && 0 <= j < |h.pairs| :: (i, j)
  }

  // The comparison with `seen` on the ancestor stack.  Terminates because every pair pushed is a fresh
  // combination, and between two pushes the recursion only goes down nested vectors.
  ghost predicate EqualUnder(h: Heap, a: Value, b: Value, seen: seq<(nat, nat)>)
    requires WellFormed(h) && NoVectorCycle(h) && InHeap(h, a) && InHeap(h, b)
    decreases Combinations(h) - Elems(seen), Nesting(h, a), 0
  {
    match (a, b)
    case (LeafV(l), LeafV(m)) => l == m
    case (PairV(p), PairV(q)) =>
      (p, q) in seen ||
      (assert (p, q) in Combinations(h) - Elems(seen);
       assert (p, q) in Elems(seen + [(p, q)]);
       assert forall x :: x in seen ==> x in seen + [(p, q)];
       && EqualUnder(h, Field(h, a, 0), Field(h, b, 0), seen + [(p, q)])
       && EqualUnder(h, Field(h, a, 1), Field(h, b, 1), seen + [(p, q)]))
    case (VecV(i), VecV(j)) =>
      |h.vecs[i]| == |h.vecs[j]| && ItemsEqualUnder(h, i, j, 0, seen)
    case _ => false
  }

  ghost predicate ItemsEqualUnder(h: Heap, i: nat, j: nat, k: nat, seen: seq<(nat, nat)>)
    requires WellFormed(h) && NoVectorCycle(h) && i < |h.vecs| && j < |h.vecs|
    requires |h.vecs[i]| == |h.vecs[j]| && k <= |h.vecs[i]|
    decreases Combinations(h) - Elems(seen), Nesting(h, VecV(i)), 0, |h.vecs[i]| - k
  {
    k == |h.vecs[i]| ||
    (NestingDrops(h, VecV(i), k);
     && EqualUnder(h, Field(h, VecV(i), k), Field(h, VecV(j), k), seen)
     && ItemsEqualUnder(h, i, j, k + 1, seen))
  }

  // ---- a negative answer is right: the comparison descended along a path that tells the values apart

  lemma {:induction false} MismatchHasPath(h: Heap, a: Value, b: Value, seen: seq<(nat, nat)>) returns (path: seq<nat>)
    requires WellFormed(h) && NoVectorCycle(h) && InHeap(h, a) && InHeap(h, b)
    requires !EqualUnder(h, a, b, seen)
    ensures ToldApartBy(h, a, b, path)
    decreases Combinations(h) - Elems(seen), Nesting(h, a), 0
  {
    if a.PairV? && b.PairV? {
      assert (a.p, b.p) in Combinations(h) - Elems(seen);
      var deeper := seen + [(a.p, b.p)];
      assert (a.p, b.p) in Elems(deeper) && forall x :: x in seen ==> x in deeper;
      var k := if EqualUnder(h, Field(h, a, 0), Field(h, b, 0), deeper) then 1 else 0;
      var rest := MismatchHasPath(h, Field(h, a, k), Field(h, b, k), deeper);
      path := [k] + rest;
    } else if a.VecV? && b.VecV? && |h.vecs[a.v]| == |h.vecs[b.v]| {
      path := ItemMismatchHasPath(h, a.v, b.v, 0, seen);
    } else {
      path := [];
    }
  }

  lemma {:induction false} ItemMismatchHasPath(h: Heap, i: nat, j: nat, k: nat, seen: seq<(nat, nat)>)
    returns (path: seq<nat>)
    requires WellFormed(h) && NoVectorCycle(h) && i < |h.vecs| && j < |h.vecs|
    requires |h.vecs[i]| == |h.vecs[j]| && k <= |h.vecs[i]|
    requires !ItemsEqualUnder(h, i, j, k, seen)
    ensures ToldApartBy(h, VecV(i), VecV(j), path)
    decreases Combinations(h) - Elems(seen), Nesting(h, VecV(i)), 0, |h.vecs[i]| - k
  {
    NestingDrops(h, VecV(i), k);
    if EqualUnder(h, Field(h, VecV(i), k), Field(h, VecV(j), k), seen) {
      path := ItemMismatchHasPath(h, i, j, k + 1, seen);
    } else {
      var rest := MismatchHasPath(h, Field(h, VecV(i), k), Field(h, VecV(j), k), seen);
      path := [k] + rest;
    }
  }

  // ---- a positive answer is right: the visited combinations form a bisimulation

  ghost predicate Assumed(seen: seq<(nat, nat)>, a: Value, b: Value) {
    a.PairV? && b.PairV? && (a.p, b.p) in seen
  }

  // The combination looks alike on both sides, and its fields are again in R or taken for granted.
  ghost predicate Sustained(h: Heap, a: Value, b: Value, R: set<(Value, Value)>, seen: seq<(nat, nat)>) {
    && InHeap(h, a) && InHeap(h, b) && SameShape(h, a, h, b)
    && forall k :: 0 <= k < |Fields(h, a)| ==> Covered(Fields(h, a)[k], Fields(h, b)[k], R, seen)
  }

  ghost predicate Covered(a: Value, b: Value, R: set<(Value, Value)>, seen: seq<(nat, nat)>) {
    (a, b) in R || Assumed(seen, a, b)
  }

  ghost predicate Progresses(h: Heap, R: set<(Value, Value)>, seen: seq<(nat, nat)>) {
    forall a, b :: (a, b) in R ==> Sustained(h, a, b, R, seen)
  }

  lemma Widen(h: Heap, R: set<(Value, Value)>, deeper: seq<(nat, nat)>, S: set<(Value, Value)>, seen: seq<(nat, nat)>)
    requires Progresses(h, R, deeper) && R <= S
    requires forall x, y :: Assumed(deeper, x, y) ==> Covered(x, y, S, seen)
    ensures forall a, b :: (a, b) in R ==> Sustained(h, a, b, S, seen)
  {
    forall a, b | (a, b) in R ensures Sustained(h, a, b, S, seen) {
      assert Sustained(h, a, b, R, deeper);
    }
  }

  lemma {:induction false} MatchVisits(h: Heap, a: Value, b: Value, seen: seq<(nat, nat)>)
    returns (R: set<(Value, Value)>)
    requires WellFormed(h) && NoVectorCycle(h) && InHeap(h, a) && InHeap(h, b)
    requires EqualUnder(h, a, b, seen)
    ensures Covered(a, b, R, seen)
    ensures Progresses(h, R, seen)
    decreases Combinations(h) - Elems(seen), Nesting(h, a), 0
  {
    hide NoVectorCycle, Nesting;
    if Assumed(seen, a, b) {
      R := {};
    } else if a.PairV? {
      assert (a.p, b.p) in Combinations(h) - Elems(seen);
      var deeper := seen + [(a.p, b.p)];
      assert (a.p, b.p) in Elems(deeper) && forall x :: x in seen ==> x in deeper;
      var cars := MatchVisits(h, Field(h, a, 0), Field(h, b, 0), deeper);
      var cdrs := MatchVisits(h, Field(h, a, 1), Field(h, b, 1), deeper);
      R := cars + cdrs + {(a, b)};
      Widen(h, cars, deeper, R, seen);
      Widen(h, cdrs, deeper, R, seen);
      assert Sustained(h, a, b, R, seen);
    } else if a.VecV? {
      var items := MatchVisitsItems(h, a.v, b.v, 0, seen);
      R := items + {(a, b)};
      Widen(h, items, seen, R, seen);
      assert Sustained(h, a, b, R, seen);
    } else {
      R := {(a, b)};
    }
  }

  lemma {:induction false} MatchVisitsItems(h: Heap, i: nat, j: nat, k: nat, seen: seq<(nat, nat)>)
    returns (R: set<(Value, Value)>)
    requires WellFormed(h) && NoVectorCycle(h) && i < |h.vecs| && j < |h.vecs|
    requires |h.vecs[i]| == |h.vecs[j]| && k <= |h.vecs[i]|
    requires ItemsEqualUnder(h, i, j, k, seen)
    ensures forall m :: k <= m < |h.vecs[i]| ==> Covered(h.vecs[i][m], h.vecs[j][m], R, seen)
    ensures Progresses(h, R, seen)
    decreases Combinations(h) - Elems(seen), Nesting(h, VecV(i)), 0, |h.vecs[i]| - k
  {
    if k == |h.vecs[i]| {
      R := {};
    } else {
      NestingDrops(h, VecV(i), k);
      var first := MatchVisits(h, Field(h, VecV(i), k), Field(h, VecV(j), k), seen);
      var rest := MatchVisitsItems(h, i, j, k + 1, seen);
      R := first + rest;
      Widen(h, first, seen, R, seen);
      Widen(h, rest, seen, R, seen);
      forall m | k <= m < |h.vecs[i]| ensures Covered(h.vecs[i][m], h.vecs[j][m], R, seen) {
        if m > k {
          assert Covered(h.vecs[i][m], h.vecs[j][m], rest, seen);
        }
      }
    }
  }

  lemma {:induction false} VisitedNeverToldApart(h: Heap, R: set<(Value, Value)>, a: Value, b: Value, path: seq<nat>)
    requires WellFormed(h) && Progresses(h, R, []) && (a, b) in R
    ensures !ToldApartBy(h, a, b, path)
    decreases |path|
  {
    assert Sustained(h, a, b, R, []);
    if path != [] && path[0] < |Fields(h, a)| {
      VisitedNeverToldApart(h, R, Field(h, a, path[0]), Field(h, b, path[0]), path[1..]);
    }
  }

  // ---- main result

  lemma EqualIffBisimilar(h: Heap, a: Value, b: Value)
    requires WellFormed(h) && NoVectorCycle(h) && InHeap(h, a) && InHeap(h, b)
    ensures EqualUnder(h, a, b, []) <==> Bisimilar(h, a, b)
  {
    if EqualUnder(h, a, b, []) {
      var R := MatchVisits(h, a, b, []);
      forall path ensures !ToldApartBy(h, a, b, path) {
        VisitedNeverToldApart(h, R, a, b, path);
      }
    } else {
      var path := MismatchHasPath(h, a, b, []);
    }
  }

  // A path that one of two indistinguishable values has, the other has too.
  lemma {:induction false} BisimilarSamePaths(h: Heap, a: Value, b: Value, path: seq<nat>)
    requires WellFormed(h) && InHeap(h, a) && InHeap(h, b) && Bisimilar(h, a, b)
    ensures Follow(h, a, path).Some? <==> Follow(h, b, path).Some?
    decreases |path|
  {
    assert !ToldApartBy(h, a, b, []);
    if path != [] && path[0] < |Fields(h, a)| {
      var x, y := Field(h, a, path[0]), Field(h, b, path[0]);
      forall rest ensures !ToldApartBy(h, x, y, rest) {
        assert !ToldApartBy(h, a, b, [path[0]] + rest);
      }
      BisimilarSamePaths(h, x, y, path[1..]);
    }
  }

  lemma EqualIsAnEquivalence(h: Heap, a: Value, b: Value, c: Value)
    requires WellFormed(h) && NoVectorCycle(h) && InHeap(h, a) && InHeap(h, b) && InHeap(h, c)
    ensures EqualUnder(h, a, a, [])
    ensures EqualUnder(h, a, b, []) ==> EqualUnder(h, b, a, [])
    ensures EqualUnder(h, a, b, []) && EqualUnder(h, b, c, []) ==> EqualUnder(h, a, c, [])
  {
    EqualIffBisimilar(h, a, a);
    EqualIffBisimilar(h, a, b);
    EqualIffBisimilar(h, b, a);
    EqualIffBisimilar(h, b, c);
    EqualIffBisimilar(h, a, c);
    if Bisimilar(h, a, b) {
      forall path ensures !ToldApartBy(h, b, a, path) {
        assert !ToldApartBy(h, a, b, path);
      }
      if Bisimilar(h, b, c) {
        forall path ensures !ToldApartBy(h, a, c, path) {
          BisimilarSamePaths(h, a, b, path);
          assert !ToldApartBy(h, a, b, path) && !ToldApartBy(h, b, c, path);
        }
      }
    }
  }

  // ---- the code itself

  class EqualSeen {
    var stack: seq<(nat, nat)>

    constructor ()
      ensures stack == []
    {
      stack := [];
    }

    // 0 (and no push) if the combination is already an ancestor of itself.
    method Push(a: nat, b: nat) returns (pushed: bool)
      modifies this
      ensures pushed <==> (a, b) !in old(stack)
      ensures stack == if pushed then old(stack) + [(a, b)] else old(stack)
    {
      for i := 0 to |stack|
        invariant forall k :: 0 <= k < i ==> stack[k] != (a, b)
        invariant stack == old(stack)
      {
        if stack[i] == (a, b) {
          return false;
        }
      }
      stack := stack + [(a, b)];
      return true;
    }
  }

  method CremeEqualRec(h: Heap, a: Value, b: Value, seen: EqualSeen) returns (ok: bool)
    requires WellFormed(h) && NoVectorCycle(h) && InHeap(h, a) && InHeap(h, b)
    modifies seen
    ensures ok == EqualUnder(h, a, b, old(seen.stack))
    ensures seen.stack == old(seen.stack)
    decreases Combinations(h) - Elems(seen.stack), Nesting(h, a), 0
  {
    match (a, b)
    case (LeafV(l), LeafV(m)) =>
      ok := l == m;
    case (PairV(p), PairV(q)) =>
      var mark := |seen.stack|;
      var pushed := seen.Push(p, q);
      if !pushed {
        return true;
      }
      assert (p, q) in Combinations(h) - Elems(old(seen.stack)) && (p, q) in Elems(seen.stack);
      ok := CremeEqualRec(h, Field(h, a, 0), Field(h, b, 0), seen);
      if ok {
        ok := CremeEqualRec(h, Field(h, a, 1), Field(h, b, 1), seen);
      }
      seen.stack := seen.stack[..mark];
    case (VecV(i), VecV(j)) =>
      if |h.vecs[i]| != |h.vecs[j]| {
        return false;
      }
      for k := 0 to |h.vecs[i]|
        invariant seen.stack == old(seen.stack)
        invariant ItemsEqualUnder(h, i, j, 0, old(seen.stack)) == ItemsEqualUnder(h, i, j, k, old(seen.stack))
      {
        NestingDrops(h, a, k);
        var same := CremeEqualRec(h, Field(h, a, k), Field(h, b, k), seen);
        if !same {
          return false;
        }
      }
      ok := true;
    case _ =>
      ok := false;
  }

  method CremeEqual(h: Heap, a: Value, b: Value) returns (ok: bool)
    requires WellFormed(h) && NoVectorCycle(h) && InHeap(h, a) && InHeap(h, b)
    ensures ok <==> Bisimilar(h, a, b)
  {
    var seen := new EqualSeen();
    ok := CremeEqualRec(h, a, b, seen);
    EqualIffBisimilar(h, a, b);
  }
}
