/** The part of the VM heap that `equal?`, `list?`, `write-shared` and the datum loader walk: a finite
    arena of mutable pairs and vectors, possibly cyclic.  Everything else a Value can hold is a leaf. */
module SchemeHeap {
  import opened Util

  // The tags of icecreme/value.h that matter here.
  const T_NIL: nat := 0

  // A leaf is its tag and whatever creme_eqv (or, for a bytevector, memcmp) compares under that tag:
  // an integer, the bytes of a string, an address.  Two leaves are equal? exactly when these agree.
  datatype Leaf = Leaf(tag: nat, payload: seq<int>)

  const NIL: Leaf := Leaf(T_NIL, [])

  datatype Value = LeafV(leaf: Leaf) | PairV(p: nat) | VecV(v: nat)

  datatype Heap = Heap(pairs: seq<(Value, Value)>, vecs: seq<seq<Value>>)

  predicate InHeap(h: Heap, v: Value) {
    match v
    case LeafV(_) => true
    case PairV(p) => p < |h.pairs|
    case VecV(i) => i < |h.vecs|
  }

  // The values a container holds, in the order the C code visits them.
  function Fields(h: Heap, v: Value): seq<Value>
    requires InHeap(h, v)
  {
    match v
    case LeafV(_) => []
    case PairV(p) => [h.pairs[p].0, h.pairs[p].1]
    case VecV(i) => h.vecs[i]
  }

  ghost predicate WellFormed(h: Heap) {
    forall v, k :: InHeap(h, v) && 0 <= k < |Fields(h, v)| ==> InHeap(h, Fields(h, v)[k])
  }

  function Field(h: Heap, v: Value, k: nat): (r: Value)
    requires WellFormed(h) && InHeap(h, v) && k < |Fields(h, v)|
    ensures InHeap(h, r)
  {
    Fields(h, v)[k]
  }

  function Objects(h: Heap): set<Value> {
    (set p | 0 <= p < |h.pairs| :: PairV(p)) + (set i | 0 <= i < |h.vecs| :: VecV(i))
  }

  // An access path: each step names a field, 0 and 1 being car and cdr of a pair.
  function Follow(h: Heap, v: Value, path: seq<nat>): (r: Option<Value>)
    requires WellFormed(h) && InHeap(h, v)
    ensures r.Some? ==> InHeap(h, r.value)
    decreases |path|
  {
    if path == [] then Some(v)
    else if path[0] < |Fields(h, v)| then Follow(h, Field(h, v, path[0]), path[1..])
    else None
  }

  // What one look at a value reveals: its tag, its contents if it is a leaf, its length if it is a vector.
  predicate SameShape(h: Heap, a: Value, g: Heap, b: Value)
    requires InHeap(h, a) && InHeap(g, b)
  {
    match (a, b)
    case (LeafV(l), LeafV(m)) => l == m
    case (PairV(_), PairV(_)) => true
    case (VecV(_), VecV(_)) => |Fields(h, a)| == |Fields(g, b)|
    case _ => false
  }

  lemma {:induction false} FollowAppend(h: Heap, v: Value, path: seq<nat>, rest: seq<nat>)
    requires WellFormed(h) && InHeap(h, v)
    ensures Follow(h, v, path + rest) ==
            (match Follow(h, v, path) case None => None case Some(w) => Follow(h, w, rest))
    decreases |path|
  {
    if path == [] {
      assert path + rest == rest;
    } else {
      assert (path + rest)[0] == path[0] && (path + rest)[1..] == path[1..] + rest;
      if path[0] < |Fields(h, v)| {
        FollowAppend(h, Field(h, v, path[0]), path[1..], rest);
      }
    }
  }

  // A chain of vectors, each holding the next as an item.
  ghost predicate VectorChain(h: Heap, c: seq<nat>) {
    && (forall i :: 0 <= i < |c| ==> c[i] < |h.vecs|)
    && (forall i :: 0 <= i < |c| - 1 ==> VecV(c[i + 1]) in h.vecs[c[i]])
  }

  // Every cycle of the heap passes through at least one pair.
  ghost predicate NoVectorCycle(h: Heap) {
    forall c :: VectorChain(h, c) && |c| >= 2 ==> c[0] != c[|c| - 1]
  }

  // A rank that strictly drops from a vector to any vector it holds.
  ghost predicate Ranks(h: Heap, rank: map<nat, nat>) {
    forall i, x :: 0 <= i < |h.vecs| && VecV(x) in h.vecs[i] ==>
      i in rank && x in rank && rank[x] < rank[i]
  }

  ghost predicate RanksPart(h: Heap, rank: map<nat, nat>) {
    && (forall i :: i in rank ==> i < |h.vecs| && rank[i] < |rank|)
    && (forall i, x :: i in rank && VecV(x) in h.vecs[i] ==> x in rank && rank[x] < rank[i])
  }

  ghost predicate Settled(h: Heap, rank: map<nat, nat>, i: nat) {
    i < |h.vecs| && i !in rank && forall x :: VecV(x) in h.vecs[i] ==> x in rank
  }

  lemma RankOneMore(h: Heap, rank: map<nat, nat>, i: nat) returns (more: map<nat, nat>)
    requires RanksPart(h, rank) && Settled(h, rank, i)
    ensures RanksPart(h, more) && more.Keys == rank.Keys + {i}
  {
    more := rank[i := |rank|];
    assert more.Keys == rank.Keys + {i};
    assert |more.Keys| == |rank.Keys| + 1;
    forall j, x | j in more && VecV(x) in h.vecs[j] ensures x in more && more[x] < more[j] {
      if j != i {
        assert x in rank && rank[x] < rank[j];
      }
    }
  }

  // Vectors are ranked one at a time: one whose vector items all have a rank already takes the next one.
  lemma {:induction false} RankRest(h: Heap, rank: map<nat, nat>) returns (full: map<nat, nat>)
    requires WellFormed(h) && NoVectorCycle(h) && RanksPart(h, rank)
    ensures Ranks(h, full)
    decreases Interval(|h.vecs|) - rank.Keys
  {
    full := rank;
    if i :| Settled(h, rank, i) {
      assert i in Interval(|h.vecs|) - rank.Keys;
      hide WellFormed, NoVectorCycle, RanksPart, Settled, Ranks;
      var more := RankOneMore(h, rank, i);
      assert i !in Interval(|h.vecs|) - more.Keys;
      full := RankRest(h, more);
    } else if i :| 0 <= i < |h.vecs| && i !in rank {
      var c := UnrankedChain(h, rank, i, |h.vecs|);
      LongChainIsCyclic(h, c);
    }
  }

  // With no settled vector left, a chain of unranked vectors can be made as long as we like ...
  lemma {:induction false} UnrankedChain(h: Heap, rank: map<nat, nat>, i: nat, n: nat) returns (c: seq<nat>)
    requires WellFormed(h) && i < |h.vecs| && i !in rank && forall j :: !Settled(h, rank, j)
    ensures VectorChain(h, c) && |c| == n + 1 && c[0] == i
    decreases n
  {
    if n == 0 {
      c := [i];
    } else {
      assert !Settled(h, rank, i);
      var x :| VecV(x) in h.vecs[i] && x !in rank;
      var k :| 0 <= k < |h.vecs[i]| && h.vecs[i][k] == VecV(x);
      assert Fields(h, VecV(i))[k] == VecV(x) && InHeap(h, VecV(i));
      var d := UnrankedChain(h, rank, x, n - 1);
      c := [i] + d;
    }
  }

  // ... and a chain longer than the number of vectors closes on itself.
  lemma LongChainIsCyclic(h: Heap, c: seq<nat>)
    requires VectorChain(h, c) && |c| > |h.vecs|
    ensures !NoVectorCycle(h)
  {
    if Distinct(c) {
      forall x | x in c ensures x in Interval(|h.vecs|) {
      }
      DistinctWithin(c, Interval(|h.vecs|));
    }
    var i, j :| 0 <= i < j < |c| && c[i] == c[j];
    var d := c[i..j + 1];
    assert VectorChain(h, d) && |d| >= 2 && d[0] == d[|d| - 1];
  }

  // Conversely a rank rules cycles out, so ranked heaps are exactly the ones without a vector-only cycle.
  lemma {:induction false} RankDropsAlongChain(h: Heap, rank: map<nat, nat>, c: seq<nat>)
    requires Ranks(h, rank) && VectorChain(h, c) && |c| >= 2
    ensures c[0] in rank && c[|c| - 1] in rank && rank[c[|c| - 1]] < rank[c[0]]
  {
    assert VecV(c[1]) in h.vecs[c[0]];
    if |c| > 2 {
      assert VectorChain(h, c[1..]) by {
        forall i | 0 <= i < |c[1..]| - 1 ensures VecV(c[1..][i + 1]) in h.vecs[c[1..][i]] {
          assert VecV(c[i + 1 + 1]) in h.vecs[c[i + 1]];
        }
      }
      RankDropsAlongChain(h, rank, c[1..]);
    }
  }

  lemma RankedIffNoVectorCycle(h: Heap)
    requires WellFormed(h)
    ensures NoVectorCycle(h) <==> exists rank :: Ranks(h, rank)
  {
    if NoVectorCycle(h) {
      var rank := RankRest(h, map[]);
    }
    if rank :| Ranks(h, rank) {
      forall c | VectorChain(h, c) && |c| >= 2 ensures c[0] != c[|c| - 1] {
        RankDropsAlongChain(h, rank, c);
      }
    }
  }

  // The vector nesting depth that the recursive walks descend along.
  ghost function Nesting(h: Heap, v: Value): nat
    requires WellFormed(h) && NoVectorCycle(h)
  {
    RankedIffNoVectorCycle(h);
    var rank :| Ranks(h, rank);
    if v.VecV? && v.v in rank then 1 + rank[v.v] else if v.VecV? then 1 else 0
  }

  lemma NestingDrops(h: Heap, v: Value, k: nat)
    requires WellFormed(h) && NoVectorCycle(h) && v.VecV? && InHeap(h, v) && k < |Fields(h, v)|
    ensures Nesting(h, Field(h, v, k)) < Nesting(h, v)
  {
    assert Field(h, v, k) in h.vecs[v.v];
  }
}
