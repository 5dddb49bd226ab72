/** `creme_hash_value`, the companion of `equal?` that the hash table keys on (icecreme/builtins.c). */
module Hashing {
  import opened Util
  import opened SchemeHeap
  import opened Equality
  import opened Word64

  // (tag + 1) * 0x2545f4914f6cdd1d for T_PAIR and T_VECTOR.
  const PAIR_SALT: Word := 8 * 0x2545f4914f6cdd1d % MODULUS
  const VECTOR_SALT: Word := 9 * 0x2545f4914f6cdd1d % MODULUS

  function Combine(h: Word, x: Word): Word {
    Xor(h, Add(x, Add(0x9e3779b97f4a7c15, Add(ShiftLeft6(h), ShiftRight2(h)))))
  }

  function LengthSeed(n: nat): Word {
    n % MODULUS
  }

  // A leaf hashes by its tag and payload alone, the two things creme_eqv compares.
  type LeafHash = Leaf -> Word

  ghost function HashUnder(h: Heap, leafHash: LeafHash, v: Value, seen: seq<nat>): Word
    requires WellFormed(h) && NoVectorCycle(h) && InHeap(h, v)
    decreases Interval(|h.pairs|) - Elems(seen), Nesting(h, v), 0
  {
    match v
    case LeafV(l) => leafHash(l)
    case PairV(p) =>
      if p in seen then PAIR_SALT
      else
        assert p in Interval(|h.pairs|) - Elems(seen) && p in Elems(seen + [p]);
        assert forall x :: x in seen ==> x in seen + [p];
        Xor(PAIR_SALT, Combine(HashUnder(h, leafHash, Field(h, v, 0), seen + [p]),
                            HashUnder(h, leafHash, Field(h, v, 1), seen + [p])))
    case VecV(i) =>
      Xor(VECTOR_SALT, ItemsHashUnder(h, leafHash, i, |h.vecs[i]|, seen))
  }

  // The running hash after the first k items.
  ghost function ItemsHashUnder(h: Heap, leafHash: LeafHash, i: nat, k: nat, seen: seq<nat>): Word
    requires WellFormed(h) && NoVectorCycle(h) && i < |h.vecs| && k <= |h.vecs[i]|
    decreases Interval(|h.pairs|) - Elems(seen), Nesting(h, VecV(i)), 0, k
  {
    if k == 0 then LengthSeed(|h.vecs[i]|)
    else
      NestingDrops(h, VecV(i), k - 1);
      Combine(ItemsHashUnder(h, leafHash, i, k - 1, seen), HashUnder(h, leafHash, Field(h, VecV(i), k - 1), seen))
  }

  // ---- acyclic values are finite trees

  datatype Tree = TLeaf(leaf: Leaf) | TPair(car: Tree, cdr: Tree) | TVec(items: seq<Tree>)

  // v unfolds to the finite tree t.  A value is acyclic exactly when there is such a tree.
  ghost predicate Unfolds(h: Heap, v: Value, t: Tree)
    requires WellFormed(h) && InHeap(h, v)
    decreases t
  {
    match t
    case TLeaf(l) => v == LeafV(l)
    case TPair(car, cdr) => v.PairV? && Unfolds(h, Field(h, v, 0), car) && Unfolds(h, Field(h, v, 1), cdr)
    case TVec(items) =>
      && v.VecV? && |items| == |h.vecs[v.v]|
      && forall k :: 0 <= k < |items| ==> Unfolds(h, Field(h, v, k), items[k])
  }

  ghost predicate Acyclic(h: Heap, v: Value)
    requires WellFormed(h) && InHeap(h, v)
  {
    exists t :: Unfolds(h, v, t)
  }

  function TreeHash(leafHash: LeafHash, t: Tree): Word
    decreases t, 0
  {
    match t
    case TLeaf(l) => leafHash(l)
    case TPair(car, cdr) => Xor(PAIR_SALT, Combine(TreeHash(leafHash, car), TreeHash(leafHash, cdr)))
    case TVec(items) => Xor(VECTOR_SALT, ItemsTreeHash(leafHash, t, |items|))
  }

  function ItemsTreeHash(leafHash: LeafHash, t: Tree, k: nat): Word
    requires t.TVec? && k <= |t.items|
    decreases t, 0, k
  {
    if k == 0 then LengthSeed(|t.items|)
    else Combine(ItemsTreeHash(leafHash, t, k - 1), TreeHash(leafHash, t.items[k - 1]))
  }

  lemma {:induction false} UnfoldingIsUnique(h: Heap, v: Value, t: Tree, u: Tree)
    requires WellFormed(h) && InHeap(h, v) && Unfolds(h, v, t) && Unfolds(h, v, u)
    ensures t == u
    decreases t
  {
    if t.TPair? {
      UnfoldingIsUnique(h, Field(h, v, 0), t.car, u.car);
      UnfoldingIsUnique(h, Field(h, v, 1), t.cdr, u.cdr);
    } else if t.TVec? {
      forall k | 0 <= k < |t.items| ensures t.items[k] == u.items[k] {
        UnfoldingIsUnique(h, Field(h, v, k), t.items[k], u.items[k]);
      }
    }
  }

  // The pairs on the ancestor stack all unfold to trees that properly contain the one at hand.
  ghost predicate Ancestors(h: Heap, above: seq<nat>, t: Tree)
    requires WellFormed(h)
  {
    forall p :: p in above ==> p < |h.pairs| && exists big :: Unfolds(h, PairV(p), big) && t < big
  }

  lemma AncestorsBelow(h: Heap, above: seq<nat>, p: nat, t: Tree, sub: Tree)
    requires WellFormed(h) && Ancestors(h, above, t) && p < |h.pairs| && Unfolds(h, PairV(p), t) && sub < t
    ensures Ancestors(h, above + [p], sub)
  {
    forall q | q in above + [p] ensures q < |h.pairs| && exists big :: Unfolds(h, PairV(q), big) && sub < big {
      if q in above {
        var big :| Unfolds(h, PairV(q), big) && t < big;
        assert sub < big;
      }
    }
  }

  lemma NotItsOwnAncestor(h: Heap, above: seq<nat>, p: nat, t: Tree)
    requires WellFormed(h) && Ancestors(h, above, t) && p < |h.pairs| && Unfolds(h, PairV(p), t)
    ensures p !in above
  {
    if p in above {
      var big :| Unfolds(h, PairV(p), big) && t < big;
      UnfoldingIsUnique(h, PairV(p), t, big);
    }
  }

  // On an acyclic value the ancestor stack of the hash never fires: the hash is that of the tree.
  lemma {:induction false} HashIsTreeHash(h: Heap, leafHash: LeafHash, v: Value, t: Tree, seen: seq<nat>)
    requires WellFormed(h) && NoVectorCycle(h) && InHeap(h, v) && Unfolds(h, v, t) && Ancestors(h, seen, t)
    ensures HashUnder(h, leafHash, v, seen) == TreeHash(leafHash, t)
    decreases t, 0
  {
    if t.TPair? {
      NotItsOwnAncestor(h, seen, v.p, t);
      AncestorsBelow(h, seen, v.p, t, t.car);
      AncestorsBelow(h, seen, v.p, t, t.cdr);
      HashIsTreeHash(h, leafHash, Field(h, v, 0), t.car, seen + [v.p]);
      HashIsTreeHash(h, leafHash, Field(h, v, 1), t.cdr, seen + [v.p]);
    } else if t.TVec? {
      ItemsHashIsTreeHash(h, leafHash, v, t, |t.items|, seen);
    }
  }

  lemma {:induction false} ItemsHashIsTreeHash(h: Heap, leafHash: LeafHash, v: Value, t: Tree, k: nat, seen: seq<nat>)
    requires WellFormed(h) && NoVectorCycle(h) && InHeap(h, v) && t.TVec? && Unfolds(h, v, t) && Ancestors(h, seen, t)
    requires k <= |t.items|
    ensures ItemsHashUnder(h, leafHash, v.v, k, seen) == ItemsTreeHash(leafHash, t, k)
    decreases t, 0, k
  {
    if k > 0 {
      var sub := t.items[k - 1];
      assert sub < t;
      forall q | q in seen ensures q < |h.pairs| && exists big :: Unfolds(h, PairV(q), big) && sub < big {
        var big :| Unfolds(h, PairV(q), big) && t < big;
        assert sub < big;
      }
      ItemsHashIsTreeHash(h, leafHash, v, t, k - 1, seen);
      HashIsTreeHash(h, leafHash, Field(h, v, k - 1), sub, seen);
    }
  }

  // On an acyclic value equal? is plain structural equality: the two values unfold to the same tree.
  lemma {:induction false} BisimilarUnfoldsAlike(h: Heap, a: Value, b: Value, t: Tree)
    requires WellFormed(h) && InHeap(h, a) && InHeap(h, b) && Unfolds(h, a, t)
    ensures Bisimilar(h, a, b) <==> Unfolds(h, b, t)
    decreases t
  {
    if Bisimilar(h, a, b) {
      assert !ToldApartBy(h, a, b, []);
      forall k | 0 <= k < |Fields(h, a)| ensures Bisimilar(h, Field(h, a, k), Field(h, b, k)) {
        forall rest ensures !ToldApartBy(h, Field(h, a, k), Field(h, b, k), rest) {
          assert !ToldApartBy(h, a, b, [k] + rest);
        }
      }
      match t
      case TLeaf(_) =>
      case TPair(car, cdr) =>
        BisimilarUnfoldsAlike(h, Field(h, a, 0), Field(h, b, 0), car);
        BisimilarUnfoldsAlike(h, Field(h, a, 1), Field(h, b, 1), cdr);
      case TVec(items) =>
        forall k | 0 <= k < |items| ensures Unfolds(h, Field(h, b, k), items[k]) {
          BisimilarUnfoldsAlike(h, Field(h, a, k), Field(h, b, k), items[k]);
        }
    }
    if Unfolds(h, b, t) {
      forall path ensures !ToldApartBy(h, a, b, path) {
        SameTreeNeverToldApart(h, a, b, t, path);
      }
    }
  }

  lemma {:induction false} SameTreeNeverToldApart(h: Heap, a: Value, b: Value, t: Tree, path: seq<nat>)
    requires WellFormed(h) && InHeap(h, a) && InHeap(h, b) && Unfolds(h, a, t) && Unfolds(h, b, t)
    ensures !ToldApartBy(h, a, b, path)
    decreases |path|
  {
    if path != [] && path[0] < |Fields(h, a)| {
      var k := path[0];
      var sub := if t.TPair? then (if k == 0 then t.car else t.cdr) else t.items[k];
      SameTreeNeverToldApart(h, Field(h, a, k), Field(h, b, k), sub, path[1..]);
    }
  }

  // ---- main results

  lemma EqualOnAcyclicIsStructural(h: Heap, a: Value, b: Value, t: Tree)
    requires WellFormed(h) && NoVectorCycle(h) && InHeap(h, a) && InHeap(h, b) && Unfolds(h, a, t)
    ensures EqualUnder(h, a, b, []) <==> Unfolds(h, b, t)
  {
    EqualIffBisimilar(h, a, b);
    BisimilarUnfoldsAlike(h, a, b, t);
  }

  lemma EqualImpliesSameHash(h: Heap, leafHash: LeafHash, a: Value, b: Value)
    requires WellFormed(h) && NoVectorCycle(h) && InHeap(h, a) && InHeap(h, b)
    requires Acyclic(h, a) && EqualUnder(h, a, b, [])
    ensures HashUnder(h, leafHash, a, []) == HashUnder(h, leafHash, b, [])
  {
    var t :| Unfolds(h, a, t);
    EqualOnAcyclicIsStructural(h, a, b, t);
    HashIsTreeHash(h, leafHash, a, t, []);
    HashIsTreeHash(h, leafHash, b, t, []);
  }

  // Two spellings of the same circular list: #0=(x . #0#), and one more x in front of it.
  function CircularHeap(x: Leaf): Heap {
    Heap([(LeafV(x), PairV(0)), (LeafV(x), PairV(0))], [])
  }

  // For a fixed first word the mixing step loses nothing of the second.
  lemma CombineIsInjective(h: Word, x: Word, y: Word)
    ensures Combine(h, x) == Combine(h, y) ==> x == y
  {
    var k := Add(0x9e3779b97f4a7c15, Add(ShiftLeft6(h), ShiftRight2(h)));
    XorCancels(h, Add(x, k), Add(y, k));
    AddCancels(x, y, k);
  }

  lemma CircularListsAreEqual(x: Leaf)
    ensures var h := CircularHeap(x);
      WellFormed(h) && NoVectorCycle(h) && EqualUnder(h, PairV(0), PairV(1), [])
  {
    var h := CircularHeap(x);
    assert WellFormed(h) && NoVectorCycle(h);
    var a, b := PairV(0), PairV(1);
    assert Fields(h, a) == Fields(h, b);
    EqualIffBisimilar(h, a, a);
    EqualIffBisimilar(h, a, b);
    EqualIsAnEquivalence(h, a, a, a);
    forall path ensures !ToldApartBy(h, a, b, path) {
      assert !ToldApartBy(h, a, a, path);
    }
  }

  lemma HashOfCircularPair(leafHash: LeafHash, x: Leaf, p: nat, seen: seq<nat>)
    requires WellFormed(CircularHeap(x)) && NoVectorCycle(CircularHeap(x)) && p < 2 && p !in seen
    ensures HashUnder(CircularHeap(x), leafHash, PairV(p), seen) ==
            Xor(PAIR_SALT, Combine(leafHash(x), HashUnder(CircularHeap(x), leafHash, PairV(0), seen + [p])))
  {
    assert Field(CircularHeap(x), PairV(p), 0) == LeafV(x) && Field(CircularHeap(x), PairV(p), 1) == PairV(0);
  }

  lemma HashesDifferUnlessZero(word: Word)
    ensures var once := Xor(PAIR_SALT, Combine(word, PAIR_SALT));
      once == Xor(PAIR_SALT, Combine(word, once)) <==> Combine(word, PAIR_SALT) == 0
  {
    var once := Xor(PAIR_SALT, Combine(word, PAIR_SALT));
    XorCancels(PAIR_SALT, Combine(word, PAIR_SALT), Combine(word, once));
    CombineIsInjective(word, PAIR_SALT, once);
  }

  // Off acyclic values the hash is NOT consistent with equal?: these two lists are equal?, yet their hashes
  // agree only in the accident that the mixed-in word is zero.
  lemma CircularListsHashApart(leafHash: LeafHash, x: Leaf)
    ensures var h := CircularHeap(x);
      && WellFormed(h) && NoVectorCycle(h)
      && EqualUnder(h, PairV(0), PairV(1), [])
      && (HashUnder(h, leafHash, PairV(0), []) == HashUnder(h, leafHash, PairV(1), []) <==>
          Combine(leafHash(x), PAIR_SALT) == 0)
  {
    CircularListsAreEqual(x);
    var h := CircularHeap(x);
    assert [0] == [] + [0] && [1] == [] + [1] && [1, 0] == [1] + [0];
    HashOfCircularPair(leafHash, x, 0, []);
    HashOfCircularPair(leafHash, x, 1, []);
    HashOfCircularPair(leafHash, x, 0, [1]);
    HashesDifferUnlessZero(leafHash(x));
  }
}
