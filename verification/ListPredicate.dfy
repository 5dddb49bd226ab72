/** `list?` by tortoise and hare (icecreme/builtins.c). */
module ListPredicate {
  import opened Util
  import opened SchemeHeap

  // The value after n cdrs, if the first n values are all pairs.
  function Cdrs(h: Heap, v: Value, n: nat): (r: Option<Value>)
    requires WellFormed(h) && InHeap(h, v)
    ensures r.Some? ==> InHeap(h, r.value)
  {
    if n == 0 then Some(v)
    else
      var prev := Cdrs(h, v, n - 1);
      if prev.Some? && prev.value.PairV? then Some(Field(h, prev.value, 1)) else None
  }

  // What list? asks: some number of cdrs leads to the empty list.
  ghost predicate IsProperList(h: Heap, v: Value)
    requires WellFormed(h) && InHeap(h, v)
  {
    exists n: nat :: Cdrs(h, v, n) == Some(LeafV(NIL))
  }

  ghost predicate PairAt(h: Heap, v: Value, n: nat)
    requires WellFormed(h) && InHeap(h, v)
  {
    Cdrs(h, v, n).Some? && Cdrs(h, v, n).value.PairV?
  }

  lemma {:induction false} PairsBefore(h: Heap, v: Value, m: nat, n: nat)
    requires WellFormed(h) && InHeap(h, v) && m < n && Cdrs(h, v, n).Some?
    ensures PairAt(h, v, m)
    decreases n
  {
    if m < n - 1 {
      PairsBefore(h, v, m, n - 1);
    }
  }

  // Two visits to the same pair: from the first on, the walk repeats with that period.
  lemma {:induction false} Repeats(h: Heap, v: Value, i: nat, period: nat, n: nat)
    requires WellFormed(h) && InHeap(h, v) && period > 0 && i <= n
    requires PairAt(h, v, i) && Cdrs(h, v, i) == Cdrs(h, v, i + period)
    ensures PairAt(h, v, n) && Cdrs(h, v, n) == Cdrs(h, v, n + period)
    decreases n
  {
    hide Cdrs, WellFormed;
    if n > i {
      Repeats(h, v, i, period, n - 1);
      SameNext(h, v, n - 1, n - 1 + period);
      if n < i + period {
        PairsBefore(h, v, n, i + period);
      } else {
        Repeats(h, v, i, period, n - period);
      }
    }
  }

  lemma SameNext(h: Heap, v: Value, a: nat, b: nat)
    requires WellFormed(h) && InHeap(h, v) && PairAt(h, v, a) && Cdrs(h, v, a) == Cdrs(h, v, b)
    ensures Cdrs(h, v, a + 1) == Cdrs(h, v, b + 1)
  {
  }

  lemma RepeatMeansEndless(h: Heap, v: Value, i: nat, j: nat)
    requires WellFormed(h) && InHeap(h, v) && i < j && PairAt(h, v, i) && Cdrs(h, v, i) == Cdrs(h, v, j)
    ensures !IsProperList(h, v)
  {
    forall n: nat ensures Cdrs(h, v, n) != Some(LeafV(NIL)) {
      if n < i {
        PairsBefore(h, v, n, i);
      } else {
        Repeats(h, v, i, j - i, n);
      }
    }
  }

  // `times` more periods lead to the same place.
  lemma {:induction false} RepeatsManyTimes(h: Heap, v: Value, i: nat, period: nat, n: nat, times: nat, far: nat)
    requires WellFormed(h) && InHeap(h, v) && period > 0 && i <= n
    requires PairAt(h, v, i) && Cdrs(h, v, i) == Cdrs(h, v, i + period)
    requires far == n + times * period
    ensures Cdrs(h, v, n) == Cdrs(h, v, far)
    decreases times
  {
    if times > 0 {
      var near := n + (times - 1) * period;
      assert far == near + period by { Unroll(times, period); }
      assert near >= n by { Product(times - 1, period); }
      RepeatsManyTimes(h, v, i, period, n, times - 1, near);
      Repeats(h, v, i, period, near);
    }
  }

  lemma Unroll(a: nat, b: nat)
    requires a > 0
    ensures a * b == (a - 1) * b + b
  {
  }

  lemma Product(a: nat, b: nat)
    ensures a * b >= 0
    ensures b >= 1 ==> a * b >= a
  {
    if b >= 1 {
      assert a * b == a * (b - 1) + a;
    }
  }

  // Either the chain of cdrs ends, or tortoise and hare are bound to meet.
  lemma EndsOrMeets(h: Heap, v: Value) returns (ends: bool, bound: nat)
    requires WellFormed(h) && InHeap(h, v)
    ensures ends ==> Cdrs(h, v, bound).Some? && !PairAt(h, v, bound)
    ensures !ends ==> bound >= 1 && PairAt(h, v, bound) && Cdrs(h, v, bound) == Cdrs(h, v, 2 * bound)
  {
    hide Cdrs, WellFormed;
    var n := |h.pairs|;
    if PairAt(h, v, n) {
      var i, j := SomeRepeat(h, v);
      ends, bound := false, j * (j - i);
      Product(j, j - i);
      Repeats(h, v, i, j - i, bound);
      RepeatsManyTimes(h, v, i, j - i, bound, j, 2 * bound);
    } else {
      ends := true;
      bound := FirstNonPair(h, v, n);
    }
  }

  lemma SomeRepeat(h: Heap, v: Value) returns (i: nat, j: nat)
    requires WellFormed(h) && InHeap(h, v) && PairAt(h, v, |h.pairs|)
    ensures i < j && PairAt(h, v, i) && Cdrs(h, v, i) == Cdrs(h, v, j)
  {
    var n := |h.pairs|;
    var walk := seq(n + 1, k requires 0 <= k <= n => Cdrs(h, v, k));
    forall k: nat | k <= n ensures PairAt(h, v, k) {
      if k < n {
        PairsBefore(h, v, k, n);
      }
    }
    if Distinct(walk) {
      PairCount(n);
      forall x | x in walk ensures x in AllPairs(n) {
        var k :| 0 <= k <= n && walk[k] == x;
        assert PairAt(h, v, k);
      }
      DistinctWithin(walk, AllPairs(n));
    }
    i, j :| 0 <= i < j <= n && walk[i] == walk[j];
    assert PairAt(h, v, i);
  }

  function AllPairs(n: nat): set<Option<Value>> {
    set p | 0 <= p < n :: Some(PairV(p))
  }

  lemma {:induction false} PairCount(n: nat)
    ensures |AllPairs(n)| == n
  {
    if n > 0 {
      PairCount(n - 1);
      assert AllPairs(n) == AllPairs(n - 1) + {Some(PairV(n - 1))};
    }
  }

  lemma {:induction false} FirstNonPair(h: Heap, v: Value, n: nat) returns (m: nat)
    requires WellFormed(h) && InHeap(h, v) && !PairAt(h, v, n)
    ensures Cdrs(h, v, m).Some? && !PairAt(h, v, m)
  {
    if Cdrs(h, v, n).Some? {
      m := n;
    } else {
      m := FirstNonPair(h, v, n - 1);
    }
  }

  lemma ProperListAt(h: Heap, v: Value, n: nat)
    requires WellFormed(h) && InHeap(h, v) && Cdrs(h, v, n).Some? && !PairAt(h, v, n)
    ensures IsProperList(h, v) <==> Cdrs(h, v, n) == Some(LeafV(NIL))
  {
    if m: nat :| Cdrs(h, v, m) == Some(LeafV(NIL)) && m != n {
      if m < n {
        PairsBefore(h, v, m, n);
      } else {
        PairsBefore(h, v, n, m);
      }
      assert false;
    }
  }

  lemma AtStart(h: Heap, v: Value)
    requires WellFormed(h) && InHeap(h, v)
    ensures Cdrs(h, v, 0) == Some(v)
  {
  }

  lemma NextCdr(h: Heap, v: Value, n: nat, x: Value)
    requires WellFormed(h) && InHeap(h, v) && Cdrs(h, v, n) == Some(x) && x.PairV?
    ensures InHeap(h, x) && Cdrs(h, v, n + 1) == Some(Field(h, x, 1))
  {
  }

  method ListP(h: Heap, v: Value) returns (r: bool)
    requires WellFormed(h) && InHeap(h, v)
    ensures r <==> IsProperList(h, v)
  {
    hide Cdrs, WellFormed;
    assert Cdrs(h, v, 0) == Some(v) by { AtStart(h, v); }
    var slow, fast := v, v;
    ghost var ends, bound := EndsOrMeets(h, v);
    ghost var i := 0;
    while true
      invariant Cdrs(h, v, i) == Some(slow) && Cdrs(h, v, 2 * i) == Some(fast)
      invariant ends ==> 2 * i <= bound
      invariant !ends ==> i < bound
      decreases bound - i
    {
      if fast == LeafV(NIL) {
        return true;
      }
      if !fast.PairV? {
        ProperListAt(h, v, 2 * i);
        return false;
      }
      NextCdr(h, v, 2 * i, fast);
      fast := Field(h, fast, 1);
      if fast == LeafV(NIL) {
        return true;
      }
      if !fast.PairV? {
        ProperListAt(h, v, 2 * i + 1);
        return false;
      }
      NextCdr(h, v, 2 * i + 1, fast);
      fast := Field(h, fast, 1);
      PairsBefore(h, v, i, 2 * i + 2);
      NextCdr(h, v, i, slow);
      slow := Field(h, slow, 1);
      i := i + 1;
      if fast.PairV? && slow.PairV? && fast == slow {
        RepeatMeansEndless(h, v, i, 2 * i);
        return false;
      }
      if ends {
        if bound < 2 * i {
          PairsBefore(h, v, bound, 2 * i);
        }
      }
    }
  }
}
