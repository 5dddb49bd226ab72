/** The hash table as it runs (icecreme/hashtable.c): two parallel arrays that grow by doubling, an index map
    and two counters, all changed in place.  Each operation is proved against HashTableSpec. */
module HashTable {
  import opened Util
  import opened HashTableSpec

  // The first entries of two parallel arrays are these slots.
  ghost predicate Holds(keys: array<Datum>, values: array<Datum>, slots: seq<Slot>)
    reads keys, values
  {
    && |slots| <= keys.Length && |slots| <= values.Length
    && forall j :: 0 <= j < |slots| ==> keys[j] == slots[j].key && values[j] == slots[j].value
  }

  lemma {:induction false} LiveSlotsGrow(cls: Classes, index: map<int, nat>, slots: seq<Slot>, m: nat, n: nat)
    requires m <= n <= |slots|
    ensures LiveSlots(cls, index, slots, m) <= LiveSlots(cls, index, slots, n)
    decreases n
  {
    if m < n {
      LiveSlotsGrow(cls, index, slots, m, n - 1);
    }
  }

  // One more slot looked at: its entry is put behind the others if it is live, and there is room for it.
  lemma LiveNext(cls: Classes, index: map<int, nat>, slots: seq<Slot>, i: nat)
    requires i < |slots|
    ensures IsLive(cls, index, slots, i) ==>
      && LiveSlots(cls, index, slots, i + 1) == LiveSlots(cls, index, slots, i) + [slots[i]]
      && |LiveSlots(cls, index, slots, i)| < |LiveSlots(cls, index, slots, |slots|)|
    ensures !IsLive(cls, index, slots, i) ==> LiveSlots(cls, index, slots, i + 1) == LiveSlots(cls, index, slots, i)
  {
    LiveSlotsGrow(cls, index, slots, i + 1, |slots|);
    hide IsLive;
  }

  lemma AnyCapacity(cls: Classes, t: Table, cap: nat)
    requires Valid(cls, t) && |t.slots| <= cap <= INT_MAX
    ensures Valid(cls, t.(cap := cap))
  {
    hide PointsBack;
    assert forall c :: PointsBack(cls, t.(cap := cap), c) == PointsBack(cls, t, c) by {
      forall c ensures PointsBack(cls, t.(cap := cap), c) == PointsBack(cls, t, c) {
        SamePoints(cls, t, cap, c);
      }
    }
  }

  lemma SamePoints(cls: Classes, t: Table, cap: nat, c: int)
    ensures PointsBack(cls, t.(cap := cap), c) == PointsBack(cls, t, c)
  {
  }

  class CremeHashTable {
    const cls: Classes
    var index: map<int, nat>
    var keys: array<Datum>
    var values: array<Datum>
    var nValues: nat
    var nLive: nat
    ghost var slots: seq<Slot>

    ghost predicate Sound()
      reads this, keys, values
    {
      && keys != values && keys.Length == values.Length && |slots| == nValues
      && Holds(keys, values, slots)
      && Valid(cls, T())
    }

    ghost function T(): Table
      reads this
    {
      Table(index, slots, nLive, keys.Length)
    }

    constructor (cls: Classes)
      ensures Sound() && T() == EMPTY && this.cls == cls && fresh(keys) && fresh(values)
    {
      this.cls := cls;
      index, nValues, nLive, slots := map[], 0, 0, [];
      keys, values := new Datum[0], new Datum[0];
    }

    // Copies the live slots to the front of two new arrays: they fit, there being exactly n_live of them.
    method CopyLive(nk: array<Datum>, nv: array<Datum>) returns (n: nat)
      requires Sound() && nk != nv && nk.Length == nv.Length == nLive
      requires nk != keys && nk != values && nv != keys && nv != values
      modifies nk, nv
      ensures Sound() && n == nLive && Holds(nk, nv, Contents(cls, T()))
    {
      ContentsCount(cls, T());
      hide Valid, LiveSlots;
      n := 0;
      for i := 0 to nValues
        invariant Sound()
        invariant n == |LiveSlots(cls, index, slots, i)|
        invariant Holds(nk, nv, LiveSlots(cls, index, slots, i))
      {
        LiveNext(cls, index, slots, i);
        var c := cls(keys[i]);
        if c in index && index[c] == i {
          assert IsLive(cls, index, slots, i);
          CopySlot(nk, nv, n, keys[i], values[i], LiveSlots(cls, index, slots, i));
          n := n + 1;
        }
      }
    }

    method CopySlot(nk: array<Datum>, nv: array<Datum>, n: nat, k: Datum, v: Datum, ghost list: seq<Slot>)
      requires nk != nv && n == |list| < nk.Length == nv.Length && Holds(nk, nv, list)
      modifies nk, nv
      ensures Holds(nk, nv, list + [Slot(k, v)])
    {
      nk[n] := k;
      nv[n] := v;
    }

    // Points every key at its new slot.
    method Repoint(nk: array<Datum>, nv: array<Datum>, n: nat, ghost list: seq<Slot>)
      requires Holds(nk, nv, list) && n == |list|
      modifies this`index
      ensures index == Reindexed(cls, old(index), list)
    {
      for i := 0 to n
        invariant index == Reindexed(cls, old(index), list[..i])
      {
        assert list[..i + 1][..i] == list[..i];
        index := index[cls(nk[i]) := i];
      }
      assert list[..n] == list;
    }

    method Compact()
      requires Sound()
      modifies this
      ensures Sound() && T() == HashTableSpec.Compact(cls, old(T()))
      ensures fresh(keys) && fresh(values)
    {
      hide LiveSlots, Reindexed, PointsBack;
      CompactionKeepsContents(cls, T());
      ghost var t := HashTableSpec.Compact(cls, T());
      ContentsCount(cls, T());
      var nk, nv := new Datum[nLive], new Datum[nLive];
      var n := CopyLive(nk, nv);
      Repoint(nk, nv, n, t.slots);
      hide Valid, Contents;
      keys, values, nValues, nLive, slots := nk, nv, n, n, t.slots;
      assert T() == t;
    }

    // Compacts if at least half of 16 or more slots are dead, and tells how many slots it has scanned.
    method MaybeCompact() returns (scanned: Outcome<nat>)
      requires Sound()
      modifies this
      ensures match HashTableSpec.MaybeCompact(cls, old(T()))
        case Returns((t, n)) => Sound() && T() == t && scanned == Returns(n)
        case Aborts => false
        case Overflows => scanned == Overflows
      ensures (keys == old(keys) && values == old(values)) || (fresh(keys) && fresh(values))
    {
      hide Valid, HashTableSpec.Compact;
      if nValues < 16 {
        return Returns(0);
      }
      if 2 * nLive > INT_MAX {
        return Overflows;
      }
      if nValues < 2 * nLive {
        return Returns(0);
      }
      scanned := Returns(nValues);
      Compact();
    }

    // Doubles the arrays (starting at 8) if they are full; false if that would pass INT_MAX.
    method Reserve() returns (fits: bool)
      requires Sound()
      modifies this
      ensures fits <==> Grown(old(T())) <= INT_MAX
      ensures Sound() && T() == old(T()).(cap := if fits then Grown(old(T())) else old(T()).cap)
      ensures fits ==> nValues < keys.Length
      ensures (keys == old(keys) && values == old(values)) || (fresh(keys) && fresh(values))
    {
      assert keys.Length <= INT_MAX;
      hide Valid;
      if nValues < keys.Length {
        return true;
      }
      var newcap := if keys.Length == 0 then 8 else 2 * keys.Length;
      if newcap > INT_MAX {
        return false;
      }
      AnyCapacity(cls, T(), newcap);
      var nk, nv := Resized(newcap);
      keys, values := nk, nv;
      return true;
    }

    // GC_REALLOC: larger arrays with the same slots at their front.
    method Resized(newcap: nat) returns (nk: array<Datum>, nv: array<Datum>)
      requires Sound() && nValues <= newcap
      ensures fresh(nk) && fresh(nv) && nk != nv && nk.Length == nv.Length == newcap && Holds(nk, nv, slots)
    {
      hide Valid;
      nk, nv := new Datum[newcap], new Datum[newcap];
      for i := 0 to nValues
        invariant Holds(nk, nv, slots[..i])
      {
        nk[i], nv[i] := keys[i], values[i];
      }
      assert slots[..nValues] == slots;
    }

    method HashTableSet(k: Datum, v: Datum) returns (r: Outcome<nat>)
      requires Sound()
      modifies this, keys, values
      ensures match Set(cls, old(T()), k, v)
        case Returns((t, n)) => r == Returns(n) && Sound() && T() == t
        case Aborts => r == Aborts
        case Overflows => r == Overflows
      ensures (keys == old(keys) && values == old(values)) || (fresh(keys) && fresh(values))
    {
      hide Valid, HashTableSpec.MaybeCompact, Contents, Without;
      r := MaybeCompact();
      if r.Overflows? {
        return;
      }
      ghost var t := T();
      var existed := cls(k) in index;
      var fits := Reserve();
      if !fits {
        return Aborts;
      }
      AppendRefines(cls, t, k, v);
      PutSlot(k, v, existed, Append(cls, t, k, v).value);
    }

    // The next free slot takes the entry, and the index points at it.
    method PutSlot(k: Datum, v: Datum, existed: bool, ghost t: Table)
      requires Sound() && nValues < keys.Length && existed == (cls(k) in index) && Valid(cls, t)
      requires t == Table(index[cls(k) := nValues], slots + [Slot(k, v)], if existed then nLive else nLive + 1, keys.Length)
      modifies this, keys, values
      ensures Sound() && T() == t && keys == old(keys) && values == old(values)
    {
      hide Valid;
      var idx := nValues;
      nValues := nValues + 1;
      keys[idx] := k;
      values[idx] := v;
      index := index[cls(k) := idx];
      if !existed {
        nLive := nLive + 1;
      }
      slots := slots + [Slot(k, v)];
    }

    method HashTableLookup(k: Datum) returns (v: Option<Datum>)
      requires Sound()
      ensures v == Find(cls, Contents(cls, T()), k)
    {
      LookupRefines(cls, T(), k);
      if cls(k) !in index {
        return None;
      }
      assert PointsBack(cls, T(), cls(k));
      v := Some(values[index[cls(k)]]);
    }

    method HashTableDelete(k: Datum) returns (r: Outcome<nat>)
      requires Sound()
      modifies this
      ensures match Delete(cls, old(T()), k)
        case Returns((t, n)) => r == Returns(n) && Sound() && T() == t
        case Aborts => false
        case Overflows => r == Overflows
      ensures (keys == old(keys) && values == old(values)) || (fresh(keys) && fresh(values))
    {
      hide HashTableSpec.MaybeCompact, Contents, Without;
      if cls(k) !in index {
        return Returns(0);
      }
      CutRefines(cls, T(), k);
      hide Valid;
      index := index - {cls(k)};
      nLive := nLive - 1;
      r := MaybeCompact();
    }

    // hash-table-keys, -values and ->alist: the live slots in slot order.
    method CollectLive() returns (out: seq<Slot>)
      requires Sound()
      ensures out == Contents(cls, T())
    {
      out := [];
      for i := 0 to nValues
        invariant out == LiveSlots(cls, index, slots, i)
      {
        var c := cls(keys[i]);
        if c in index && index[c] == i {
          assert IsLive(cls, index, slots, i);
          out := out + [Slot(keys[i], values[i])];
        }
      }
    }
  }
}
