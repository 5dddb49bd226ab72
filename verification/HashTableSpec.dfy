/** The insertion-ordered hash table of icecreme/hashtable.c, as values: an index from keys to slots beside a
    growing list of slots.  Overwriting and deleting only orphan slots; a compaction sweeps them out. */
module HashTableSpec {
  import opened Util

  // A Scheme object, by identity.  What the table distinguishes is its equal? class: creme_equal(a, b) holds
  // exactly when cls(a) == cls(b), and Verstable is a map on classes in which inserting replaces.
  type Datum = int
  type Classes = Datum -> int

  datatype Slot = Slot(key: Datum, value: Datum)

  // The index map (class to slot number), the slots in use, n_live, and cap_values.
  datatype Table = Table(index: map<int, nat>, slots: seq<Slot>, live: nat, cap: nat)

  const EMPTY: Table := Table(map[], [], 0, 0)

  // ---- the reference: an association list in insertion order

  function Without(cls: Classes, list: seq<Slot>, k: Datum): seq<Slot> {
    if list == [] then []
    else
      var front, last := Without(cls, list[..|list| - 1], k), list[|list| - 1];
      if cls(last.key) == cls(k) then front else front + [last]
  }

  function Find(cls: Classes, list: seq<Slot>, k: Datum): Option<Datum> {
    if list == [] then None
    else if cls(list[|list| - 1].key) == cls(k) then Some(list[|list| - 1].value)
    else Find(cls, list[..|list| - 1], k)
  }

  // ---- what the table holds

  // A slot is live iff the index still points at it.
  predicate IsLive(cls: Classes, index: map<int, nat>, slots: seq<Slot>, i: nat)
    requires i < |slots|
  {
    cls(slots[i].key) in index && index[cls(slots[i].key)] == i
  }

  // The live ones among the first n slots, in slot order.
  function LiveSlots(cls: Classes, index: map<int, nat>, slots: seq<Slot>, n: nat): seq<Slot>
    requires n <= |slots|
  {
    if n == 0 then []
    else
      LiveSlots(cls, index, slots, n - 1) + (if IsLive(cls, index, slots, n - 1) then [slots[n - 1]] else [])
  }

  function Contents(cls: Classes, t: Table): seq<Slot> {
    LiveSlots(cls, t.index, t.slots, |t.slots|)
  }

  predicate PointsBack(cls: Classes, t: Table, c: int) {
    c in t.index && t.index[c] < |t.slots| && cls(t.slots[t.index[c]].key) == c
  }

  ghost predicate Valid(cls: Classes, t: Table) {
    && (forall c :: c in t.index ==> PointsBack(cls, t, c))
    && t.live == |t.index|
    && |t.slots| <= t.cap <= INT_MAX
  }

  // ---- what the operations do

  // ht_compact's second loop: point every key at its new slot.
  function Reindexed(cls: Classes, index: map<int, nat>, list: seq<Slot>): map<int, nat> {
    if list == [] then index
    else Reindexed(cls, index, list[..|list| - 1])[cls(list[|list| - 1].key) := |list| - 1]
  }

  function Compact(cls: Classes, t: Table): Table {
    var list := Contents(cls, t);
    Table(Reindexed(cls, t.index, list), list, |list|, t.live)
  }

  // The table, compacted if at least half of 16 or more slots are dead, and how many slots that has scanned.
  function MaybeCompact(cls: Classes, t: Table): Outcome<(Table, nat)> {
    if |t.slots| < 16 then Returns((t, 0))
    else if 2 * t.live > INT_MAX then Overflows
    else if |t.slots| >= 2 * t.live then Returns((Compact(cls, t), |t.slots|))
    else Returns((t, 0))
  }

  // The capacity after making room for one more slot.
  function Grown(t: Table): nat {
    if |t.slots| < t.cap then t.cap else if t.cap == 0 then 8 else 2 * t.cap
  }

  function Append(cls: Classes, t: Table, k: Datum, v: Datum): Outcome<Table> {
    if Grown(t) > INT_MAX then Aborts
    else
      Returns(Table(t.index[cls(k) := |t.slots|], t.slots + [Slot(k, v)],
                 if cls(k) in t.index then t.live else t.live + 1, Grown(t)))
  }

  // hash-table-set!, with the slots it has scanned
  function Set(cls: Classes, t: Table, k: Datum, v: Datum): Outcome<(Table, nat)> {
    match MaybeCompact(cls, t)
    case Returns((u, scanned)) =>
      (match Append(cls, u, k, v)
       case Returns(w) => Returns((w, scanned))
       case Aborts => Aborts
       case Overflows => Overflows)
    case Aborts => Aborts
    case Overflows => Overflows
  }

  // The table without the key, its slot an orphan.
  function Cut(cls: Classes, t: Table, k: Datum): Table {
    Table(t.index - {cls(k)}, t.slots, if t.live > 0 then t.live - 1 else 0, t.cap)
  }

  // hash-table-delete!
  function Delete(cls: Classes, t: Table, k: Datum): Outcome<(Table, nat)> {
    if cls(k) in t.index then MaybeCompact(cls, Cut(cls, t, k)) else Returns((t, 0))
  }

  // hash_table_lookup
  function Lookup(cls: Classes, t: Table, k: Datum): Option<Datum>
    requires Valid(cls, t)
  {
    if cls(k) in t.index then
      assert PointsBack(cls, t, cls(k));
      Some(t.slots[t.index[cls(k)]].value)
    else None
  }

  // ---- live slots are one per key

  // The keys whose slot is among the first n.
  ghost function KeysBelow(t: Table, n: nat): set<int> {
    set c | c in t.index && t.index[c] < n
  }

  lemma {:induction false} LiveCount(cls: Classes, t: Table, n: nat)
    requires Valid(cls, t) && n <= |t.slots|
    ensures |LiveSlots(cls, t.index, t.slots, n)| == |KeysBelow(t, n)|
  {
    if n == 0 {
      assert KeysBelow(t, n) == {};
    } else {
      LiveCount(cls, t, n - 1);
      var c := cls(t.slots[n - 1].key);
      forall d | d in KeysBelow(t, n) && d !in KeysBelow(t, n - 1) ensures d == c {
        assert PointsBack(cls, t, d);
      }
      if IsLive(cls, t.index, t.slots, n - 1) {
        assert KeysBelow(t, n) == KeysBelow(t, n - 1) + {c} && c !in KeysBelow(t, n - 1);
      } else {
        assert KeysBelow(t, n) == KeysBelow(t, n - 1);
      }
    }
  }

  lemma ContentsCount(cls: Classes, t: Table)
    requires Valid(cls, t)
    ensures |Contents(cls, t)| == t.live
  {
    LiveCount(cls, t, |t.slots|);
    forall c | c in t.index ensures c in KeysBelow(t, |t.slots|) {
      assert PointsBack(cls, t, c);
    }
    assert KeysBelow(t, |t.slots|) == t.index.Keys;
    assert |t.index| == |t.index.Keys|;
  }

  ghost predicate DistinctKeys(cls: Classes, list: seq<Slot>) {
    forall i, j :: 0 <= i < j < |list| ==> cls(list[i].key) != cls(list[j].key)
  }

  // Where a live slot ended up, and that nothing else got in.
  lemma {:induction false} LiveSlotsAre(cls: Classes, index: map<int, nat>, slots: seq<Slot>, n: nat)
    requires n <= |slots|
    ensures DistinctKeys(cls, LiveSlots(cls, index, slots, n))
    ensures |LiveSlots(cls, index, slots, n)| <= n
    ensures forall i :: 0 <= i < |LiveSlots(cls, index, slots, n)| ==>
      var s := LiveSlots(cls, index, slots, n)[i];
      cls(s.key) in index && index[cls(s.key)] < n && slots[index[cls(s.key)]] == s
  {
    if n > 0 {
      LiveSlotsAre(cls, index, slots, n - 1);
    }
  }

  lemma {:induction false} LiveSlotsComplete(cls: Classes, index: map<int, nat>, slots: seq<Slot>, n: nat, i: nat)
    requires i < n <= |slots| && IsLive(cls, index, slots, i)
    ensures slots[i] in LiveSlots(cls, index, slots, n)
  {
    if i < n - 1 {
      LiveSlotsComplete(cls, index, slots, n - 1, i);
    }
  }

  // ---- compaction changes nothing that can be observed

  ghost function KeysOf(cls: Classes, list: seq<Slot>): set<int> {
    set i | 0 <= i < |list| :: cls(list[i].key)
  }

  lemma KeysOfMore(cls: Classes, list: seq<Slot>)
    requires list != []
    ensures KeysOf(cls, list) == KeysOf(cls, list[..|list| - 1]) + {cls(list[|list| - 1].key)}
  {
    var front := list[..|list| - 1];
    forall c | c in KeysOf(cls, list) ensures c in KeysOf(cls, front) + {cls(list[|list| - 1].key)} {
      var i :| 0 <= i < |list| && cls(list[i].key) == c;
      assert i < |front| ==> front[i] == list[i];
    }
    forall c | c in KeysOf(cls, front) ensures c in KeysOf(cls, list) {
      var i :| 0 <= i < |front| && cls(front[i].key) == c;
      assert front[i] == list[i];
    }
  }

  lemma {:induction false} ReindexedAt(cls: Classes, index: map<int, nat>, list: seq<Slot>)
    requires DistinctKeys(cls, list)
    ensures Reindexed(cls, index, list).Keys == index.Keys + KeysOf(cls, list)
    ensures forall i :: 0 <= i < |list| ==> cls(list[i].key) in Reindexed(cls, index, list)
    ensures forall i :: 0 <= i < |list| ==> Reindexed(cls, index, list)[cls(list[i].key)] == i
  {
    if list != [] {
      var front := list[..|list| - 1];
      ReindexedAt(cls, index, front);
      KeysOfMore(cls, list);
      hide KeysOf;
      assert forall i :: 0 <= i < |front| ==> front[i] == list[i] && cls(list[i].key) != cls(list[|list| - 1].key);
    }
  }

  lemma {:induction false} AllLive(cls: Classes, index: map<int, nat>, list: seq<Slot>, n: nat)
    requires n <= |list|
    requires forall i :: 0 <= i < |list| ==> cls(list[i].key) in index && index[cls(list[i].key)] == i
    ensures LiveSlots(cls, index, list, n) == list[..n]
  {
    if n > 0 {
      AllLive(cls, index, list, n - 1);
    }
  }

  // Every key of the index is the key of a live slot, and so of an entry of the contents.
  lemma KeyIsListed(cls: Classes, t: Table, c: int) returns (i: nat)
    requires Valid(cls, t) && c in t.index
    ensures i < |Contents(cls, t)| && Contents(cls, t)[i] == t.slots[t.index[c]] && cls(t.slots[t.index[c]].key) == c
  {
    assert PointsBack(cls, t, c);
    LiveSlotsComplete(cls, t.index, t.slots, |t.slots|, t.index[c]);
    i :| 0 <= i < |Contents(cls, t)| && Contents(cls, t)[i] == t.slots[t.index[c]];
  }

  lemma CompactionKeepsContents(cls: Classes, t: Table)
    requires Valid(cls, t)
    ensures var u := Compact(cls, t);
      && Valid(cls, u) && Contents(cls, u) == Contents(cls, t)
      && |u.slots| == u.live == t.live && u.index.Keys == t.index.Keys
  {
    var list, u := Contents(cls, t), Compact(cls, t);
    hide Reindexed, LiveSlots, IsLive;
    LiveSlotsAre(cls, t.index, t.slots, |t.slots|);
    ReindexedAt(cls, t.index, list);
    ContentsCount(cls, t);
    assert u.index.Keys == t.index.Keys;
    forall c | c in u.index ensures PointsBack(cls, u, c) {
      var i := KeyIsListed(cls, t, c);
      assert u.index[cls(list[i].key)] == i;
    }
    AllLive(cls, u.index, list, |list|);
    assert list[..|list|] == list;
    assert |u.index| == |u.index.Keys| == |t.index.Keys|;
  }

  // ---- each operation is the one on the association list

  lemma {:induction false} Orphaned(cls: Classes, index: map<int, nat>, after: map<int, nat>, slots: seq<Slot>, n: nat, more: seq<Slot>, k: Datum)
    requires n <= |slots| && slots <= more
    requires forall i :: 0 <= i < n ==>
      slots[i] == more[i] && (IsLive(cls, after, more, i) <==> IsLive(cls, index, slots, i) && cls(slots[i].key) != cls(k))
    ensures LiveSlots(cls, after, more, n) == Without(cls, LiveSlots(cls, index, slots, n), k)
  {
    if n > 0 {
      Orphaned(cls, index, after, slots, n - 1, more, k);
      var before := LiveSlots(cls, index, slots, n - 1);
      assert (before + [slots[n - 1]])[..|before|] == before && before + [] == before;
      assert IsLive(cls, after, more, n - 1) <==> IsLive(cls, index, slots, n - 1) && cls(slots[n - 1].key) != cls(k);
    }
  }

  lemma CountAfterUpdate(index: map<int, nat>, c: int, i: nat)
    ensures |index[c := i]| == if c in index then |index| else |index| + 1
  {
    assert index[c := i].Keys == index.Keys + {c};
    if c in index {
      assert index[c := i].Keys == index.Keys;
    }
    assert |index[c := i]| == |index[c := i].Keys| && |index| == |index.Keys|;
  }

  lemma AppendRefines(cls: Classes, t: Table, k: Datum, v: Datum)
    requires Valid(cls, t) && Append(cls, t, k, v).Returns?
    ensures var u := Append(cls, t, k, v).value;
      Valid(cls, u) && Contents(cls, u) == Without(cls, Contents(cls, t), k) + [Slot(k, v)]
  {
    var u := Append(cls, t, k, v).value;
    CountAfterUpdate(t.index, cls(k), |t.slots|);
    forall c | c in u.index ensures PointsBack(cls, u, c) {
      assert c != cls(k) ==> PointsBack(cls, t, c);
    }
    Orphaned(cls, t.index, u.index, t.slots, |t.slots|, u.slots, k);
    hide Without;
  }

  lemma MaybeCompactKeeps(cls: Classes, t: Table)
    requires Valid(cls, t) && MaybeCompact(cls, t).Returns?
    ensures var (u, scanned) := MaybeCompact(cls, t).value;
      && Valid(cls, u) && Contents(cls, u) == Contents(cls, t) && u.live == t.live && u.index.Keys == t.index.Keys
      && ((u == t && scanned == 0) || (|u.slots| == u.live && scanned == |t.slots| >= 2 * t.live))
      && Dense(u) && |u.slots| <= |t.slots|
  {
    CompactionKeepsContents(cls, t);
    LiveAtMostSlots(cls, t);
  }

  lemma SetRefines(cls: Classes, t: Table, k: Datum, v: Datum)
    requires Valid(cls, t) && Set(cls, t, k, v).Returns?
    ensures var (u, _) := Set(cls, t, k, v).value;
      Valid(cls, u) && Contents(cls, u) == Without(cls, Contents(cls, t), k) + [Slot(k, v)]
  {
    MaybeCompactKeeps(cls, t);
    AppendRefines(cls, MaybeCompact(cls, t).value.0, k, v);
  }

  lemma {:induction false} NothingToRemove(cls: Classes, list: seq<Slot>, k: Datum)
    requires forall i :: 0 <= i < |list| ==> cls(list[i].key) != cls(k)
    ensures Without(cls, list, k) == list && Find(cls, list, k) == None
  {
    if list != [] {
      NothingToRemove(cls, list[..|list| - 1], k);
      assert list == list[..|list| - 1] + [list[|list| - 1]];
    }
  }

  lemma CutRefines(cls: Classes, t: Table, k: Datum)
    requires Valid(cls, t) && cls(k) in t.index
    ensures t.live > 0 && Valid(cls, Cut(cls, t, k))
    ensures Contents(cls, Cut(cls, t, k)) == Without(cls, Contents(cls, t), k)
  {
    var cut := Cut(cls, t, k);
    assert cut.index.Keys == t.index.Keys - {cls(k)};
    assert |cut.index| == |cut.index.Keys| && |t.index| == |t.index.Keys|;
    forall c | c in cut.index ensures PointsBack(cls, cut, c) {
      assert PointsBack(cls, t, c);
    }
    Orphaned(cls, t.index, cut.index, t.slots, |t.slots|, t.slots, k);
  }

  lemma AbsentKey(cls: Classes, t: Table, k: Datum)
    requires Valid(cls, t) && cls(k) !in t.index
    ensures Without(cls, Contents(cls, t), k) == Contents(cls, t) && Find(cls, Contents(cls, t), k) == None
  {
    LiveSlotsAre(cls, t.index, t.slots, |t.slots|);
    NothingToRemove(cls, Contents(cls, t), k);
  }

  lemma DeleteRefines(cls: Classes, t: Table, k: Datum)
    requires Valid(cls, t) && Delete(cls, t, k).Returns?
    ensures var (u, _) := Delete(cls, t, k).value;
      Valid(cls, u) && Contents(cls, u) == Without(cls, Contents(cls, t), k)
  {
    hide Valid, Contents, Without, MaybeCompact;
    if cls(k) in t.index {
      CutRefines(cls, t, k);
      MaybeCompactKeeps(cls, Cut(cls, t, k));
    } else {
      AbsentKey(cls, t, k);
    }
  }

  lemma {:induction false} FindAt(cls: Classes, list: seq<Slot>, k: Datum, i: nat)
    requires DistinctKeys(cls, list) && i < |list| && cls(list[i].key) == cls(k)
    ensures Find(cls, list, k) == Some(list[i].value)
  {
    if i < |list| - 1 {
      FindAt(cls, list[..|list| - 1], k, i);
    }
  }

  lemma LookupRefines(cls: Classes, t: Table, k: Datum)
    requires Valid(cls, t)
    ensures Lookup(cls, t, k) == Find(cls, Contents(cls, t), k)
  {
    LiveSlotsAre(cls, t.index, t.slots, |t.slots|);
    var list := Contents(cls, t);
    if cls(k) in t.index {
      var i := KeyIsListed(cls, t, cls(k));
      FindAt(cls, list, k, i);
    } else {
      NothingToRemove(cls, list, k);
    }
  }

  // ---- whole runs

  datatype Op = SetOp(key: Datum, value: Datum) | DeleteOp(key: Datum)

  // One operation on the association list.
  function ListStep(cls: Classes, list: seq<Slot>, op: Op): seq<Slot> {
    match op
    case SetOp(k, v) => Without(cls, list, k) + [Slot(k, v)]
    case DeleteOp(k) => Without(cls, list, k)
  }

  function ListRun(cls: Classes, ops: seq<Op>): seq<Slot> {
    if ops == [] then [] else ListStep(cls, ListRun(cls, ops[..|ops| - 1]), ops[|ops| - 1])
  }

  // One operation on the table, with the slots its compaction, if any, has scanned.
  function Step(cls: Classes, t: Table, op: Op): Outcome<(Table, nat)> {
    match op
    case SetOp(k, v) => Set(cls, t, k, v)
    case DeleteOp(k) => Delete(cls, t, k)
  }

  // The table after a run, and the slots scanned by all its compactions.
  function Run(cls: Classes, ops: seq<Op>): Outcome<(Table, nat)> {
    if ops == [] then Returns((EMPTY, 0))
    else
      match Run(cls, ops[..|ops| - 1])
      case Returns((t, n)) =>
        (match Step(cls, t, ops[|ops| - 1])
         case Returns((u, scanned)) => Returns((u, n + scanned))
         case Aborts => Aborts
         case Overflows => Overflows)
      case Aborts => Aborts
      case Overflows => Overflows
  }

  // At least half of a table's slots are live, unless the table is small.
  predicate Dense(t: Table) {
    |t.slots| <= 16 || |t.slots| <= 2 * t.live
  }

  lemma LiveAtMostSlots(cls: Classes, t: Table)
    requires Valid(cls, t)
    ensures t.live <= |t.slots|
    ensures t.index != map[] ==> t.live > 0
  {
    ContentsCount(cls, t);
    LiveSlotsAre(cls, t.index, t.slots, |t.slots|);
  }

  // The dead slots: each operation makes at most one, and a compaction scans at most twice as many as it removes.
  function Dead(t: Table): int {
    |t.slots| - t.live
  }

  lemma SetPays(cls: Classes, t: Table, k: Datum, v: Datum)
    requires Valid(cls, t) && Set(cls, t, k, v).Returns?
    ensures var (u, scanned) := Set(cls, t, k, v).value;
      Dense(u) && scanned + 2 * Dead(u) <= 2 * Dead(t) + 2
  {
    MaybeCompactKeeps(cls, t);
    var (c, _) := MaybeCompact(cls, t).value;
    LiveAtMostSlots(cls, c);
    assert |t.slots| < 16 ==> |c.slots| < 16;
    assert |c.slots| < 16 || |c.slots| < 2 * c.live || |c.slots| == c.live;
    hide Valid, Contents, Compact;
  }

  lemma DeletePays(cls: Classes, t: Table, k: Datum)
    requires Valid(cls, t) && Dense(t) && Delete(cls, t, k).Returns?
    ensures var (u, scanned) := Delete(cls, t, k).value;
      Dense(u) && scanned + 2 * Dead(u) <= 2 * Dead(t) + 2
  {
    LiveAtMostSlots(cls, t);
    if cls(k) in t.index {
      CutRefines(cls, t, k);
      MaybeCompactKeeps(cls, Cut(cls, t, k));
    }
    hide Valid, Contents, MaybeCompact;
  }

  lemma StepKeeps(cls: Classes, t: Table, op: Op)
    requires Valid(cls, t) && Dense(t) && Step(cls, t, op).Returns?
    ensures var (u, scanned) := Step(cls, t, op).value;
      && Valid(cls, u) && Dense(u)
      && Contents(cls, u) == ListStep(cls, Contents(cls, t), op)
      && scanned + 2 * Dead(u) <= 2 * Dead(t) + 2
  {
    hide Valid, Contents, Without, Set, Delete, Dense;
    match op
    case SetOp(k, v) =>
      SetRefines(cls, t, k, v);
      SetPays(cls, t, k, v);
    case DeleteOp(k) =>
      DeleteRefines(cls, t, k);
      DeletePays(cls, t, k);
  }

  // Main result.  After any run of sets and deletes the table holds exactly what the association list holds, in
  // the same order, n_live counts its entries, at least half the slots of a table with more than 16 are live, and
  // all compactions together have scanned at most two slots per operation.
  lemma {:induction false} RunRefinesList(cls: Classes, ops: seq<Op>)
    requires Run(cls, ops).Returns?
    ensures var (t, scanned) := Run(cls, ops).value;
      && Valid(cls, t) && Dense(t)
      && Contents(cls, t) == ListRun(cls, ops)
      && t.live == |ListRun(cls, ops)|
      && scanned <= scanned + 2 * Dead(t) <= 2 * |ops|
    ensures forall k :: Lookup(cls, Run(cls, ops).value.0, k) == Find(cls, ListRun(cls, ops), k)
  {
    if ops != [] {
      var before, op := ops[..|ops| - 1], ops[|ops| - 1];
      RunRefinesList(cls, before);
      StepKeeps(cls, Run(cls, before).value.0, op);
    }
    var t := Run(cls, ops).value.0;
    LiveAtMostSlots(cls, t);
    ContentsCount(cls, t);
    forall k ensures Lookup(cls, t, k) == Find(cls, ListRun(cls, ops), k) {
      LookupRefines(cls, t, k);
    }
  }

  // ---- how large a table can get

  const MANY: nat := 0x2000_0000

  // A set is refused only when the arrays are full beyond 2^30 slots; then more than 2^29 entries are live.
  lemma AbortIsLarge(cls: Classes, t: Table, op: Op)
    requires Valid(cls, t) && Dense(t) && Step(cls, t, op).Aborts?
    ensures t.live > MANY
  {
    if op.SetOp? {
      MaybeCompactKeeps(cls, t);
      LiveAtMostSlots(cls, t);
      var (c, _) := MaybeCompact(cls, t).value;
      assert |c.slots| == c.cap > MANY + MANY - 1;
      assert c == t ==> |t.slots| < 2 * t.live;
    }
    hide Valid, Contents, Compact;
  }

  // The test of the load overflows exactly when half of what an int can hold, or more, stays live.
  lemma OverflowIff(cls: Classes, t: Table, op: Op)
    requires Valid(cls, t)
    ensures Step(cls, t, op).Overflows? <==>
      if op.SetOp? then t.live > 2 * MANY - 1 else cls(op.key) in t.index && t.live > 2 * MANY
  {
    LiveAtMostSlots(cls, t);
    if op.DeleteOp? && cls(op.key) in t.index {
      CutRefines(cls, t, op.key);
      LiveAtMostSlots(cls, Cut(cls, t, op.key));
    }
    hide Valid, Contents, Compact;
  }

  // The run goes on unless more than 2^29 entries are live.
  lemma StepSucceeds(cls: Classes, ops: seq<Op>, op: Op)
    requires Run(cls, ops).Returns? && |ListRun(cls, ops)| <= MANY
    ensures Run(cls, ops + [op]).Returns?
  {
    RunRefinesList(cls, ops);
    var t := Run(cls, ops).value.0;
    assert (ops + [op])[..|ops|] == ops && (ops + [op])[|ops|] == op;
    if Step(cls, t, op).Aborts? {
      AbortIsLarge(cls, t, op);
    }
    OverflowIff(cls, t, op);
    hide Valid, Contents, Step, ListRun;
  }

  // Every run whose association list never gets beyond 2^29 entries succeeds.
  lemma {:induction false} SmallRunSucceeds(cls: Classes, ops: seq<Op>)
    requires forall n :: 0 <= n <= |ops| ==> |ListRun(cls, ops[..n])| <= MANY
    ensures Run(cls, ops).Returns?
  {
    if ops != [] {
      var before, op := ops[..|ops| - 1], ops[|ops| - 1];
      forall n | 0 <= n <= |before| ensures |ListRun(cls, before[..n])| <= MANY {
        assert before[..n] == ops[..n];
      }
      SmallRunSucceeds(cls, before);
      assert before[..|before|] == before;
      StepSucceeds(cls, before, op);
      assert before + [op] == ops;
    }
  }

  // Where a run breaks off: by overflow exactly where 2^30 entries or more are live when the load is tested, by an
  // abort only where more than 2^29 are and the arrays would have to double past INT_MAX.
  lemma RunBreaksOffOnlyWhenLarge(cls: Classes, ops: seq<Op>, op: Op)
    requires Run(cls, ops).Returns?
    ensures Run(cls, ops + [op]).Overflows? <==>
      if op.SetOp? then |ListRun(cls, ops)| >= 2 * MANY
      else Find(cls, ListRun(cls, ops), op.key).Some? && |ListRun(cls, ops + [op])| >= 2 * MANY
    ensures Run(cls, ops + [op]).Aborts? ==> op.SetOp? && |ListRun(cls, ops)| > MANY
  {
    RunRefinesList(cls, ops);
    var t := Run(cls, ops).value.0;
    assert (ops + [op])[..|ops|] == ops && (ops + [op])[|ops|] == op;
    if Step(cls, t, op).Aborts? {
      AbortIsLarge(cls, t, op);
    }
    OverflowIff(cls, t, op);
    if op.DeleteOp? {
      LookupRefines(cls, t, op.key);
      if cls(op.key) in t.index {
        CutRefines(cls, t, op.key);
        ContentsCount(cls, Cut(cls, t, op.key));
      }
    }
    hide Valid, Contents, Without;
  }

  // ---- when the table is compacted, and when its arrays grow

  // Sixteen slots or more are used, and at least half of them are dead.
  predicate HalfDead(used: nat, live: nat) {
    used >= 16 && used >= 2 * live
  }

  lemma SetCounts(cls: Classes, t: Table, k: Datum, v: Datum)
    requires Valid(cls, t) && Set(cls, t, k, v).Returns?
    ensures var (u, scanned) := Set(cls, t, k, v).value;
      var compacted := HalfDead(|t.slots|, t.live);
      var used, cap := if compacted then t.live else |t.slots|, if compacted then t.live else t.cap;
      && scanned == (if compacted then |t.slots| else 0) && |u.slots| == used + 1
      && u.cap == if used < cap then cap else if cap == 0 then 8 else 2 * cap
  {
    CompactionKeepsContents(cls, t);
    hide Valid, Contents, Reindexed;
    assert Compact(cls, t).cap == t.live;
    hide Compact;
  }

  lemma DeleteCounts(cls: Classes, t: Table, k: Datum)
    requires Valid(cls, t) && Delete(cls, t, k).Returns?
    ensures cls(k) !in t.index ==> Delete(cls, t, k).value == (t, 0)
    ensures cls(k) in t.index ==>
      var (u, scanned) := Delete(cls, t, k).value;
      var compacted := HalfDead(|t.slots|, t.live - 1);
      && scanned == (if compacted then |t.slots| else 0)
      && |u.slots| == (if compacted then t.live - 1 else |t.slots|)
      && u.cap == (if compacted then t.live - 1 else t.cap)
  {
    if cls(k) in t.index {
      CutRefines(cls, t, k);
      CompactionKeepsContents(cls, Cut(cls, t, k));
      hide Valid, Contents, Reindexed;
      assert Compact(cls, Cut(cls, t, k)).cap == t.live - 1;
      hide Compact;
    }
  }

  // Over runs, in terms of the association list: a set compacts first, and a delete that removes a key compacts
  // afterwards, exactly if at least half of sixteen or more slots are then dead; that scans all slots and leaves arrays
  // of just the live entries.  A set that finds the arrays full doubles them, from eight.
  lemma RunCounts(cls: Classes, ops: seq<Op>, op: Op)
    requires Run(cls, ops).Returns? && Run(cls, ops + [op]).Returns?
    ensures var (t, before) := Run(cls, ops).value;
      var (u, after) := Run(cls, ops + [op]).value;
      var live: int := |ListRun(cls, ops)| - (if op.DeleteOp? then 1 else 0);
      if op.DeleteOp? && Find(cls, ListRun(cls, ops), op.key).None? then (u, after) == (t, before)
      else
        && live >= 0
        && var compacted := HalfDead(|t.slots|, live);
           var used, cap := if compacted then live else |t.slots|, if compacted then live else t.cap;
           && after - before == (if compacted then |t.slots| else 0)
           && if op.SetOp? then
                |u.slots| == used + 1 && u.cap == if used < cap then cap else if cap == 0 then 8 else 2 * cap
              else |u.slots| == used && u.cap == cap
  {
    hide Valid, Contents, Dense, Set, Delete, HalfDead, Run, ListRun, Step;
    RunRefinesList(cls, ops);
    var t := Run(cls, ops).value.0;
    OneMoreStep(cls, ops, op);
    match op
    case SetOp(k, v) => SetCounts(cls, t, k, v);
    case DeleteOp(k) =>
      DeleteCounts(cls, t, k);
      LookupRefines(cls, t, k);
      LiveAtMostSlots(cls, t);
  }

  lemma OneMoreStep(cls: Classes, ops: seq<Op>, op: Op)
    requires Run(cls, ops).Returns? && Run(cls, ops + [op]).Returns?
    ensures var (t, before) := Run(cls, ops).value;
      Step(cls, t, op).Returns?
      && Run(cls, ops + [op]).value == (Step(cls, t, op).value.0, before + Step(cls, t, op).value.1)
    ensures var (t, before) := Run(cls, ops).value;
      Step(cls, t, op) == match op {
        case SetOp(k, v) => Set(cls, t, k, v)
        case DeleteOp(k) => Delete(cls, t, k)
      }
  {
    assert (ops + [op])[..|ops|] == ops && (ops + [op])[|ops|] == op;
    hide Set, Delete;
  }
}
