/** External syntax of a datum with R7RS datum labels, what it says about a heap, and when two heaps that
    the same text describes cannot be told apart. */
module LabelledDatum {
  import opened Util
  import opened SchemeHeap

  // Ref is #n#, Def is #n=datum; a node is a pair (two parts) or a vector.
  datatype Syn =
    | Atom(leaf: Leaf)
    | Ref(id: nat)
    | Def(id: nat, datum: Syn)
    | Node(vector: bool, parts: seq<Syn>)

  // ---- the text as a description of a value in a heap

  ghost predicate RightKind(h: Heap, v: Value, s: Syn)
    requires InHeap(h, v) && s.Node?
  {
    !v.LeafV? && (v.VecV? <==> s.vector) && |Fields(h, v)| == |s.parts|
  }

  // Under the label assignment env the text s is a picture of v: every node shows the fields of one object,
  // and every label stands for the object (or leaf) that its definition shows.
  ghost predicate Describes(h: Heap, env: map<nat, Value>, s: Syn, v: Value)
    requires WellFormed(h) && InHeap(h, v)
    decreases s
  {
    match s
    case Atom(l) => v == LeafV(l)
    case Ref(n) => n in env && env[n] == v
    case Def(n, d) => n in env && env[n] == v && !d.Def? && !d.Ref? && Describes(h, env, d, v)
    case Node(_, parts) =>
      && RightKind(h, v, s)
      && forall k :: 0 <= k < |parts| ==> Describes(h, env, parts[k], Field(h, v, k))
  }

  // The objects whose contents the text shows, in the order it shows them.
  ghost function Shown(h: Heap, s: Syn, v: Value): seq<Value>
    requires WellFormed(h) && InHeap(h, v)
    decreases s, 0
  {
    match s
    case Atom(_) => []
    case Ref(_) => []
    case Def(_, d) => Shown(h, d, v)
    case Node(_, parts) => [v] + (if RightKind(h, v, s) then ShownParts(h, s, v, |parts|) else [])
  }

  ghost function ShownParts(h: Heap, s: Syn, v: Value, k: nat): seq<Value>
    requires WellFormed(h) && InHeap(h, v) && s.Node? && RightKind(h, v, s) && k <= |s.parts|
    decreases s, 0, k
  {
    if k == 0 then []
    else ShownParts(h, s, v, k - 1) + Shown(h, s.parts[k - 1], Field(h, v, k - 1))
  }

  // ---- labels are defined before they are referred to, each once

  // The labels known after reading s when `known` were before, or None if a label is used before its
  // definition or defined twice.
  function Scope(s: Syn, known: set<nat>): Option<set<nat>>
    decreases s, 0
  {
    match s
    case Atom(_) => Some(known)
    case Ref(n) => if n in known then Some(known) else None
    case Def(n, d) => if n in known then None else Scope(d, known + {n})
    case Node(_, parts) => ScopeParts(s, |parts|, known)
  }

  function ScopeParts(s: Syn, k: nat, known: set<nat>): Option<set<nat>>
    requires s.Node? && k <= |s.parts|
    decreases s, 0, k
  {
    if k == 0 then Some(known)
    else match ScopeParts(s, k - 1, known)
      case None => None
      case Some(mid) => Scope(s.parts[k - 1], mid)
  }

  lemma {:induction false} ScopeGrows(s: Syn, known: set<nat>)
    requires Scope(s, known).Some?
    ensures known <= Scope(s, known).value
    decreases s, 0
  {
    match s
    case Atom(_) =>
    case Ref(_) =>
    case Def(n, d) => ScopeGrows(d, known + {n});
    case Node(_, parts) => ScopePartsGrow(s, |parts|, known);
  }

  lemma {:induction false} ScopePartsGrow(s: Syn, k: nat, known: set<nat>)
    requires s.Node? && k <= |s.parts| && ScopeParts(s, k, known).Some?
    ensures known <= ScopeParts(s, k, known).value
    decreases s, 0, k
  {
    if k > 0 {
      ScopePartsGrow(s, k - 1, known);
      ScopeGrows(s.parts[k - 1], ScopeParts(s, k - 1, known).value);
    }
  }

  // The labels are 0, 1, 2, ... in the order of their definitions, starting from n; a reference comes after
  // its definition.  Returns the next unused label.
  function Numbered(s: Syn, n: nat): Option<nat>
    decreases s, 0
  {
    match s
    case Atom(_) => Some(n)
    case Ref(m) => if m < n then Some(n) else None
    case Def(m, d) => if m == n then Numbered(d, n + 1) else None
    case Node(_, parts) => NumberedParts(s, |parts|, n)
  }

  function NumberedParts(s: Syn, k: nat, n: nat): Option<nat>
    requires s.Node? && k <= |s.parts|
    decreases s, 0, k
  {
    if k == 0 then Some(n)
    else match NumberedParts(s, k - 1, n)
      case None => None
      case Some(mid) => Numbered(s.parts[k - 1], mid)
  }

  lemma {:induction false} NumberedIsScoped(s: Syn, n: nat)
    requires Numbered(s, n).Some?
    ensures Scope(s, Interval(n)) == Some(Interval(Numbered(s, n).value))
    decreases s, 0
  {
    match s
    case Atom(_) =>
    case Ref(_) =>
    case Def(_, d) =>
      assert Interval(n) + {n} == Interval(n + 1);
      NumberedIsScoped(d, n + 1);
    case Node(_, parts) => NumberedPartsAreScoped(s, |parts|, n);
  }

  lemma {:induction false} NumberedPartsAreScoped(s: Syn, k: nat, n: nat)
    requires s.Node? && k <= |s.parts| && NumberedParts(s, k, n).Some?
    ensures ScopeParts(s, k, Interval(n)) == Some(Interval(NumberedParts(s, k, n).value))
    decreases s, 0, k
  {
    if k > 0 {
      NumberedPartsAreScoped(s, k - 1, n);
      NumberedIsScoped(s.parts[k - 1], NumberedParts(s, k - 1, n).value);
    }
  }

  // The objects that carry a label in the text, in the order of their definitions.
  ghost function Defined(h: Heap, s: Syn, v: Value): seq<Value>
    requires WellFormed(h) && InHeap(h, v)
    decreases s, 0
  {
    match s
    case Atom(_) => []
    case Ref(_) => []
    case Def(_, d) => [v] + Defined(h, d, v)
    case Node(_, parts) => if RightKind(h, v, s) then DefinedParts(h, s, v, |parts|) else []
  }

  ghost function DefinedParts(h: Heap, s: Syn, v: Value, k: nat): seq<Value>
    requires WellFormed(h) && InHeap(h, v) && s.Node? && RightKind(h, v, s) && k <= |s.parts|
    decreases s, 0, k
  {
    if k == 0 then []
    else DefinedParts(h, s, v, k - 1) + Defined(h, s.parts[k - 1], Field(h, v, k - 1))
  }

  // ---- two heaps that one text describes

  // The observable part of a value: which paths it has, what is seen along them, and which of them lead to
  // the very same object (eq?).  Two values that agree on all of this are the same graph up to addresses.
  ghost predicate SameGraph(h: Heap, v: Value, g: Heap, w: Value)
    requires WellFormed(h) && InHeap(h, v) && WellFormed(g) && InHeap(g, w)
  {
    && (forall p :: SameAlong(h, v, g, w, p))
    && (forall p, q :: SameIdentity(h, v, g, w, p, q))
  }

  ghost predicate SameAlong(h: Heap, v: Value, g: Heap, w: Value, p: seq<nat>)
    requires WellFormed(h) && InHeap(h, v) && WellFormed(g) && InHeap(g, w)
  {
    var x, y := Follow(h, v, p), Follow(g, w, p);
    (x.Some? <==> y.Some?) && (x.Some? ==> SameShape(h, x.value, g, y.value))
  }

  ghost predicate SameIdentity(h: Heap, v: Value, g: Heap, w: Value, p: seq<nat>, q: seq<nat>)
    requires WellFormed(h) && InHeap(h, v) && WellFormed(g) && InHeap(g, w)
  {
    Follow(h, v, p).Some? && Follow(h, v, q).Some? && Follow(g, w, p).Some? && Follow(g, w, q).Some? ==>
      (Follow(h, v, p) == Follow(h, v, q) <==> Follow(g, w, p) == Follow(g, w, q))
  }

  // x and y stand in corresponding places: the same leaf, or two matched objects.
  ghost predicate Corresponds(P: set<(Value, Value)>, x: Value, y: Value) {
    if x.LeafV? || y.LeafV? then x == y else (x, y) in P
  }

  ghost predicate FieldsCorrespond(h: Heap, g: Heap, P: set<(Value, Value)>, x: Value, y: Value) {
    && InHeap(h, x) && InHeap(g, y) && SameShape(h, x, g, y)
    && forall k :: 0 <= k < |Fields(h, x)| ==> Corresponds(P, Fields(h, x)[k], Fields(g, y)[k])
  }

  ghost predicate Matching(h: Heap, g: Heap, P: set<(Value, Value)>) {
    forall x, y :: (x, y) in P ==> FieldsCorrespond(h, g, P, x, y)
  }

  ghost predicate OneToOne(P: set<(Value, Value)>) {
    forall x, y, x', y' :: (x, y) in P && (x', y') in P ==> (x == x' <==> y == y')
  }

  lemma {:induction false} MatchingAlongPath(h: Heap, v: Value, g: Heap, w: Value, P: set<(Value, Value)>, p: seq<nat>)
    requires WellFormed(h) && InHeap(h, v) && WellFormed(g) && InHeap(g, w)
    requires Matching(h, g, P) && Corresponds(P, v, w)
    ensures SameAlong(h, v, g, w, p)
    ensures Follow(h, v, p).Some? ==> Corresponds(P, Follow(h, v, p).value, Follow(g, w, p).value)
    decreases |p|
  {
    if !v.LeafV? && !w.LeafV? {
      assert FieldsCorrespond(h, g, P, v, w);
      if p != [] && p[0] < |Fields(h, v)| {
        MatchingAlongPath(h, Field(h, v, p[0]), g, Field(g, w, p[0]), P, p[1..]);
      }
    }
  }

  // A graph isomorphism: a one-to-one matching of objects that commutes with every field.
  ghost predicate Isomorphism(h: Heap, v: Value, g: Heap, w: Value, P: set<(Value, Value)>) {
    Matching(h, g, P) && OneToOne(P) && Corresponds(P, v, w)
  }

  lemma IsomorphicIsSameGraph(h: Heap, v: Value, g: Heap, w: Value, P: set<(Value, Value)>)
    requires WellFormed(h) && InHeap(h, v) && WellFormed(g) && InHeap(g, w)
    requires Isomorphism(h, v, g, w, P)
    ensures SameGraph(h, v, g, w)
  {
    forall p ensures SameAlong(h, v, g, w, p) {
      MatchingAlongPath(h, v, g, w, P, p);
    }
    forall p, q ensures SameIdentity(h, v, g, w, p, q) {
      MatchingAlongPath(h, v, g, w, P, p);
      MatchingAlongPath(h, v, g, w, P, q);
    }
  }

  // The objects that some path reaches from v and from w.
  ghost predicate ReachedTogether(h: Heap, v: Value, g: Heap, w: Value, p: seq<nat>, x: Value, y: Value)
    requires WellFormed(h) && InHeap(h, v) && WellFormed(g) && InHeap(g, w)
  {
    Follow(h, v, p) == Some(x) && Follow(g, w, p) == Some(y)
  }

  ghost function Together(h: Heap, v: Value, g: Heap, w: Value): set<(Value, Value)>
    requires WellFormed(h) && InHeap(h, v) && WellFormed(g) && InHeap(g, w)
  {
    set x, y | x in Objects(h) && y in Objects(g) && (exists p :: ReachedTogether(h, v, g, w, p, x, y)) :: (x, y)
  }

  lemma TogetherCorresponds(h: Heap, v: Value, g: Heap, w: Value, p: seq<nat>, x: Value, y: Value)
    requires WellFormed(h) && InHeap(h, v) && WellFormed(g) && InHeap(g, w)
    requires SameAlong(h, v, g, w, p) && ReachedTogether(h, v, g, w, p, x, y)
    ensures Corresponds(Together(h, v, g, w), x, y)
  {
    assert InHeap(h, x) && InHeap(g, y) && SameShape(h, x, g, y);
    hide Follow;
    if !x.LeafV? {
      assert x in Objects(h) && y in Objects(g);
    }
  }

  lemma TogetherMatches(h: Heap, v: Value, g: Heap, w: Value, p: seq<nat>, x: Value, y: Value)
    requires WellFormed(h) && InHeap(h, v) && WellFormed(g) && InHeap(g, w)
    requires SameGraph(h, v, g, w) && ReachedTogether(h, v, g, w, p, x, y)
    ensures FieldsCorrespond(h, g, Together(h, v, g, w), x, y)
  {
    assert SameAlong(h, v, g, w, p);
    assert InHeap(h, x) && InHeap(g, y) && SameShape(h, x, g, y);
    forall k | 0 <= k < |Fields(h, x)| ensures Corresponds(Together(h, v, g, w), Fields(h, x)[k], Fields(g, y)[k]) {
      var q: seq<nat> := [k];
      FollowAppend(h, v, p, q);
      FollowAppend(g, w, p, q);
      assert q[1..] == [];
      assert Follow(h, x, q) == Some(Fields(h, x)[k]) && Follow(g, y, q) == Some(Fields(g, y)[k]);
      assert SameAlong(h, v, g, w, p + q);
      hide Together, SameAlong, SameGraph;
      TogetherCorresponds(h, v, g, w, p + q, Fields(h, x)[k], Fields(g, y)[k]);
    }
  }

  // Being the same graph is having an isomorphism: the one between what equal paths reach.
  lemma SameGraphIffIsomorphic(h: Heap, v: Value, g: Heap, w: Value)
    requires WellFormed(h) && InHeap(h, v) && WellFormed(g) && InHeap(g, w)
    ensures SameGraph(h, v, g, w) <==> exists P :: Isomorphism(h, v, g, w, P)
  {
    if SameGraph(h, v, g, w) {
      var P := Together(h, v, g, w);
      forall x, y | (x, y) in P ensures FieldsCorrespond(h, g, P, x, y) {
        var p :| ReachedTogether(h, v, g, w, p, x, y);
        TogetherMatches(h, v, g, w, p, x, y);
      }
      forall x, y, x', y' | (x, y) in P && (x', y') in P ensures x == x' <==> y == y' {
        var p :| ReachedTogether(h, v, g, w, p, x, y);
        var q :| ReachedTogether(h, v, g, w, q, x', y');
        assert SameIdentity(h, v, g, w, p, q);
      }
      assert SameAlong(h, v, g, w, []);
      TogetherCorresponds(h, v, g, w, [], v, w);
      assert Isomorphism(h, v, g, w, P);
    }
    if P :| Isomorphism(h, v, g, w, P) {
      IsomorphicIsSameGraph(h, v, g, w, P);
    }
  }

  // ---- one text, two heaps

  // The objects that one text shows in the same place of two heaps.
  ghost function Matched(h: Heap, s: Syn, v: Value, g: Heap, w: Value): set<(Value, Value)>
    requires WellFormed(h) && InHeap(h, v) && WellFormed(g) && InHeap(g, w)
    decreases s, 0
  {
    match s
    case Atom(_) => {}
    case Ref(_) => {}
    case Def(_, d) => Matched(h, d, v, g, w)
    case Node(_, parts) =>
      {(v, w)} + (if RightKind(h, v, s) && RightKind(g, w, s) then MatchedParts(h, s, v, g, w, |parts|) else {})
  }

  ghost function MatchedParts(h: Heap, s: Syn, v: Value, g: Heap, w: Value, k: nat): set<(Value, Value)>
    requires WellFormed(h) && InHeap(h, v) && WellFormed(g) && InHeap(g, w)
    requires s.Node? && RightKind(h, v, s) && RightKind(g, w, s) && k <= |s.parts|
    decreases s, 0, k
  {
    if k == 0 then {}
    else MatchedParts(h, s, v, g, w, k - 1) + Matched(h, s.parts[k - 1], Field(h, v, k - 1), g, Field(g, w, k - 1))
  }

  ghost predicate LabelsCorrespond(P: set<(Value, Value)>, e: map<nat, Value>, f: map<nat, Value>, known: set<nat>) {
    forall n :: n in known ==> n in e && n in f && Corresponds(P, e[n], f[n])
  }

  ghost predicate AllCorrespond(h: Heap, g: Heap, P: set<(Value, Value)>, part: set<(Value, Value)>) {
    forall x, y :: (x, y) in part ==> FieldsCorrespond(h, g, P, x, y)
  }

  lemma AllCorrespondUnion(h: Heap, g: Heap, P: set<(Value, Value)>, A: set<(Value, Value)>, B: set<(Value, Value)>)
    requires AllCorrespond(h, g, P, A) && AllCorrespond(h, g, P, B)
    ensures AllCorrespond(h, g, P, A + B)
  {
  }

  ghost predicate PartsMatch(h: Heap, v: Value, g: Heap, w: Value, P: set<(Value, Value)>, k: nat)
    requires WellFormed(h) && InHeap(h, v) && WellFormed(g) && InHeap(g, w)
    requires k <= |Fields(h, v)| && k <= |Fields(g, w)|
  {
    forall j :: 0 <= j < k ==> Corresponds(P, Field(h, v, j), Field(g, w, j))
  }

  lemma OneMorePart(h: Heap, v: Value, g: Heap, w: Value, P: set<(Value, Value)>, k: nat)
    requires WellFormed(h) && InHeap(h, v) && WellFormed(g) && InHeap(g, w)
    requires 0 < k <= |Fields(h, v)| && k <= |Fields(g, w)|
    requires PartsMatch(h, v, g, w, P, k - 1) && Corresponds(P, Field(h, v, k - 1), Field(g, w, k - 1))
    ensures PartsMatch(h, v, g, w, P, k)
  {
    hide Corresponds;
  }

  // Reading the text once, in order, over both heaps: what it has shown so far corresponds field by field, and
  // so do the values its labels stand for.
  lemma {:induction false} Pictures(
      h: Heap, e: map<nat, Value>, v: Value, g: Heap, f: map<nat, Value>, w: Value,
      P: set<(Value, Value)>, s: Syn, known: set<nat>)
    requires WellFormed(h) && InHeap(h, v) && WellFormed(g) && InHeap(g, w)
    requires Describes(h, e, s, v) && Describes(g, f, s, w)
    requires Matched(h, s, v, g, w) <= P
    requires Scope(s, known).Some? && LabelsCorrespond(P, e, f, known)
    ensures Corresponds(P, v, w)
    ensures LabelsCorrespond(P, e, f, Scope(s, known).value)
    ensures AllCorrespond(h, g, P, Matched(h, s, v, g, w))
    decreases s, 0
  {
    match s
    case Atom(_) =>
    case Ref(_) =>
    case Def(n, d) =>
      assert d.Node? ==> (v, w) in Matched(h, d, v, g, w);
      Pictures(h, e, v, g, f, w, P, d, known + {n});
    case Node(_, parts) =>
      PicturesParts(h, e, v, g, f, w, P, s, known, |parts|);
      NodeCorresponds(h, v, g, w, P, s);
  }

  lemma NodeCorresponds(h: Heap, v: Value, g: Heap, w: Value, P: set<(Value, Value)>, s: Syn)
    requires WellFormed(h) && InHeap(h, v) && WellFormed(g) && InHeap(g, w)
    requires s.Node? && RightKind(h, v, s) && RightKind(g, w, s)
    requires PartsMatch(h, v, g, w, P, |s.parts|)
    ensures FieldsCorrespond(h, g, P, v, w)
  {
    forall k | 0 <= k < |Fields(h, v)| ensures Corresponds(P, Fields(h, v)[k], Fields(g, w)[k]) {
      assert Corresponds(P, Field(h, v, k), Field(g, w, k));
    }
  }

  lemma {:induction false} PicturesParts(
      h: Heap, e: map<nat, Value>, v: Value, g: Heap, f: map<nat, Value>, w: Value,
      P: set<(Value, Value)>, s: Syn, known: set<nat>, k: nat)
    requires WellFormed(h) && InHeap(h, v) && WellFormed(g) && InHeap(g, w)
    requires s.Node? && k <= |s.parts| && Describes(h, e, s, v) && Describes(g, f, s, w)
    requires MatchedParts(h, s, v, g, w, k) <= P
    requires ScopeParts(s, k, known).Some? && LabelsCorrespond(P, e, f, known)
    ensures PartsMatch(h, v, g, w, P, k)
    ensures LabelsCorrespond(P, e, f, ScopeParts(s, k, known).value)
    ensures AllCorrespond(h, g, P, MatchedParts(h, s, v, g, w, k))
    decreases s, 0, k
  {
    if k > 0 {
      var part, x, y := s.parts[k - 1], Field(h, v, k - 1), Field(g, w, k - 1);
      var A, B := MatchedParts(h, s, v, g, w, k - 1), Matched(h, part, x, g, y);
      assert Describes(h, e, part, x) && Describes(g, f, part, y) && MatchedParts(h, s, v, g, w, k) == A + B;
      assert ScopeParts(s, k - 1, known).Some?;
      var mid := ScopeParts(s, k - 1, known).value;
      assert ScopeParts(s, k, known) == Scope(part, mid);
      hide Describes, Matched, MatchedParts, Scope, ScopeParts, LabelsCorrespond, AllCorrespond, Corresponds;
      hide WellFormed, RightKind, Fields, PartsMatch;
      PicturesParts(h, e, v, g, f, w, P, s, known, k - 1);
      Pictures(h, e, x, g, f, y, P, part, mid);
      AllCorrespondUnion(h, g, P, A, B);
      OneMorePart(h, v, g, w, P, k);
    }
  }

  // Matched objects sit at the same position of the two lists of shown objects.
  ghost predicate Aligned(C: seq<Value>, D: seq<Value>, P: set<(Value, Value)>) {
    && |C| == |D|
    && forall x, y :: (x, y) in P ==> exists i :: 0 <= i < |C| && C[i] == x && D[i] == y
  }

  lemma AlignedAppend(C: seq<Value>, D: seq<Value>, P: set<(Value, Value)>, C': seq<Value>, D': seq<Value>, P': set<(Value, Value)>)
    requires Aligned(C, D, P) && Aligned(C', D', P')
    ensures Aligned(C + C', D + D', P + P')
  {
    forall x, y | (x, y) in P + P'
      ensures exists i :: 0 <= i < |C + C'| && (C + C')[i] == x && (D + D')[i] == y
    {
      if (x, y) in P {
        var i :| 0 <= i < |C| && C[i] == x && D[i] == y;
        assert (C + C')[i] == x && (D + D')[i] == y;
      } else {
        var i :| 0 <= i < |C'| && C'[i] == x && D'[i] == y;
        assert (C + C')[|C| + i] == x && (D + D')[|C| + i] == y;
      }
    }
  }

  lemma {:induction false} ShownAligned(h: Heap, e: map<nat, Value>, v: Value, g: Heap, f: map<nat, Value>, w: Value, s: Syn)
    requires WellFormed(h) && InHeap(h, v) && WellFormed(g) && InHeap(g, w)
    requires Describes(h, e, s, v) && Describes(g, f, s, w)
    ensures Aligned(Shown(h, s, v), Shown(g, s, w), Matched(h, s, v, g, w))
    decreases s, 0
  {
    match s
    case Atom(_) =>
    case Ref(_) =>
    case Def(_, d) =>
      ShownAligned(h, e, v, g, f, w, d);
    case Node(_, parts) =>
      ShownPartsAligned(h, e, v, g, f, w, s, |parts|);
      assert [v][0] == v && [w][0] == w;
      AlignedAppend([v], [w], {(v, w)}, ShownParts(h, s, v, |parts|), ShownParts(g, s, w, |parts|),
                    MatchedParts(h, s, v, g, w, |parts|));
  }

  lemma {:induction false} ShownPartsAligned(
      h: Heap, e: map<nat, Value>, v: Value, g: Heap, f: map<nat, Value>, w: Value, s: Syn, k: nat)
    requires WellFormed(h) && InHeap(h, v) && WellFormed(g) && InHeap(g, w)
    requires s.Node? && k <= |s.parts| && Describes(h, e, s, v) && Describes(g, f, s, w)
    ensures Aligned(ShownParts(h, s, v, k), ShownParts(g, s, w, k), MatchedParts(h, s, v, g, w, k))
    decreases s, 0, k
  {
    if k > 0 {
      var part, x, y := s.parts[k - 1], Field(h, v, k - 1), Field(g, w, k - 1);
      ShownPartsAligned(h, e, v, g, f, w, s, k - 1);
      ShownAligned(h, e, x, g, f, y, part);
      AlignedAppend(ShownParts(h, s, v, k - 1), ShownParts(g, s, w, k - 1), MatchedParts(h, s, v, g, w, k - 1),
                    Shown(h, part, x), Shown(g, part, y), Matched(h, part, x, g, y));
    }
  }

  // Main result: if a well-scoped text describes both v and w, showing no object twice on either side, then
  // v and w are the same graph.
  lemma SameTextSameGraph(h: Heap, e: map<nat, Value>, v: Value, g: Heap, f: map<nat, Value>, w: Value, s: Syn)
    requires WellFormed(h) && InHeap(h, v) && WellFormed(g) && InHeap(g, w)
    requires Describes(h, e, s, v) && Describes(g, f, s, w) && Scope(s, {}).Some?
    requires Distinct(Shown(h, s, v)) && Distinct(Shown(g, s, w))
    ensures SameGraph(h, v, g, w)
  {
    var P := Matched(h, s, v, g, w);
    Pictures(h, e, v, g, f, w, P, s, {});
    ShownAligned(h, e, v, g, f, w, s);
    AlignedIsOneToOne(Shown(h, s, v), Shown(g, s, w), P);
    IsomorphicIsSameGraph(h, v, g, w, P);
  }

  lemma AlignedIsOneToOne(C: seq<Value>, D: seq<Value>, P: set<(Value, Value)>)
    requires Aligned(C, D, P) && Distinct(C) && Distinct(D)
    ensures OneToOne(P)
  {
    forall x, y, x', y' | (x, y) in P && (x', y') in P ensures x == x' <==> y == y' {
      var i :| 0 <= i < |C| && C[i] == x && D[i] == y;
      var j :| 0 <= j < |C| && C[j] == x' && D[j] == y';
      if i != j {
        assert C[i] != C[j] && D[i] != D[j];
      }
    }
  }
}
