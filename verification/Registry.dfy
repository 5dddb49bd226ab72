/** The actor registry of icecreme/actor.c: nodes ("systems") that each hold a list of live actors, a list of
    names and an id counter, under every interleaving of spawn, start-node, register! and exit. */
module Registry {
  import opened Util
  import opened Decimal

  type Id = seq<byte>
  type Name = seq<byte>

  // ---- the state

  // `node` is the system an actor context belongs to; `starting` the system that its running start-node call has
  // allocated but not moved into yet.
  datatype Actor = Actor(id: Id, node: nat, exited: bool, starting: Option<nat>)

  datatype NameEntry = NameEntry(name: Name, id: Id)

  datatype Node = Node(actors: seq<nat>, names: seq<NameEntry>, nextId: nat)

  // Actors and nodes are named by their position; node 0 is the default one.  `joined` records history: every actor
  // that was ever in a node's list.
  datatype State = State(actors: seq<Actor>, nodes: seq<Node>, joined: set<(nat, nat)>)

  // An actor reference: of an actor of this process, or of a remote one, whose id is any text at all.
  datatype Ref = Ref(id: Id, target: Option<nat>)

  const NEW_NODE := Node([], [], 1)

  // Unlinking from a list: every matching entry goes, the rest keep their order.
  function Without<T(!new)>(s: seq<T>, drop: T -> bool): (r: seq<T>)
    ensures forall x :: x in r <==> x in s && !drop(x)
  {
    if s == [] then []
    else Without(s[..|s| - 1], drop) + (if drop(s[|s| - 1]) then [] else [s[|s| - 1]])
  }

  lemma {:induction false} WithoutDistinct<T(!new)>(s: seq<T>, drop: T -> bool)
    requires Distinct(s)
    ensures Distinct(Without(s, drop))
  {
    if s != [] {
      WithoutDistinct(s[..|s| - 1], drop);
    }
  }

  lemma ConsDistinct<T>(x: T, s: seq<T>)
    requires Distinct(s) && x !in s
    ensures Distinct([x] + s)
  {
  }

  function Is(a: nat): nat -> bool {
    x => x == a
  }

  function Named(name: Name): NameEntry -> bool {
    (e: NameEntry) => e.name == name
  }

  function ForId(id: Id): NameEntry -> bool {
    (e: NameEntry) => e.id == id
  }

  function FindId(names: seq<NameEntry>, name: Name): (r: Option<Id>)
    ensures r.Some? ==> NameEntry(name, r.value) in names
    ensures r.None? ==> forall e :: e in names ==> e.name != name
  {
    if names == [] then None
    else if names[0].name == name then Some(names[0].id)
    else FindId(names[1..], name)
  }

  function FindActor(actors: seq<Actor>, list: seq<nat>, id: Id): (r: Option<nat>)
    requires forall a :: a in list ==> a < |actors|
    ensures r.Some? ==> r.value in list && actors[r.value].id == id
    ensures r.None? ==> forall a :: a in list ==> actors[a].id != id
  {
    if list == [] then None
    else
      assert list[0] in list && forall a :: a in list[1..] ==> a in list;
      if actors[list[0]].id == id then Some(list[0]) else FindActor(actors, list[1..], id)
  }

  // strtol on an id; the ids of actor contexts are always the text of a counter.
  function Number(id: Id): int {
    match ParseInteger(id)
    case Some(v) => v
    case None => 0
  }

  // ---- the operations, each one critical section

  function NewActor(s: State, n: nat): State
    requires n < |s.nodes|
  {
    var node := s.nodes[n];
    State(s.actors + [Actor(Digits(node.nextId), n, false, None)],
          s.nodes[n := Node([|s.actors|] + node.actors, node.names, node.nextId + 1)],
          s.joined + {(n, |s.actors|)})
  }

  function MoveTo(s: State, a: nat, n: nat): State
    requires a < |s.actors| && n < |s.nodes| && s.actors[a].node < |s.nodes|
  {
    var from := s.actors[a].node;
    if from == n then s
    else
      var left := s.nodes[from].(actors := Without(s.nodes[from].actors, Is(a)));
      var k := Number(s.actors[a].id);
      var grown := Node([a] + s.nodes[n].actors, s.nodes[n].names,
                        if k >= s.nodes[n].nextId then k + 1 else s.nodes[n].nextId);
      State(s.actors[a := s.actors[a].(node := n)], s.nodes[from := left][n := grown], s.joined + {(n, a)})
  }

  function Registered(node: Node, name: Name, id: Id): Node {
    node.(names := [NameEntry(name, id)] + Without(node.names, Named(name)))
  }

  function Unregistered(node: Node, a: nat, id: Id): Node {
    node.(actors := Without(node.actors, Is(a)), names := Without(node.names, ForId(id)))
  }

  // whereis from inside node n: the name gives an id, the id an actor of the same node.
  function Whereis(s: State, n: nat, name: Name): Option<nat>
    requires n < |s.nodes| && forall a :: a in s.nodes[n].actors ==> a < |s.actors|
  {
    match FindId(s.nodes[n].names, name)
    case None => None
    case Some(id) => FindActor(s.actors, s.nodes[n].actors, id)
  }

  // ---- runs

  datatype Step =
    | Ensure                                   // a thread's first use of the runtime gives it a context
    | Spawn(who: nat)
    | Allocate(who: nat)                        // start-node makes the new system ...
    | Move(who: nat)                            // ... and moves its caller there
    | Register(who: nat, name: Name, ref: Ref)
    | Exit(who: nat)

  predicate Running(s: State, a: nat) {
    a < |s.actors| && !s.actors[a].exited
  }

  predicate RefOk(s: State, ref: Ref) {
    ref.target.Some? ==> ref.target.value < |s.actors| && s.actors[ref.target.value].id == ref.id
  }

  predicate Enabled(s: State, step: Step) {
    match step
    case Ensure => true
    case Spawn(who) => Running(s, who) && s.actors[who].starting.None?
    case Allocate(who) => Running(s, who) && s.actors[who].starting.None?
    case Move(who) => Running(s, who) && s.actors[who].starting.Some?
    case Register(who, _, ref) => Running(s, who) && s.actors[who].starting.None? && RefOk(s, ref)
    case Exit(who) => Running(s, who)
  }

  ghost predicate InBounds(s: State) {
    && |s.nodes| > 0
    && (forall a :: 0 <= a < |s.actors| ==> s.actors[a].node < |s.nodes|)
    && (forall a :: 0 <= a < |s.actors| && s.actors[a].starting.Some? ==> s.actors[a].starting.value < |s.nodes|)
  }

  ghost function Apply(s: State, step: Step): State
    requires InBounds(s) && Enabled(s, step)
  {
    match step
    case Ensure => NewActor(s, 0)
    case Spawn(who) => NewActor(s, s.actors[who].node)
    case Allocate(who) =>
      s.(actors := s.actors[who := s.actors[who].(starting := Some(|s.nodes|))], nodes := s.nodes + [NEW_NODE])
    case Move(who) =>
      var t := MoveTo(s, who, s.actors[who].starting.value);
      t.(actors := t.actors[who := t.actors[who].(starting := None)])
    case Register(who, name, ref) =>
      var n := s.actors[who].node;
      s.(nodes := s.nodes[n := Registered(s.nodes[n], name, ref.id)])
    case Exit(who) =>
      var n := s.actors[who].node;
      s.(actors := s.actors[who := s.actors[who].(exited := true)],
         nodes := s.nodes[n := Unregistered(s.nodes[n], who, s.actors[who].id)])
  }

  const START := State([], [Node([], [], 1)], {})

  ghost predicate Follows(s: State, step: Step, t: State) {
    InBounds(s) && Enabled(s, step) && t == Apply(s, step)
  }

  ghost predicate IsRun(states: seq<State>, steps: seq<Step>) {
    && |states| == |steps| + 1 && states[0] == START
    && forall i :: 0 <= i < |steps| ==> Follows(states[i], steps[i], states[i + 1])
  }

  // ---- the invariant

  // A node lists exactly its running actors, once each, and holds each name at most once.
  ghost predicate NodeOk(s: State, n: nat)
    requires n < |s.nodes|
  {
    && s.nodes[n].nextId >= 1
    && Distinct(s.nodes[n].actors)
    && (forall a :: a in s.nodes[n].actors ==> a < |s.actors| && s.actors[a].node == n && !s.actors[a].exited)
    && (forall e, f :: e in s.nodes[n].names && f in s.nodes[n].names && e.name == f.name ==> e == f)
    && Distinct(s.nodes[n].names)
  }

  ghost predicate NodesOk(s: State) {
    && |s.nodes| > 0
    && (forall n :: 0 <= n < |s.nodes| ==> NodeOk(s, n))
    && (forall a :: 0 <= a < |s.actors| && !s.actors[a].exited ==>
          s.actors[a].node < |s.nodes| && a in s.nodes[s.actors[a].node].actors)
  }

  // Whoever has ever been in a node carries a number below the node's counter, and a number of his own.
  ghost predicate JoinedOk(s: State) {
    && (forall p :: p in s.joined ==> p.0 < |s.nodes| && p.1 < |s.actors|)
    && (forall p :: p in s.joined ==>
          1 <= Number(s.actors[p.1].id) < s.nodes[p.0].nextId
          && s.actors[p.1].id == Digits(Number(s.actors[p.1].id)))
    && (forall p, q :: p in s.joined && q in s.joined && p.0 == q.0 && s.actors[p.1].id == s.actors[q.1].id ==>
          p == q)
    && (forall a :: 0 <= a < |s.actors| ==> (s.actors[a].node, a) in s.joined)
  }

  predicate SameStart(x: Actor, y: Actor) {
    x.starting.Some? && x.starting == y.starting
  }

  // A system that start-node has allocated is new when its caller moves in, and nobody else moves there.
  ghost predicate StartingOk(s: State) {
    && (forall a :: 0 <= a < |s.actors| && s.actors[a].starting.Some? ==>
          0 < s.actors[a].starting.value < |s.nodes| && s.nodes[s.actors[a].starting.value] == NEW_NODE
          && forall p :: p in s.joined ==> p.0 != s.actors[a].starting.value)
    && (forall a, b :: 0 <= a < |s.actors| && 0 <= b < |s.actors| && SameStart(s.actors[a], s.actors[b]) ==> a == b)
  }

  ghost predicate Inv(s: State) {
    NodesOk(s) && JoinedOk(s) && StartingOk(s)
  }

  lemma NumberOfDigits(n: nat)
    ensures Number(Digits(n)) == n
  {
    IntegerRoundTrip(n);
  }

  // ---- every step keeps it

  lemma NodeStays(s: State, t: State, n: nat)
    requires n < |s.nodes| && NodeOk(s, n) && n < |t.nodes| && t.nodes[n] == s.nodes[n]
    requires forall a :: a in s.nodes[n].actors ==>
      a < |t.actors| && t.actors[a].node == n && !t.actors[a].exited
    ensures NodeOk(t, n)
  {
  }

  lemma JoinedStays(s: State, t: State)
    requires JoinedOk(s) && t.joined == s.joined && |t.actors| == |s.actors| && |t.nodes| >= |s.nodes|
    requires forall a :: 0 <= a < |s.actors| ==>
      t.actors[a].id == s.actors[a].id && t.actors[a].node == s.actors[a].node
    requires forall n :: 0 <= n < |s.nodes| ==> t.nodes[n].nextId == s.nodes[n].nextId
    ensures JoinedOk(t)
  {
    hide Number, Digits;
  }

  lemma NewActorNodes(s: State, n: nat)
    requires Inv(s) && n < |s.nodes|
    ensures NodesOk(NewActor(s, n))
  {
    var t := NewActor(s, n);
    forall m | 0 <= m < |t.nodes| ensures NodeOk(t, m) {
      assert NodeOk(s, m);
      if m == n {
        ConsDistinct(|s.actors|, s.nodes[n].actors);
      } else {
        NodeStays(s, t, m);
      }
    }
  }

  // Actor a joins node n under an id that nobody has ever had there.
  lemma OneMoreJoined(s: State, t: State, n: nat, a: nat)
    requires JoinedOk(s) && t.joined == s.joined + {(n, a)}
    requires |t.nodes| == |s.nodes| && |t.actors| >= |s.actors| && n < |t.nodes| && a < |t.actors|
    requires forall m :: 0 <= m < |s.nodes| ==> t.nodes[m].nextId >= s.nodes[m].nextId
    requires forall b :: 0 <= b < |s.actors| ==> t.actors[b].id == s.actors[b].id
    requires forall b :: 0 <= b < |t.actors| && b != a ==> b < |s.actors| && t.actors[b].node == s.actors[b].node
    requires t.actors[a].node == n && 1 <= Number(t.actors[a].id) < t.nodes[n].nextId
    requires t.actors[a].id == Digits(Number(t.actors[a].id))
    requires forall p :: p in s.joined && p.0 == n ==> p.1 < |s.actors| && s.actors[p.1].id != t.actors[a].id
    ensures JoinedOk(t)
  {
    hide Number, Digits;
  }

  lemma NewActorJoined(s: State, n: nat)
    requires Inv(s) && n < |s.nodes|
    ensures JoinedOk(NewActor(s, n))
  {
    var t := NewActor(s, n);
    NumberOfDigits(s.nodes[n].nextId);
    assert NodeOk(s, n);
    forall p | p in s.joined && p.0 == n ensures s.actors[p.1].id != t.actors[|s.actors|].id {
      assert Number(s.actors[p.1].id) < s.nodes[n].nextId;
    }
    assert forall p :: p in s.joined ==> p.1 < |s.actors|;
    hide NodeOk, NodesOk, JoinedOk, StartingOk, Number, Digits;
    OneMoreJoined(s, t, n, |s.actors|);
  }

  // Systems that start-node has allocated and not yet moved into stay new.
  lemma StartingStays(s: State, t: State)
    requires StartingOk(s) && |s.actors| <= |t.actors| && |s.nodes| <= |t.nodes|
    requires forall a :: 0 <= a < |t.actors| && t.actors[a].starting.Some? ==>
      && a < |s.actors| && t.actors[a].starting == s.actors[a].starting
      && t.actors[a].starting.value < |s.nodes|
      && t.nodes[t.actors[a].starting.value] == s.nodes[t.actors[a].starting.value]
    requires forall a, p :: 0 <= a < |t.actors| && t.actors[a].starting.Some? && p in t.joined && p !in s.joined ==>
      p.0 != t.actors[a].starting.value
    ensures StartingOk(t)
  {
  }

  lemma NewActorKeeps(s: State, n: nat)
    requires Inv(s) && n < |s.nodes|
    requires forall a :: 0 <= a < |s.actors| && s.actors[a].starting.Some? ==> s.actors[a].starting.value != n
    ensures Inv(NewActor(s, n))
  {
    NewActorNodes(s, n);
    NewActorJoined(s, n);
    hide NodesOk, JoinedOk;
    StartingStays(s, NewActor(s, n));
    hide StartingOk;
  }

  lemma AllocateNodes(s: State, a: nat)
    requires Inv(s) && Enabled(s, Allocate(a)) && InBounds(s)
    ensures NodesOk(Apply(s, Allocate(a)))
  {
    var t := Apply(s, Allocate(a));
    forall m | 0 <= m < |t.nodes| ensures NodeOk(t, m) {
      if m < |s.nodes| {
        assert NodeOk(s, m);
        NodeStays(s, t, m);
      }
    }
  }

  lemma AllocateKeeps(s: State, a: nat)
    requires Inv(s) && Enabled(s, Allocate(a)) && InBounds(s)
    ensures Inv(Apply(s, Allocate(a)))
  {
    AllocateNodes(s, a);
    AllocateStarting(s, a);
    JoinedStays(s, Apply(s, Allocate(a)));
    hide NodesOk, JoinedOk, StartingOk;
  }

  lemma AllocateStarting(s: State, a: nat)
    requires Inv(s) && Enabled(s, Allocate(a)) && InBounds(s)
    ensures StartingOk(Apply(s, Allocate(a)))
  {
    assert forall p :: p in s.joined ==> p.0 < |s.nodes|;
    hide NodesOk, JoinedOk, StartingOk;
    OneMoreStarting(s, Apply(s, Allocate(a)), a);
  }

  // Actor a starts a node that is the next one to be made.
  lemma OneMoreStarting(s: State, t: State, a: nat)
    requires StartingOk(s) && |s.nodes| > 0 && t.joined == s.joined && t.nodes == s.nodes + [NEW_NODE]
    requires a < |s.actors| == |t.actors| && t.actors[a].starting == Some(|s.nodes|)
    requires forall b :: 0 <= b < |s.actors| && b != a ==> t.actors[b].starting == s.actors[b].starting
    requires forall p :: p in s.joined ==> p.0 < |s.nodes|
    ensures StartingOk(t)
  {
    forall b, c | 0 <= b < |t.actors| && 0 <= c < |t.actors| && SameStart(t.actors[b], t.actors[c]) ensures b == c {
      assert b != a && c != a ==> SameStart(s.actors[b], s.actors[c]);
    }
  }

  lemma MoveNodes(s: State, a: nat)
    requires Inv(s) && Enabled(s, Move(a)) && InBounds(s)
    ensures NodesOk(Apply(s, Move(a)))
  {
    var t := Apply(s, Move(a));
    var from := s.actors[a].node;
    MoveTarget(s, a);
    hide JoinedOk, StartingOk, Number, Digits;
    forall m | 0 <= m < |t.nodes| ensures NodeOk(t, m) {
      MoveNode(s, a, m);
    }
    hide NodeOk;
    assert forall b :: b in t.nodes[from].actors <==> b in s.nodes[from].actors && b != a;
    hide Without;
  }

  lemma LeftNode(s: State, a: nat)
    requires NodesOk(s) && Enabled(s, Move(a)) && InBounds(s) && s.actors[a].starting.value != s.actors[a].node
    ensures NodeOk(Apply(s, Move(a)), s.actors[a].node)
  {
    var from := s.actors[a].node;
    assert NodeOk(s, from);
    hide NodesOk, Number;
    WithoutDistinct(s.nodes[from].actors, Is(a));
    assert Apply(s, Move(a)).nodes[from] == s.nodes[from].(actors := Without(s.nodes[from].actors, Is(a)));
    hide Without;
  }

  lemma EnteredNode(s: State, a: nat)
    requires Enabled(s, Move(a)) && InBounds(s) && s.actors[a].starting.value != s.actors[a].node
    requires s.nodes[s.actors[a].starting.value] == NEW_NODE
    ensures NodeOk(Apply(s, Move(a)), s.actors[a].starting.value)
  {
    assert Apply(s, Move(a)).nodes[s.actors[a].starting.value].actors == [a];
    hide Without, Number;
  }

  lemma OtherNode(s: State, a: nat, m: nat)
    requires NodesOk(s) && Enabled(s, Move(a)) && InBounds(s) && m < |s.nodes|
    requires m != s.actors[a].node && m != s.actors[a].starting.value
    ensures NodeOk(Apply(s, Move(a)), m)
  {
    var t := Apply(s, Move(a));
    assert NodeOk(s, m);
    assert t.nodes[m] == s.nodes[m] && |t.actors| == |s.actors|;
    assert forall b :: 0 <= b < |s.actors| && b != a ==> t.actors[b] == s.actors[b];
    hide NodesOk, Apply;
    NodeStays(s, t, m);
  }

  lemma MoveNode(s: State, a: nat, m: nat)
    requires Inv(s) && Enabled(s, Move(a)) && InBounds(s) && m < |s.nodes|
    requires s.actors[a].starting.value != s.actors[a].node && s.nodes[s.actors[a].starting.value] == NEW_NODE
    ensures NodeOk(Apply(s, Move(a)), m)
  {
    assert NodeOk(s, m);
    hide Inv, NodeOk;
    if m == s.actors[a].node {
      LeftNode(s, a);
    } else if m == s.actors[a].starting.value {
      EnteredNode(s, a);
    } else {
      OtherNode(s, a, m);
    }
  }

  // Nobody has ever been where the mover goes.
  lemma MoveTarget(s: State, a: nat)
    requires Inv(s) && Enabled(s, Move(a)) && InBounds(s)
    ensures var n := s.actors[a].starting.value;
      && n != s.actors[a].node && s.nodes[n] == NEW_NODE && (forall p :: p in s.joined ==> p.0 != n)
      && (forall b :: 0 <= b < |s.actors| && b != a && s.actors[b].starting.Some? ==> s.actors[b].starting.value != n)
  {
    assert (s.actors[a].node, a) in s.joined;
    forall b | 0 <= b < |s.actors| && b != a && s.actors[b].starting.Some?
      ensures s.actors[b].starting.value != s.actors[a].starting.value
    {
      assert !SameStart(s.actors[a], s.actors[b]);
    }
    hide NodesOk, JoinedOk;
  }

  lemma MoveJoined(s: State, a: nat)
    requires Inv(s) && Enabled(s, Move(a)) && InBounds(s)
    ensures JoinedOk(Apply(s, Move(a)))
  {
    var t, n := Apply(s, Move(a)), s.actors[a].starting.value;
    MoveTarget(s, a);
    assert (s.actors[a].node, a) in s.joined;
    assert 1 <= Number(s.actors[a].id) && s.actors[a].id == Digits(Number(s.actors[a].id));
    assert t.nodes[n].nextId > Number(s.actors[a].id);
    hide NodeOk, NodesOk, StartingOk, JoinedOk, Number, Digits, Without;
    OneMoreJoined(s, t, n, a);
  }

  lemma MoveStarting(s: State, a: nat)
    requires Inv(s) && Enabled(s, Move(a)) && InBounds(s)
    ensures StartingOk(Apply(s, Move(a)))
  {
    var t := Apply(s, Move(a));
    MoveTarget(s, a);
    assert (s.actors[a].node, a) in s.joined;
    forall b | 0 <= b < |t.actors| && t.actors[b].starting.Some?
      ensures t.nodes[t.actors[b].starting.value] == s.nodes[t.actors[b].starting.value]
    {
      assert b != a && t.actors[b].starting.value != s.actors[a].node;
    }
    hide NodesOk, JoinedOk, StartingOk, Without, Number;
    StartingStays(s, t);
  }

  lemma MoveKeeps(s: State, a: nat)
    requires Inv(s) && Enabled(s, Move(a)) && InBounds(s)
    ensures Inv(Apply(s, Move(a)))
  {
    MoveNodes(s, a);
    MoveJoined(s, a);
    MoveStarting(s, a);
    hide NodesOk, JoinedOk, StartingOk, Apply;
  }

  lemma RegisterNodes(s: State, a: nat, name: Name, ref: Ref)
    requires Inv(s) && Enabled(s, Register(a, name, ref)) && InBounds(s)
    ensures NodesOk(Apply(s, Register(a, name, ref)))
  {
    var t := Apply(s, Register(a, name, ref));
    var n := s.actors[a].node;
    forall m | 0 <= m < |t.nodes| ensures NodeOk(t, m) {
      assert NodeOk(s, m);
      if m == n {
        WithoutDistinct(s.nodes[n].names, Named(name));
        ConsDistinct(NameEntry(name, ref.id), Without(s.nodes[n].names, Named(name)));
      } else {
        NodeStays(s, t, m);
      }
    }
  }

  lemma RegisterKeeps(s: State, a: nat, name: Name, ref: Ref)
    requires Inv(s) && Enabled(s, Register(a, name, ref)) && InBounds(s)
    ensures Inv(Apply(s, Register(a, name, ref)))
  {
    RegisterNodes(s, a, name, ref);
    JoinedStays(s, Apply(s, Register(a, name, ref)));
    assert (s.actors[a].node, a) in s.joined;
    hide NodesOk, JoinedOk, Without;
  }

  lemma ExitNodes(s: State, a: nat)
    requires Inv(s) && Enabled(s, Exit(a)) && InBounds(s)
    ensures NodesOk(Apply(s, Exit(a)))
  {
    var t := Apply(s, Exit(a));
    var n := s.actors[a].node;
    forall m | 0 <= m < |t.nodes| ensures NodeOk(t, m) {
      assert NodeOk(s, m);
      if m == n {
        WithoutDistinct(s.nodes[n].actors, Is(a));
        WithoutDistinct(s.nodes[n].names, ForId(s.actors[a].id));
      } else {
        NodeStays(s, t, m);
      }
    }
  }

  lemma ExitKeeps(s: State, a: nat)
    requires Inv(s) && Enabled(s, Exit(a)) && InBounds(s)
    ensures Inv(Apply(s, Exit(a)))
  {
    ExitNodes(s, a);
    ExitStarting(s, a);
    JoinedStays(s, Apply(s, Exit(a)));
    hide NodesOk, JoinedOk, StartingOk;
  }

  lemma ExitStarting(s: State, a: nat)
    requires Inv(s) && Enabled(s, Exit(a)) && InBounds(s)
    ensures StartingOk(Apply(s, Exit(a)))
  {
    var t := Apply(s, Exit(a));
    assert (s.actors[a].node, a) in s.joined;
    hide NodesOk, JoinedOk, Without;
    assert forall b :: 0 <= b < |t.actors| && t.actors[b].starting.Some? ==>
        t.actors[b].starting == s.actors[b].starting && t.actors[b].starting.value != s.actors[a].node;
    StartingStays(s, t);
    hide StartingOk;
  }

  lemma StepKeeps(s: State, step: Step, t: State)
    requires Inv(s) && Follows(s, step, t)
    ensures Inv(t)
  {
    match step
    case Ensure => NewActorKeeps(s, 0);
    case Spawn(a) => NewActorKeeps(s, s.actors[a].node);
    case Allocate(a) => AllocateKeeps(s, a);
    case Move(a) => MoveKeeps(s, a);
    case Register(a, name, ref) => RegisterKeeps(s, a, name, ref);
    case Exit(a) => ExitKeeps(s, a);
  }

  // ---- whole runs

  lemma {:induction false} InvThroughout(states: seq<State>, steps: seq<Step>, i: nat)
    requires IsRun(states, steps) && i <= |steps|
    ensures Inv(states[i])
  {
    if i > 0 {
      InvThroughout(states, steps, i - 1);
      assert Follows(states[i - 1], steps[i - 1], states[i - 1 + 1]);
      StepKeeps(states[i - 1], steps[i - 1], states[i]);
    } else {
      assert NodeOk(START, 0);
    }
  }

  ghost predicate Reachable(s: State) {
    exists states, steps :: IsRun(states, steps) && s == states[|steps|]
  }

  lemma InvAlways(s: State)
    requires Reachable(s)
    ensures Inv(s)
  {
    var states, steps :| IsRun(states, steps) && s == states[|steps|];
    InvThroughout(states, steps, |steps|);
  }

  // Main results.

  // In one node an id never means two actors, not even at different times, and each id is below the node's counter.
  lemma IdsAreNeverReused(s: State, n: nat, a: nat, b: nat)
    requires Reachable(s) && (n, a) in s.joined && (n, b) in s.joined
    ensures n < |s.nodes| && a < |s.actors| && b < |s.actors|
    ensures s.actors[a].id == s.actors[b].id ==> a == b
    ensures 1 <= Number(s.actors[a].id) < s.nodes[n].nextId
  {
    InvAlways(s);
    hide NodesOk, StartingOk, Number, Digits;
  }

  // A node lists its running actors, each once, and no actor runs without being in the list of its own node.
  lemma ListedExactlyAtHome(s: State, n: nat, a: nat)
    requires Reachable(s) && n < |s.nodes|
    ensures a in s.nodes[n].actors <==> Running(s, a) && s.actors[a].node == n
    ensures Distinct(s.nodes[n].actors)
  {
    InvAlways(s);
    hide JoinedOk, StartingOk;
    assert NodeOk(s, n);
  }

  // A name has at most one entry in a node, so lookup finds exactly the actor it leads to.
  lemma LookupIsUnambiguous(s: State, n: nat, e: NameEntry, a: nat)
    requires Inv(s) && n < |s.nodes| && e in s.nodes[n].names && a in s.nodes[n].actors
    ensures NodeOk(s, n) && a < |s.actors|
    ensures Whereis(s, n, e.name) == Some(a) <==> s.actors[a].id == e.id
  {
    assert NodeOk(s, n);
    hide StartingOk, NodesOk, Number, Digits;
    var found := FindActor(s.actors, s.nodes[n].actors, e.id);
    assert (n, a) in s.joined && (found.Some? ==> (n, found.value) in s.joined);
  }

  // Right after register!, whereis in the caller's node gives the running actor there that has the reference's id ...
  lemma RegisterThenWhereis(s: State, who: nat, name: Name, ref: Ref, a: nat)
    requires Inv(s) && InBounds(s) && Enabled(s, Register(who, name, ref)) && a < |s.actors|
    ensures Answers(Apply(s, Register(who, name, ref)), s.actors[who].node, name, a) <==>
      Running(s, a) && s.actors[a].node == s.actors[who].node && s.actors[a].id == ref.id
  {
    var n := s.actors[who].node;
    var t := Apply(s, Register(who, name, ref));
    RegisterNodes(s, who, name, ref);
    assert NodeOk(s, n) && NodeOk(t, n);
    hide StartingOk, NodesOk, Number, Digits;
    var found := FindActor(t.actors, t.nodes[n].actors, ref.id);
    assert found.Some? ==> (n, found.value) in s.joined;
    assert (s.actors[a].node, a) in s.joined;
  }

  ghost predicate Answers(s: State, n: nat, name: Name, a: nat) {
    n < |s.nodes| && NodeOk(s, n) && Whereis(s, n, name) == Some(a)
  }

  lemma ReachableStep(s: State, step: Step, t: State)
    requires Reachable(s) && Follows(s, step, t)
    ensures Reachable(t)
  {
    var states, steps :| IsRun(states, steps) && s == states[|steps|];
    assert IsRun(states + [t], steps + [step]);
    assert t == (states + [t])[|steps + [step]|];
  }

  // Actor 1 leaves node 0 for node 1, and both nodes spawn their third actor.
  lemma TwoActors() returns (s: State)
    ensures Reachable(s)
    ensures s.actors == [Actor(Digits(1), 0, false, None), Actor(Digits(2), 0, false, None)]
    ensures s.nodes == [Node([1, 0], [], 3)]
  {
    hide Digits;
    var none: seq<Step> := [];
    assert IsRun([START], none) && START == [START][|none|];
    var s1 := Apply(START, Ensure);
    assert s1.nodes[0].actors == [0];
    ReachableStep(START, Ensure, s1);
    s := Apply(s1, Spawn(0));
    assert s.nodes[0].actors == [1, 0];
    ReachableStep(s1, Spawn(0), s);
  }

  lemma SecondMoving() returns (s: State)
    ensures Reachable(s)
    ensures s.actors == [Actor(Digits(1), 0, false, None), Actor(Digits(2), 0, false, Some(1))]
    ensures s.nodes == [Node([1, 0], [], 3), NEW_NODE]
  {
    hide Reachable, Digits, Number;
    var s2 := TwoActors();
    s := Apply(s2, Allocate(1));
    ReachableStep(s2, Allocate(1), s);
  }

  lemma SecondMoved() returns (s: State)
    ensures Reachable(s)
    ensures s.actors == [Actor(Digits(1), 0, false, None), Actor(Digits(2), 1, false, None)]
    ensures |s.nodes| == 2 && s.nodes[0].nextId == s.nodes[1].nextId == 3
  {
    NumberOfDigits(2);
    hide Reachable, Digits, Number, Without;
    var s3 := SecondMoving();
    s := Apply(s3, Move(1));
    ReachableStep(s3, Move(1), s);
  }

  lemma TwoNodes() returns (s: State)
    ensures Reachable(s) && |s.actors| == 4 && |s.nodes| == 2
    ensures s.actors[0].node == 0 && s.actors[2].node == 1 && s.actors[3].node == 0
    ensures s.actors[2].id == s.actors[3].id == Digits(3)
    ensures Running(s, 0) && s.actors[0].starting.None? && Running(s, 3)
  {
    hide Digits;
    var s4 := SecondMoved();
    var s5 := Apply(s4, Spawn(1));
    ReachableStep(s4, Spawn(1), s5);
    s := Apply(s5, Spawn(0));
    ReachableStep(s5, Spawn(0), s);
  }

  // ... so a reference to another node's actor is filed by its id alone, and whereis may answer with a stranger: here
  // actor 0 registers actor 2, which lives in node 1, and then finds actor 3, which has the same id in node 0.
  lemma RegisterAcrossNodesFindsAnother(name: Name) returns (s: State, ref: Ref)
    ensures Reachable(s) && InBounds(s) && Enabled(s, Register(0, name, ref)) && ref.target == Some(2)
    ensures Answers(Apply(s, Register(0, name, ref)), 0, name, 3)
  {
    s := TwoNodes();
    ref := Ref(Digits(3), Some(2));
    InvAlways(s);
    RegisterThenWhereis(s, 0, name, ref, 3);
  }

  // While an actor stays, a name that leads to it keeps doing so until the name is registered again in that node.
  lemma NameLastsWhileActorStays(s: State, step: Step, t: State, n: nat, name: Name, a: nat)
    requires Inv(s) && Follows(s, step, t) && n < |s.nodes| && a in s.nodes[n].actors
    requires Answers(s, n, name, a)
    requires !(step.Register? && s.actors[step.who].node == n && step.name == name)
    requires step != Exit(a) && step != Move(a)
    ensures Answers(t, n, name, a)
  {
    StepKeeps(s, step, t);
    assert NodeOk(t, n);
    var e := NameEntry(name, s.actors[a].id);
    assert e in s.nodes[n].names;
    EntryStays(s, step, t, n, name, a);
    hide Inv, Follows, NodeOk;
    LookupIsUnambiguous(t, n, e, a);
  }

  lemma EntryStays(s: State, step: Step, t: State, n: nat, name: Name, a: nat)
    requires Inv(s) && Follows(s, step, t) && n < |s.nodes| && a in s.nodes[n].actors && a < |s.actors|
    requires NameEntry(name, s.actors[a].id) in s.nodes[n].names
    requires !(step.Register? && s.actors[step.who].node == n && step.name == name)
    requires step != Exit(a) && step != Move(a)
    ensures NameEntry(name, s.actors[a].id) in t.nodes[n].names && a in t.nodes[n].actors
    ensures a < |t.actors| && t.actors[a].id == s.actors[a].id
  {
    assert NodeOk(s, n);
    assert (n, a) in s.joined;
    assert step.Exit? && s.actors[step.who].node == n ==> s.actors[step.who].id != s.actors[a].id by {
      assert step.Exit? ==> (s.actors[step.who].node, step.who) in s.joined;
      hide NodesOk, StartingOk, Number, Digits;
    }
    hide NodesOk, JoinedOk, StartingOk, Number, Digits;
  }

  // A name of node n that, if it is there at all, is the one under which its actor a was known.
  ghost predicate Means(s: State, n: nat, name: Name, a: nat) {
    && n < |s.nodes| && a < |s.actors| && (n, a) in s.joined
    && forall e :: e in s.nodes[n].names && e.name == name ==> e.id == s.actors[a].id
  }

  predicate Reregisters(s: State, step: Step, n: nat, name: Name) {
    step.Register? && step.who < |s.actors| && s.actors[step.who].node == n && step.name == name
  }

  lemma MeansStays(s: State, step: Step, t: State, n: nat, name: Name, a: nat)
    requires Inv(s) && Follows(s, step, t) && Means(s, n, name, a) && !Reregisters(s, step, n, name)
    ensures Means(t, n, name, a)
  {
    hide NodesOk, NodeOk, Number, Digits;
  }

  lemma RunStep(states: seq<State>, steps: seq<Step>, i: nat)
    requires IsRun(states, steps) && i < |steps|
    ensures |states| == |steps| + 1 && Follows(states[i], steps[i], states[i + 1])
  {
  }

  lemma {:induction false} MeansThroughout(
    states: seq<State>, steps: seq<Step>, i: nat, j: nat, n: nat, name: Name, a: nat)
    requires IsRun(states, steps) && i <= j <= |steps| && Means(states[i], n, name, a)
    requires forall k :: i <= k < j ==> !Reregisters(states[k], steps[k], n, name)
    ensures Means(states[j], n, name, a)
  {
    if i < j {
      RunStep(states, steps, j - 1);
      hide IsRun, Inv, Means, Reregisters, Follows;
      MeansThroughout(states, steps, i, j - 1, n, name, a);
      InvThroughout(states, steps, j - 1);
      assert !Reregisters(states[j - 1], steps[j - 1], n, name);
      MeansStays(states[j - 1], steps[j - 1], states[j], n, name, a);
    }
  }

  lemma AnswerIsMeant(s: State, n: nat, name: Name, a: nat)
    requires Inv(s) && Answers(s, n, name, a)
    ensures Means(s, n, name, a)
  {
    hide StartingOk, Number, Digits;
  }

  lemma MeantAnswer(s: State, n: nat, name: Name, a: nat, b: nat)
    requires Inv(s) && Means(s, n, name, a) && Answers(s, n, name, b)
    ensures a == b
  {
    assert (n, b) in s.joined;
    hide StartingOk, Number, Digits, NodesOk;
  }

  // A name never comes to lead to somebody else: once whereis has answered a, it answers a or nobody at every later
  // time, whoever exits, moves or is spawned in between, until the name is registered again in that node.
  lemma NamesAreNeverInherited(
    states: seq<State>, steps: seq<Step>, i: nat, j: nat, n: nat, name: Name, a: nat, b: nat)
    requires IsRun(states, steps) && i <= j <= |steps|
    requires forall k :: i <= k < j ==> !Reregisters(states[k], steps[k], n, name)
    requires Answers(states[i], n, name, a) && Answers(states[j], n, name, b)
    ensures a == b
  {
    InvThroughout(states, steps, i);
    InvThroughout(states, steps, j);
    hide IsRun, Reregisters;
    assert Means(states[i], n, name, a) by {
      AnswerIsMeant(states[i], n, name, a);
    }
    MeansThroughout(states, steps, i, j, n, name, a);
    MeantAnswer(states[j], n, name, a, b);
  }

  // ---- what a registered reference can come to mean

  // A stretch of a run in which the name is not registered again in node n.
  ghost predicate Quiet(states: seq<State>, steps: seq<Step>, n: nat, name: Name) {
    && |states| == |steps| + 1
    && forall k :: 0 <= k < |steps| ==>
      Follows(states[k], steps[k], states[k + 1]) && !Reregisters(states[k], steps[k], n, name)
  }

  ghost predicate Later(s: State, t: State, n: nat, name: Name) {
    exists states, steps :: Quiet(states, steps, n, name) && states[0] == s && states[|steps|] == t
  }

  lemma LaterStep(s: State, step: Step, u: State, t: State, n: nat, name: Name)
    requires Follows(s, step, u) && !Reregisters(s, step, n, name) && Later(u, t, n, name)
    ensures Later(s, t, n, name)
  {
    var states, steps :| Quiet(states, steps, n, name) && states[0] == u && states[|steps|] == t;
    hide Follows, Reregisters;
    var longer, more := [s] + states, [step] + steps;
    forall k | 0 <= k < |more|
      ensures Follows(longer[k], more[k], longer[k + 1]) && !Reregisters(longer[k], more[k], n, name)
    {
      if k > 0 {
        assert Follows(states[k - 1], steps[k - 1], states[k - 1 + 1]);
      }
    }
    assert Quiet(longer, more, n, name);
  }

  // The name stands for an id that the counter of node n has passed, and that nobody there has but a.
  ghost predicate LeadsAtMostTo(s: State, n: nat, name: Name, id: Id, a: nat) {
    && n < |s.nodes| && 1 <= Number(id) < s.nodes[n].nextId
    && (forall e :: e in s.nodes[n].names && e.name == name ==> e.id == id)
    && (forall b :: b in s.nodes[n].actors ==> b < |s.actors| && (s.actors[b].id == id ==> b == a))
  }

  // A move goes to a fresh node, whose counter has passed no id yet.
  lemma MovesElsewhere(s: State, who: nat, n: nat)
    requires Inv(s) && Enabled(s, Move(who)) && n < |s.nodes| && s.nodes[n].nextId > 1
    ensures s.actors[who].starting.value != n
  {
    hide NodesOk, JoinedOk, Number, Digits;
  }

  // Node n has got nobody new with the id, and no other entry for the name.
  lemma LeadsAtMostCarries(s: State, t: State, n: nat, name: Name, id: Id, a: nat)
    requires LeadsAtMostTo(s, n, name, id, a) && n < |t.nodes| && t.nodes[n].nextId >= s.nodes[n].nextId
    requires forall e :: e in t.nodes[n].names && e.name == name ==> e in s.nodes[n].names
    requires forall b :: b in t.nodes[n].actors ==> b < |t.actors|
    requires forall b :: b in t.nodes[n].actors && t.actors[b].id == id ==>
      b in s.nodes[n].actors && s.actors[b].id == t.actors[b].id
    ensures LeadsAtMostTo(t, n, name, id, a)
  {
    hide Number;
  }

  lemma NewActorLeads(s: State, m: nat, n: nat, name: Name, id: Id, a: nat)
    requires m < |s.nodes| && LeadsAtMostTo(s, n, name, id, a)
    ensures LeadsAtMostTo(NewActor(s, m), n, name, id, a)
  {
    var t := NewActor(s, m);
    NumberOfDigits(s.nodes[n].nextId);
    assert Digits(s.nodes[n].nextId) != id;
    hide Number, Digits;
    assert forall b :: b in t.nodes[n].actors ==> b in s.nodes[n].actors || (m == n && b == |s.actors|);
    LeadsAtMostCarries(s, t, n, name, id, a);
  }

  lemma MoveLeads(s: State, who: nat, n: nat, name: Name, id: Id, a: nat)
    requires Inv(s) && Enabled(s, Move(who)) && InBounds(s) && LeadsAtMostTo(s, n, name, id, a)
    ensures LeadsAtMostTo(Apply(s, Move(who)), n, name, id, a)
  {
    var t := Apply(s, Move(who));
    MovesElsewhere(s, who, n);
    hide Inv, Number;
    assert forall b :: b in t.nodes[n].actors ==> b in s.nodes[n].actors;
    LeadsAtMostCarries(s, t, n, name, id, a);
  }

  lemma LeadsAtMostStays(s: State, step: Step, t: State, n: nat, name: Name, id: Id, a: nat)
    requires Inv(s) && Follows(s, step, t) && LeadsAtMostTo(s, n, name, id, a) && !Reregisters(s, step, n, name)
    ensures LeadsAtMostTo(t, n, name, id, a)
  {
    match step
    case Ensure => NewActorLeads(s, 0, n, name, id, a);
    case Spawn(who) => NewActorLeads(s, s.actors[who].node, n, name, id, a);
    case Move(who) => MoveLeads(s, who, n, name, id, a);
    case _ =>
      hide Inv, Number;
      assert forall b :: b in t.nodes[n].actors ==> b in s.nodes[n].actors;
      LeadsAtMostCarries(s, t, n, name, id, a);
  }

  lemma {:induction false} LeadsAtMostLater(
    states: seq<State>, steps: seq<Step>, j: nat, n: nat, name: Name, id: Id, a: nat)
    requires Quiet(states, steps, n, name) && j <= |steps| && Inv(states[0])
    requires LeadsAtMostTo(states[0], n, name, id, a)
    ensures Inv(states[j]) && LeadsAtMostTo(states[j], n, name, id, a)
  {
    if j > 0 {
      LeadsAtMostLater(states, steps, j - 1, n, name, id, a);
      assert Follows(states[j - 1], steps[j - 1], states[j - 1 + 1]);
      hide Follows, Inv, LeadsAtMostTo, Reregisters;
      StepKeeps(states[j - 1], steps[j - 1], states[j]);
      LeadsAtMostStays(states[j - 1], steps[j - 1], states[j], n, name, id, a);
    }
  }

  // Actor `who` can spawn in node n, where the name waits for the id k.
  predicate CanSpawn(s: State, who: nat, n: nat, name: Name, k: nat) {
    && Running(s, who) && s.actors[who].starting.None? && s.actors[who].node == n < |s.nodes|
    && s.nodes[n].nextId <= k && FindId(s.nodes[n].names, name) == Some(Digits(k))
  }

  // One more actor in node n, which takes the counter of the node as its id.
  lemma SpawnOne(s: State, who: nat, n: nat, name: Name, k: nat) returns (u: State)
    requires Inv(s) && CanSpawn(s, who, n, name, k)
    ensures Follows(s, Spawn(who), u) && Inv(u)
    ensures |u.actors| == |s.actors| + 1 && n < |s.nodes| && n < |u.nodes| && u.nodes[n].nextId == s.nodes[n].nextId + 1
    ensures s.nodes[n].nextId < k ==> CanSpawn(u, who, n, name, k)
    ensures s.nodes[n].nextId == k ==> Answers(u, n, name, |s.actors|)
  {
    u := Apply(s, Spawn(who));
    StepKeeps(s, Spawn(who), u);
    assert NodeOk(u, n);
    assert u.nodes[n].actors[0] == |s.actors|;
    hide Inv, Digits, Number, NodesOk;
  }

  lemma NothingHappens(s: State, n: nat, name: Name)
    ensures Later(s, s, n, name)
  {
    var none: seq<Step> := [];
    assert Quiet([s], none, n, name) && [s][|none|] == s;
  }

  // Spawning in node n until its counter reaches the id.
  lemma {:induction false} SpawnUpTo(s: State, who: nat, n: nat, name: Name, k: nat) returns (t: State, b: nat)
    requires Inv(s) && CanSpawn(s, who, n, name, k) && n < |s.nodes|
    ensures Later(s, t, n, name) && Answers(t, n, name, b) && b >= |s.actors|
    decreases k - s.nodes[n].nextId
  {
    var u := SpawnOne(s, who, n, name, k);
    assert s.nodes[n].nextId <= k && !Reregisters(s, Spawn(who), n, name);
    hide *;
    if s.nodes[n].nextId == k {
      t, b := u, |s.actors|;
      NothingHappens(u, n, name);
    } else {
      t, b := SpawnUpTo(u, who, n, name, k);
    }
    LaterStep(s, Spawn(who), u, t, n, name);
  }

  predicate LivesIn(s: State, a: nat, n: nat) {
    Running(s, a) && s.actors[a].node == n
  }

  // What register! leaves behind, apart from the rest of the state.
  lemma JustRegistered(s: State, who: nat, name: Name, ref: Ref, a: nat)
    requires Inv(s) && InBounds(s) && Enabled(s, Register(who, name, ref)) && ref.target == Some(a)
    ensures var n, u := s.actors[who].node, Apply(s, Register(who, name, ref));
      && Inv(u) && n < |u.nodes| && FindId(u.nodes[n].names, name) == Some(ref.id)
      && u.actors == s.actors && u.nodes[n].nextId == s.nodes[n].nextId
      && ref.id == Digits(Number(ref.id)) && Number(ref.id) >= 1
      && (forall e :: e in u.nodes[n].names && e.name == name ==> e.id == ref.id)
      && (forall b :: b in u.nodes[n].actors ==> LivesIn(s, b, n))
  {
    var n, u := s.actors[who].node, Apply(s, Register(who, name, ref));
    StepKeeps(s, Register(who, name, ref), u);
    assert NodeOk(s, n) && NodeOk(u, n);
    assert (s.actors[a].node, a) in s.joined;
    hide Number, Digits, StartingOk, NodesOk;
  }

  ghost predicate AnotherMayCome(u: State, n: nat, name: Name, a: nat) {
    exists t, b :: Later(u, t, n, name) && Answers(t, n, name, b) && b != a
  }

  lemma SpawnedStrangerComes(s: State, who: nat, name: Name, ref: Ref, a: nat)
    requires Inv(s) && InBounds(s) && Enabled(s, Register(who, name, ref)) && ref.target == Some(a)
    requires Number(ref.id) >= s.nodes[s.actors[who].node].nextId
    ensures AnotherMayCome(Apply(s, Register(who, name, ref)), s.actors[who].node, name, a)
  {
    JustRegistered(s, who, name, ref, a);
    var n, u := s.actors[who].node, Apply(s, Register(who, name, ref));
    assert a < |u.actors|;
    hide Inv, Number, Digits, FindId, Answers, Later;
    var t, b := SpawnUpTo(u, who, n, name, Number(ref.id));
  }

  lemma StrangerIsThere(s: State, who: nat, name: Name, ref: Ref, a: nat, b: nat)
    requires Inv(s) && InBounds(s) && Enabled(s, Register(who, name, ref)) && ref.target == Some(a)
    requires LivesIn(s, b, s.actors[who].node) && s.actors[b].id == ref.id && b != a
    ensures AnotherMayCome(Apply(s, Register(who, name, ref)), s.actors[who].node, name, a)
  {
    var n, u := s.actors[who].node, Apply(s, Register(who, name, ref));
    RegisterThenWhereis(s, who, name, ref, b);
    hide Inv, Answers, InBounds, Enabled, Apply;
    NothingHappens(u, n, name);
  }

  // The lasting condition: after register! in node n, whereis can come to answer anybody but the target exactly if the
  // counter of the node has not yet passed the target's id, or somebody else there has that id now.
  lemma RegisteredForAnotherIff(s: State, who: nat, name: Name, ref: Ref, a: nat)
    requires Reachable(s) && InBounds(s) && Enabled(s, Register(who, name, ref)) && ref.target == Some(a)
    ensures var n := s.actors[who].node;
      AnotherMayCome(Apply(s, Register(who, name, ref)), n, name, a) <==>
      (Number(ref.id) >= s.nodes[n].nextId
       || exists b: nat :: LivesIn(s, b, n) && s.actors[b].id == ref.id && b != a)
  {
    InvAlways(s);
    hide Inv, Later, Answers, Apply, Reachable;
    var n := s.actors[who].node;
    if Number(ref.id) >= s.nodes[n].nextId {
      SpawnedStrangerComes(s, who, name, ref, a);
    } else if b: nat :| LivesIn(s, b, n) && s.actors[b].id == ref.id && b != a {
      StrangerIsThere(s, who, name, ref, a, b);
    } else {
      NobodyElseComes(s, who, name, ref, a);
    }
  }

  lemma RegisteredLeads(s: State, u: State, n: nat, name: Name, id: Id, a: nat)
    requires n < |s.nodes| && n < |u.nodes| && u.actors == s.actors && u.nodes[n].nextId == s.nodes[n].nextId
    requires 1 <= Number(id) < s.nodes[n].nextId
    requires forall e :: e in u.nodes[n].names && e.name == name ==> e.id == id
    requires forall b :: b in u.nodes[n].actors ==> LivesIn(s, b, n)
    requires forall b: nat :: LivesIn(s, b, n) && s.actors[b].id == id ==> b == a
    ensures LeadsAtMostTo(u, n, name, id, a)
  {
    hide Number;
  }

  lemma NobodyElseComes(s: State, who: nat, name: Name, ref: Ref, a: nat)
    requires Inv(s) && InBounds(s) && Enabled(s, Register(who, name, ref)) && ref.target == Some(a)
    requires Number(ref.id) < s.nodes[s.actors[who].node].nextId
    requires forall b: nat :: LivesIn(s, b, s.actors[who].node) && s.actors[b].id == ref.id ==> b == a
    ensures !AnotherMayCome(Apply(s, Register(who, name, ref)), s.actors[who].node, name, a)
  {
    var n, u := s.actors[who].node, Apply(s, Register(who, name, ref));
    JustRegistered(s, who, name, ref, a);
    RegisteredLeads(s, u, n, name, ref.id, a);
    hide *;
    forall t, b | Later(u, t, n, name) && Answers(t, n, name, b) ensures b == a {
      NeverAnother(u, t, n, name, ref.id, a, b);
    }
  }

  lemma NeverAnother(u: State, t: State, n: nat, name: Name, id: Id, a: nat, b: nat)
    requires Inv(u) && LeadsAtMostTo(u, n, name, id, a) && Later(u, t, n, name) && Answers(t, n, name, b)
    ensures b == a
  {
    var states, steps :| Quiet(states, steps, n, name) && states[0] == u && states[|steps|] == t;
    LeadsAtMostLater(states, steps, |steps|, n, name, id, a);
    hide Inv, Quiet, Number, Digits;
  }

  // In particular a reference to somebody who is, or ever was, in the caller's node never comes to mean another.
  lemma OwnNodeIsSafe(s: State, who: nat, name: Name, ref: Ref, a: nat)
    requires Reachable(s) && InBounds(s) && Enabled(s, Register(who, name, ref)) && ref.target == Some(a)
    requires (s.actors[who].node, a) in s.joined
    ensures !AnotherMayCome(Apply(s, Register(who, name, ref)), s.actors[who].node, name, a)
  {
    InvAlways(s);
    var n := s.actors[who].node;
    forall c: nat | LivesIn(s, c, n) && s.actors[c].id == ref.id ensures c == a {
      assert (n, c) in s.joined;
    }
    RegisteredForAnotherIff(s, who, name, ref, a);
    hide NodesOk, StartingOk, Number, Digits, AnotherMayCome;
  }

  // And the others can: actor 0 registers actor 2, which lives in node 1, and finds nobody at first; the next actor
  // spawned in node 0 gets the same id and takes the name over.
  lemma NobodyThenAStranger(name: Name) returns (s: State, ref: Ref)
    ensures Reachable(s) && InBounds(s) && Enabled(s, Register(0, name, ref)) && ref.target == Some(2)
    ensures forall a :: 0 <= a < |s.actors| ==> !Answers(Apply(s, Register(0, name, ref)), 0, name, a)
    ensures AnotherMayCome(Apply(s, Register(0, name, ref)), 0, name, 2)
  {
    hide Reachable, Digits, Number;
    s := ThirdOfNodeOne();
    ref := Ref(Digits(3), Some(2));
    NumberOfDigits(1);
    NumberOfDigits(2);
    NumberOfDigits(3);
    InvAlways(s);
    hide Inv, Answers, AnotherMayCome;
    forall a | 0 <= a < |s.actors| ensures !Answers(Apply(s, Register(0, name, ref)), 0, name, a) {
      RegisterThenWhereis(s, 0, name, ref, a);
    }
    RegisteredForAnotherIff(s, 0, name, ref, 2);
  }

  lemma ThirdOfNodeOne() returns (s: State)
    ensures Reachable(s) && InBounds(s) && |s.nodes| == 2 && s.nodes[0].nextId == 3
    ensures s.actors == [Actor(Digits(1), 0, false, None), Actor(Digits(2), 1, false, None), Actor(Digits(3), 1, false, None)]
  {
    hide Reachable, Digits, Number;
    var s4 := SecondMoved();
    s := Apply(s4, Spawn(1));
    ReachableStep(s4, Spawn(1), s);
  }

  // Why start-node must move into a system of its own: a move keeps the ids of a node's list apart exactly when nobody
  // there has the mover's id.
  ghost predicate IdsApart(s: State, n: nat) {
    && n < |s.nodes|
    && (forall a :: a in s.nodes[n].actors ==> a < |s.actors|)
    && (forall a, b :: a in s.nodes[n].actors && b in s.nodes[n].actors && s.actors[a].id == s.actors[b].id ==> a == b)
  }

  lemma MoveKeepsIdsApartIff(s: State, a: nat, n: nat)
    requires Inv(s) && Running(s, a) && n < |s.nodes| && s.actors[a].node != n && s.actors[a].node < |s.nodes|
    ensures IdsApart(MoveTo(s, a, n), n) <==>
      forall b :: b in s.nodes[n].actors ==> b < |s.actors| && s.actors[b].id != s.actors[a].id
  {
    var t, list := MoveTo(s, a, n), s.nodes[n].actors;
    MovedTo(s, a, n);
    assert forall b :: b in [a] + list <==> b == a || b in list;
    hide MoveTo;
    ListIdsApart(s, n, a);
    hide Inv;
    forall b | b in list && s.actors[b].id == s.actors[a].id ensures !IdsApart(t, n) {
      assert b in t.nodes[n].actors && a in t.nodes[n].actors;
    }
  }

  lemma MovedTo(s: State, a: nat, n: nat)
    requires Running(s, a) && n < |s.nodes| && s.actors[a].node != n && s.actors[a].node < |s.nodes|
    ensures var t := MoveTo(s, a, n);
      && |t.actors| == |s.actors| && (forall b :: 0 <= b < |s.actors| ==> t.actors[b].id == s.actors[b].id)
      && n < |t.nodes| && t.nodes[n].actors == [a] + s.nodes[n].actors
  {
    hide Without, Number;
  }

  lemma ListIdsApart(s: State, n: nat, a: nat)
    requires Inv(s) && n < |s.nodes| && a < |s.actors| && s.actors[a].node != n
    ensures forall b :: b in s.nodes[n].actors ==> b < |s.actors| && b != a
    ensures IdsApart(s, n)
  {
    assert NodeOk(s, n);
    assert forall b :: b in s.nodes[n].actors ==> (n, b) in s.joined;
    hide NodesOk, StartingOk, Number, Digits;
  }
}
