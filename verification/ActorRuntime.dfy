/** The registry as it runs (icecreme/actor.c): systems whose lists are unlinked and relinked in place.  Each
    critical section is proved to be the operation of Registry it implements. */
module ActorRuntime {
  import opened Util
  import opened Registry
  import Decimal

  // The pointer-to-pointer loop that drops matching entries of a list.
  method UnlinkAll<T(!new)>(s: seq<T>, drop: T -> bool) returns (r: seq<T>)
    ensures r == Without(s, drop)
  {
    r := s;
    var i := 0;
    ghost var seen := 0;
    while i < |r|
      invariant i <= |r| && seen <= |s| && |r| - i == |s| - seen
      invariant r[..i] == Without(s[..seen], drop) && r[i..] == s[seen..]
      decreases |s| - seen
    {
      NextEntry(s, r, i, seen, drop);
      hide Without;
      if drop(r[i]) {
        r := r[..i] + r[i + 1..];
      } else {
        i := i + 1;
      }
      seen := seen + 1;
    }
    assert r[..i] == r && s[..seen] == s;
  }

  // One entry of s, at r[i], is dropped or kept.
  lemma NextEntry<T(!new)>(s: seq<T>, r: seq<T>, i: nat, seen: nat, drop: T -> bool)
    requires i < |r| && seen <= |s| && |r| - i == |s| - seen
    requires r[..i] == Without(s[..seen], drop) && r[i..] == s[seen..]
    ensures drop(r[i]) ==> var t := r[..i] + r[i + 1..];
      t[..i] == Without(s[..seen + 1], drop) && t[i..] == s[seen + 1..]
    ensures !drop(r[i]) ==> r[..i + 1] == Without(s[..seen + 1], drop) && r[i + 1..] == s[seen + 1..]
  {
    assert r[i..][0] == s[seen..][0] && s[..seen + 1][..seen] == s[..seen];
    assert r[i..][1..] == r[i + 1..] && s[seen..][1..] == s[seen + 1..];
    var t := r[..i] + r[i + 1..];
    assert t[..i] == r[..i] && t[i..] == r[i + 1..];
    assert r[..i + 1] == r[..i] + [r[i]];
  }

  lemma MovedInBounds(s: State, a: nat, n: nat)
    requires InBounds(s) && a < |s.actors| && n < |s.nodes|
    ensures s.actors[a].node < |s.nodes| && InBounds(MoveTo(s, a, n))
  {
    hide Number, Without;
  }

  class ActorSystem {
    var actors: seq<nat>
    var names: seq<NameEntry>
    var nextActorId: nat

    ghost function View(): Node
      reads this
    {
      Node(actors, names, nextActorId)
    }

    // alloc_actor_system
    constructor ()
      ensures View() == NEW_NODE
    {
      actors, names, nextActorId := [], [], 1;
    }

    method FindContextById(contexts: seq<Actor>, id: Id) returns (r: Option<nat>)
      requires forall a :: a in actors ==> a < |contexts|
      ensures r == FindActor(contexts, actors, id)
    {
      var i := 0;
      while i < |actors|
        invariant i <= |actors| && (forall a :: a in actors[i..] ==> a in actors)
        invariant FindActor(contexts, actors, id) == FindActor(contexts, actors[i..], id)
      {
        assert actors[i..][1..] == actors[i + 1..] && actors[i] in actors;
        if contexts[actors[i]].id == id {
          return Some(actors[i]);
        }
        i := i + 1;
      }
      return None;
    }

    method FindIdByName(name: Name) returns (r: Option<Id>)
      ensures r == FindId(names, name)
    {
      var i := 0;
      while i < |names|
        invariant i <= |names| && FindId(names, name) == FindId(names[i..], name)
      {
        assert names[i..][1..] == names[i + 1..];
        if names[i].name == name {
          return Some(names[i].id);
        }
        i := i + 1;
      }
      return None;
    }

    method RegisterName(name: Name, id: Id)
      modifies this
      ensures View() == Registered(old(View()), name, id)
    {
      names := UnlinkAll(names, Named(name));
      names := [NameEntry(name, id)] + names;
    }

    method Unlink(a: nat)
      modifies this`actors
      ensures actors == Without(old(actors), Is(a))
    {
      actors := UnlinkAll(actors, Is(a));
    }

    method UnregisterActor(a: nat, id: Id)
      modifies this
      ensures View() == Unregistered(old(View()), a, id)
    {
      Unlink(a);
      names := UnlinkAll(names, ForId(id));
    }
  }

  class Runtime {
    var contexts: seq<Actor>
    var systems: seq<ActorSystem>
    ghost var nodes: seq<Node>
    ghost var joined: set<(nat, nat)>

    ghost predicate Valid()
      reads this, systems
    {
      && |nodes| == |systems|
      && Distinct(systems)
      && (forall n :: 0 <= n < |systems| ==> systems[n].View() == nodes[n])
      && InBounds(View())
    }

    ghost function View(): State
      reads this
    {
      State(contexts, nodes, joined)
    }

    constructor ()
      ensures Valid() && View() == START && fresh(systems)
    {
      var first := new ActorSystem();
      contexts, systems := [], [first];
      nodes, joined := [NEW_NODE], {};
    }

    method NewActorContext(n: nat) returns (a: nat)
      requires Valid() && n < |systems|
      modifies this, systems
      ensures Valid() && systems == old(systems)
      ensures View() == NewActor(old(View()), n) && a == |old(contexts)|
    {
      var sys := systems[n];
      a := |contexts|;
      contexts := contexts + [Actor(Decimal.Digits(sys.nextActorId), n, false, None)];
      sys.nextActorId := sys.nextActorId + 1;
      sys.actors := [a] + sys.actors;
      nodes := nodes[n := sys.View()];
      joined := joined + {(n, a)};
    }

    method AllocActorSystem(a: nat) returns (n: nat)
      requires Valid() && Enabled(View(), Allocate(a))
      modifies this
      ensures Valid() && View() == Apply(old(View()), Allocate(a))
      ensures n == |old(systems)| && fresh(systems[n]) && systems == old(systems) + [systems[n]]
    {
      var sys := new ActorSystem();
      n := |systems|;
      systems := systems + [sys];
      nodes := nodes + [NEW_NODE];
      contexts := contexts[a := contexts[a].(starting := Some(n))];
    }

    method MoveContextToSystem(a: nat, n: nat)
      requires Valid() && a < |contexts| && n < |systems|
      modifies this, systems
      ensures Valid() && systems == old(systems) && View() == MoveTo(old(View()), a, n)
    {
      var from := contexts[a].node;
      MovedInBounds(View(), a, n);
      hide Number, Without, NodeOk, InBounds;
      if from == n {
        return;
      }
      var oldSys, newSys := systems[from], systems[n];
      oldSys.Unlink(a);
      newSys.actors := [a] + newSys.actors;
      contexts := contexts[a := contexts[a].(node := n)];
      var id := Number(contexts[a].id);
      if id >= newSys.nextActorId {
        newSys.nextActorId := id + 1;
      }
      nodes := nodes[from := oldSys.View()][n := newSys.View()];
      joined := joined + {(n, a)};
      forall m | 0 <= m < |systems| ensures systems[m].View() == nodes[m] {
        assert m != from && m != n ==> systems[m] != oldSys && systems[m] != newSys;
      }
      assert View() == MoveTo(old(View()), a, n);
      hide MoveTo;
    }

    method RegisterBang(who: nat, name: Name, ref: Ref)
      requires Valid() && Enabled(View(), Register(who, name, ref))
      modifies this, systems
      ensures Valid() && systems == old(systems) && View() == Apply(old(View()), Register(who, name, ref))
    {
      var sys := systems[contexts[who].node];
      sys.RegisterName(name, ref.id);
      nodes := nodes[contexts[who].node := sys.View()];
    }

    method LookUp(who: nat, name: Name) returns (r: Option<nat>)
      requires Valid() && who < |contexts|
      requires NodeOk(View(), contexts[who].node)
      ensures r == Whereis(View(), contexts[who].node, name)
    {
      var sys := systems[contexts[who].node];
      assert sys.View() == nodes[contexts[who].node];
      var id := sys.FindIdByName(name);
      match id
      case None => r := None;
      case Some(found) => r := sys.FindContextById(contexts, found);
    }

    method ExitActor(a: nat)
      requires Valid() && Enabled(View(), Exit(a))
      modifies this, systems
      ensures Valid() && systems == old(systems) && View() == Apply(old(View()), Exit(a))
    {
      var n := contexts[a].node;
      var sys := systems[n];
      sys.UnregisterActor(a, contexts[a].id);
      contexts := contexts[a := contexts[a].(exited := true)];
      nodes := nodes[n := sys.View()];
    }
  }
}
