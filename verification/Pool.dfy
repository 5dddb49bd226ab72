/** The growable worker pool of an HTTP listener (icecreme/mux.c), one atomic action or critical section a step:
    the shared worker count, the set of listener descriptors, and mux-close! racing with both. */
module Pool {
  import opened Util

  const POOL_DEFAULT_MIN: nat := 8
  const POOL_GROW_HIGH_WATER: nat := 4
  const POOL_SHRINK_IDLE_TICKS: nat := 3

  type Fd = nat
  type Token = nat

  // Where a worker thread is.  Reserved to Abandoning are the stations of a growth attempt that got its reservation;
  // Refused one that did not.  A grown worker that has left its loop has given its reservation back (Leaving) and
  // then removes its listener.
  datatype Station =
    | Serving
    | Refused
    | Reserved
    | Bound(newFd: Fd, newToken: Token)
    | Added(newFd: Fd, newToken: Token)
    | Abandoning
    | Leaving
    | Done

  // `token` names the listener that bind_listener made for the worker, `fd` the number it got.
  datatype Worker = Worker(permanent: bool, fd: Fd, token: Token, idle: nat, at: Station)

  // `toStart` counts the permanent workers that mux-listen! has still to start, the caller's own among them, whose
  // listener is mainFd.  `listeners` is the kernel's side: which listener an open number stands for; `others` are
  // numbers in use for something else; `closed` lists the listeners in the order they were closed.  `stray` tells
  // that a close() hit a number that was not an open listener.
  datatype State = State(
    max: nat, count: int, toStart: nat, mainFd: Fd, mainToken: Token,
    workers: seq<Worker>, fds: seq<Fd>,
    listeners: map<Fd, Token>, others: set<Fd>, nextToken: Token, closed: seq<Token>, stray: bool)

  datatype Step =
    | StartPermanent(fd: Fd)
    | StartMain
    | Tick(w: nat, connections: nat)       // the end of one pass through the serving loop
    | Bind(w: nat, fd: Fd)
    | BindFails(w: nat)
    | AddFd(w: nat)
    | StartThread(w: nat)
    | ThreadFails(w: nat)
    | GiveBack(w: nat)
    | LoopEnds(w: nat)                     // poll() fails
    | RemoveFd(w: nat)
    | CloseAll                             // mux-close!
    | OpenOther(fd: Fd)
    | CloseOther(fd: Fd)

  // ---- the descriptor set

  function IndexOf(fds: seq<Fd>, fd: Fd): (i: nat)
    requires fd in fds
    ensures i < |fds| && fds[i] == fd
  {
    if fds[0] == fd then 0 else 1 + IndexOf(fds[1..], fd)
  }

  // The last entry takes the place of the removed one.
  function SwapRemove(fds: seq<Fd>, fd: Fd): seq<Fd>
    requires fd in fds
  {
    fds[IndexOf(fds, fd) := fds[|fds| - 1]][..|fds| - 1]
  }

  lemma SwapRemoveRemoves(fds: seq<Fd>, fd: Fd)
    requires fd in fds && Distinct(fds)
    ensures Distinct(SwapRemove(fds, fd))
    ensures forall f :: f in SwapRemove(fds, fd) <==> f in fds && f != fd
  {
    var i := IndexOf(fds, fd);
    var r := SwapRemove(fds, fd);
    forall f | f in fds && f != fd ensures f in r {
      var j :| 0 <= j < |fds| && fds[j] == f;
      assert if j == |fds| - 1 then r[i] == f else r[j] == f;
    }
    assert forall j :: 0 <= j < |r| ==> r[j] == if j == i then fds[|fds| - 1] else fds[j];
  }

  function CloseFd(s: State, fd: Fd): State {
    if fd in s.listeners then s.(listeners := s.listeners - {fd}, closed := s.closed + [s.listeners[fd]])
    else s.(others := s.others - {fd}, stray := true)
  }

  // fdset_remove_and_close: only what is still in the set is closed.
  function RemoveAndClose(s: State, fd: Fd): (t: State)
    ensures t.workers == s.workers
  {
    if fd in s.fds then CloseFd(s.(fds := SwapRemove(s.fds, fd)), fd) else s
  }

  function CloseEach(s: State, fds: seq<Fd>): State {
    if fds == [] then s else CloseFd(CloseEach(s, fds[..|fds| - 1]), fds[|fds| - 1])
  }

  // ---- steps

  predicate Is(s: State, w: nat, at: Station) {
    w < |s.workers| && s.workers[w].at == at
  }

  predicate Free(s: State, fd: Fd) {
    fd !in s.listeners && fd !in s.others
  }

  // mux-listen! has returned with the handle that mux-close! takes: the main worker's loop has ended.
  predicate MainDone(s: State) {
    s.toStart == 0
    && exists w :: 0 <= w < |s.workers| && s.workers[w].token == s.mainToken && s.workers[w].at == Done
  }

  predicate Enabled(s: State, step: Step) {
    match step
    case StartPermanent(fd) => s.toStart > 1 && Free(s, fd)
    case StartMain => s.toStart == 1
    case Tick(w, _) => Is(s, w, Serving)
    case Bind(w, fd) => Is(s, w, Reserved) && Free(s, fd)
    case BindFails(w) => Is(s, w, Reserved)
    case AddFd(w) => w < |s.workers| && s.workers[w].at.Bound?
    case StartThread(w) => w < |s.workers| && s.workers[w].at.Added?
    case ThreadFails(w) => w < |s.workers| && s.workers[w].at.Added?
    case GiveBack(w) => Is(s, w, Refused) || Is(s, w, Abandoning)
    case LoopEnds(w) => Is(s, w, Serving)
    case RemoveFd(w) => Is(s, w, Leaving)
    case CloseAll => MainDone(s)
    case OpenOther(fd) => Free(s, fd)
    case CloseOther(fd) => fd in s.others
  }

  function Go(s: State, w: nat, at: Station): State
    requires w < |s.workers|
  {
    s.(workers := s.workers[w := s.workers[w].(at := at)])
  }

  // What a worker does at the end of a pass with this many connections left.
  function AfterPass(s: State, w: nat, connections: nat): State
    requires w < |s.workers|
  {
    var worker := s.workers[w];
    if connections == 0 then
      if !worker.permanent && worker.idle + 1 >= POOL_SHRINK_IDLE_TICKS then
        s.(count := s.count - 1, workers := s.workers[w := worker.(idle := worker.idle + 1, at := Leaving)])
      else
        s.(workers := s.workers[w := worker.(idle := worker.idle + 1)])
    else if connections >= POOL_GROW_HIGH_WATER then
      s.(count := s.count + 1,
         workers := s.workers[w := worker.(idle := 0, at := if s.count + 1 > s.max then Refused else Reserved)])
    else
      s.(workers := s.workers[w := worker.(idle := 0)])
  }

  function Apply(s: State, step: Step): State
    requires Enabled(s, step)
  {
    match step
    case StartPermanent(fd) =>
      s.(toStart := s.toStart - 1, workers := s.workers + [Worker(true, fd, s.nextToken, 0, Serving)],
         fds := s.fds + [fd], listeners := s.listeners[fd := s.nextToken], nextToken := s.nextToken + 1)
    case StartMain => s.(toStart := 0, workers := s.workers + [Worker(true, s.mainFd, s.mainToken, 0, Serving)])
    case Tick(w, connections) => AfterPass(s, w, connections)
    case Bind(w, fd) =>
      Go(s, w, Bound(fd, s.nextToken)).(listeners := s.listeners[fd := s.nextToken], nextToken := s.nextToken + 1)
    case BindFails(w) => Go(s, w, Abandoning)
    case AddFd(w) =>
      var at := s.workers[w].at;
      Go(s, w, Added(at.newFd, at.newToken)).(fds := s.fds + [at.newFd])
    case StartThread(w) =>
      var at := s.workers[w].at;
      var t := Go(s, w, Serving);
      t.(workers := t.workers + [Worker(false, at.newFd, at.newToken, 0, Serving)])
    case ThreadFails(w) => Go(RemoveAndClose(s, s.workers[w].at.newFd), w, Abandoning)
    case GiveBack(w) => Go(s, w, Serving).(count := s.count - 1)
    case LoopEnds(w) =>
      if s.workers[w].permanent then Go(s, w, Done) else Go(s, w, Leaving).(count := s.count - 1)
    case RemoveFd(w) => Go(RemoveAndClose(s, s.workers[w].fd), w, Done)
    case CloseAll => CloseEach(s, s.fds).(fds := [])
    case OpenOther(fd) => s.(others := s.others + {fd})
    case CloseOther(fd) => s.(others := s.others - {fd})
  }

  // mux-listen! with a pool of this size, after its own listener is bound.
  function Floor(max: nat): nat {
    if max < POOL_DEFAULT_MIN then max else POOL_DEFAULT_MIN
  }

  ghost predicate Initial(s: State) {
    && s.max >= 1 && s.count == s.toStart == Floor(s.max)
    && s.workers == [] && s.fds == [s.mainFd] && s.mainToken == 0 && s.nextToken == 1
    && s.listeners == map[s.mainFd := 0] && s.mainFd !in s.others && s.closed == [] && !s.stray
  }

  ghost predicate Follows(s: State, step: Step, t: State) {
    Enabled(s, step) && t == Apply(s, step)
  }

  ghost predicate IsRun(states: seq<State>, steps: seq<Step>) {
    && |states| == |steps| + 1 && Initial(states[0])
    && forall i :: 0 <= i < |steps| ==> Follows(states[i], steps[i], states[i + 1])
  }

  ghost predicate Reachable(s: State) {
    exists states, steps :: IsRun(states, steps) && s == states[|steps|]
  }

  // ---- who holds a place

  // The place of the worker itself and the one its growth attempt has reserved.
  function Held(w: Worker): nat {
    (if w.permanent || !(w.at.Leaving? || w.at.Done?) then 1 else 0)
    + (if w.at.Reserved? || w.at.Bound? || w.at.Added? || w.at.Abandoning? then 1 else 0)
  }

  function RefusedOne(w: Worker): nat {
    if w.at.Refused? then 1 else 0
  }

  function Sum(workers: seq<Worker>, f: Worker -> nat): nat {
    if workers == [] then 0 else Sum(workers[..|workers| - 1], f) + f(workers[|workers| - 1])
  }

  lemma {:induction false} SumUpdate(workers: seq<Worker>, f: Worker -> nat, i: nat, w: Worker)
    requires i < |workers|
    ensures Sum(workers[i := w], f) == Sum(workers, f) - f(workers[i]) + f(w)
  {
    var n := |workers| - 1;
    if i == n {
      assert workers[i := w][..n] == workers[..n];
    } else {
      assert workers[i := w][..n] == workers[..n][i := w];
      SumUpdate(workers[..n], f, i, w);
    }
  }

  lemma SumAppend(workers: seq<Worker>, f: Worker -> nat, w: Worker)
    ensures Sum(workers + [w], f) == Sum(workers, f) + f(w)
  {
    assert (workers + [w])[..|workers|] == workers;
  }

  function Holders(s: State): nat {
    s.toStart + Sum(s.workers, Held)
  }

  ghost predicate CountOk(s: State) {
    && s.count == Holders(s) + Sum(s.workers, RefusedOne)
    && Holders(s) <= s.max
  }

  lemma CountUpdate(s: State, t: State, i: nat, w: Worker)
    requires i < |s.workers| && t.workers == s.workers[i := w] && t.toStart == s.toStart
    ensures Holders(t) == Holders(s) - Held(s.workers[i]) + Held(w)
    ensures Sum(t.workers, RefusedOne) == Sum(s.workers, RefusedOne) - RefusedOne(s.workers[i]) + RefusedOne(w)
  {
    SumUpdate(s.workers, Held, i, w);
    SumUpdate(s.workers, RefusedOne, i, w);
  }

  lemma CountAppend(workers: seq<Worker>, w: Worker)
    ensures Sum(workers + [w], Held) == Sum(workers, Held) + Held(w)
    ensures Sum(workers + [w], RefusedOne) == Sum(workers, RefusedOne) + RefusedOne(w)
  {
    SumAppend(workers, Held, w);
    SumAppend(workers, RefusedOne, w);
  }

  // Closing descriptors leaves all this alone.
  ghost predicate SameCount(s: State, t: State) {
    t.workers == s.workers && t.count == s.count && t.toStart == s.toStart && t.max == s.max
  }

  lemma {:induction false} ClosingKeepsCount(s: State, fds: seq<Fd>)
    ensures SameCount(s, CloseEach(s, fds))
  {
    if fds != [] {
      ClosingKeepsCount(s, fds[..|fds| - 1]);
    }
  }

  lemma RemovingKeepsCount(s: State, fd: Fd)
    ensures SameCount(s, RemoveAndClose(s, fd))
  {
  }

  lemma TickKeepsCount(s: State, w: nat, connections: nat)
    requires CountOk(s) && Is(s, w, Serving)
    ensures CountOk(AfterPass(s, w, connections))
  {
    hide Sum;
    var t := AfterPass(s, w, connections);
    CountUpdate(s, t, w, t.workers[w]);
  }

  // The steps of one worker that touch neither the set nor the list of workers.
  lemma WorkerStepKeepsCount(s: State, step: Step)
    requires CountOk(s) && Enabled(s, step)
    requires step.Bind? || step.BindFails? || step.AddFd? || step.GiveBack? || step.LoopEnds?
    ensures CountOk(Apply(s, step))
  {
    hide Sum;
    var t := Apply(s, step);
    CountUpdate(s, t, step.w, t.workers[step.w]);
  }

  // The steps by which a listener is let go.
  lemma ClosingStepKeepsCount(s: State, step: Step)
    requires CountOk(s) && Enabled(s, step)
    requires step.ThreadFails? || step.RemoveFd? || step.CloseAll?
    ensures CountOk(Apply(s, step))
  {
    hide Sum, SwapRemove, RemoveAndClose, CloseEach;
    var t := Apply(s, step);
    if step.CloseAll? {
      ClosingKeepsCount(s, s.fds);
    } else {
      RemovingKeepsCount(s, if step.ThreadFails? then s.workers[step.w].at.newFd else s.workers[step.w].fd);
      CountUpdate(s, t, step.w, t.workers[step.w]);
    }
  }

  // The steps by which a worker starts.
  lemma StartingStepKeepsCount(s: State, step: Step)
    requires CountOk(s) && Enabled(s, step)
    requires step.StartPermanent? || step.StartMain? || step.StartThread?
    ensures CountOk(Apply(s, step))
  {
    hide Sum;
    var t := Apply(s, step);
    if step.StartThread? {
      var u := Go(s, step.w, Serving);
      CountUpdate(s, u, step.w, u.workers[step.w]);
      CountAppend(u.workers, t.workers[|s.workers|]);
    } else {
      CountAppend(s.workers, t.workers[|s.workers|]);
    }
  }

  lemma StepKeepsCount(s: State, step: Step)
    requires CountOk(s) && Enabled(s, step)
    ensures CountOk(Apply(s, step))
  {
    match step
    case Tick(w, connections) =>
      TickKeepsCount(s, w, connections);
      hide CountOk, AfterPass;
    case OpenOther(_) => hide Sum;
    case CloseOther(_) => hide Sum;
    case ThreadFails(_) =>
      ClosingStepKeepsCount(s, step);
      hide *;
    case RemoveFd(_) =>
      ClosingStepKeepsCount(s, step);
      hide *;
    case CloseAll =>
      ClosingStepKeepsCount(s, step);
      hide *;
    case StartPermanent(_) =>
      StartingStepKeepsCount(s, step);
      hide *;
    case StartMain =>
      StartingStepKeepsCount(s, step);
      hide *;
    case StartThread(_) =>
      StartingStepKeepsCount(s, step);
      hide *;
    case _ =>
      WorkerStepKeepsCount(s, step);
      hide *;
  }

  // ---- descriptors

  // The numbers in the set are open listeners; a listener is open or closed, never both, and closed once.
  ghost predicate ListenersOk(s: State) {
    && !s.stray
    && (forall f, g :: f in s.listeners && g in s.listeners && s.listeners[f] == s.listeners[g] ==> f == g)
    && (forall f :: f in s.listeners ==> f !in s.others && s.listeners[f] < s.nextToken)
    && Distinct(s.closed)
    && (forall t :: t in s.closed ==> t < s.nextToken && t !in s.listeners.Values)
    && (forall t: Token :: t < s.nextToken ==> t in s.closed || t in s.listeners.Values)
  }

  ghost predicate SetOk(s: State) {
    Distinct(s.fds) && forall f :: f in s.fds ==> f in s.listeners
  }

  lemma CloseKeepsListeners(s: State, fd: Fd)
    requires ListenersOk(s) && fd in s.listeners
    ensures ListenersOk(CloseFd(s, fd))
  {
    var t := CloseFd(s, fd);
    assert s.listeners[fd] in s.listeners.Values;
    forall k: Token | k < t.nextToken ensures k in t.closed || k in t.listeners.Values {
      if k in s.listeners.Values && k != s.listeners[fd] {
        var f :| f in s.listeners && s.listeners[f] == k;
        assert f in t.listeners && t.listeners[f] == k;
      } else if k in s.closed {
        assert k in t.closed;
      } else {
        assert t.closed[|s.closed|] == k;
      }
    }
  }

  // A listener is in the set, or still in the hands of the one growth attempt that made it.
  ghost predicate HoldsFd(s: State, i: nat, fd: Fd) {
    i < |s.workers| && s.workers[i].at.Bound? && s.workers[i].at.newFd == fd
  }

  ghost predicate BoundOk(s: State) {
    && (forall i: nat, f: Fd :: HoldsFd(s, i, f) ==>
          f in s.listeners && s.listeners[f] == s.workers[i].at.newToken && f !in s.fds)
    && (forall i: nat, j: nat, f: Fd :: HoldsFd(s, i, f) && HoldsFd(s, j, f) ==> i == j)
    && (forall f :: f in s.listeners ==> f in s.fds || exists i: nat :: HoldsFd(s, i, f))
  }

  // A worker's own listener is in the set under its number until it is closed.
  ghost predicate Owns(s: State, fd: Fd, token: Token) {
    token in s.closed || (fd in s.fds && fd in s.listeners && s.listeners[fd] == token)
  }

  ghost predicate OwnersOk(s: State) {
    && (forall i :: 0 <= i < |s.workers| ==> Owns(s, s.workers[i].fd, s.workers[i].token))
    && (forall i :: 0 <= i < |s.workers| && s.workers[i].at.Added? ==>
          Owns(s, s.workers[i].at.newFd, s.workers[i].at.newToken))
    && (forall i :: 0 <= i < |s.workers| && s.workers[i].at.Done? && !s.workers[i].permanent ==>
          s.workers[i].token in s.closed)
    && (s.toStart > 0 ==> Owns(s, s.mainFd, s.mainToken))
  }

  ghost predicate FdInv(s: State) {
    ListenersOk(s) && SetOk(s) && BoundOk(s) && OwnersOk(s)
  }

  // t is s with the descriptor fd closed, or s itself if it was not in the set.
  ghost predicate WithoutFd(s: State, t: State, fd: Fd) {
    && t.workers == s.workers && t.nextToken == s.nextToken && t.toStart == s.toStart
    && t.mainFd == s.mainFd && t.mainToken == s.mainToken && t.others == s.others
    && (forall f :: f in t.fds <==> f in s.fds && f != fd)
    && (forall f :: f in t.listeners <==> f in s.listeners && (f != fd || fd !in s.fds))
    && (forall f :: f in t.listeners ==> t.listeners[f] == s.listeners[f])
    && (forall k :: k in t.closed <==> k in s.closed || (fd in s.fds && fd in s.listeners && s.listeners[fd] == k))
  }

  // What closing does, apart from the set.
  ghost predicate JustClosed(s: State, t: State, fd: Fd) {
    && fd in s.listeners && SameCount(s, t) && t.nextToken == s.nextToken
    && t.mainFd == s.mainFd && t.mainToken == s.mainToken && t.others == s.others && t.fds == s.fds
    && (forall f :: f in t.listeners <==> f in s.listeners && f != fd)
    && (forall f :: f in t.listeners ==> t.listeners[f] == s.listeners[f])
    && (forall k :: k in t.closed <==> k in s.closed || s.listeners[fd] == k)
  }

  lemma CloseFdEffect(s: State, fd: Fd)
    requires fd in s.listeners
    ensures JustClosed(s, CloseFd(s, fd), fd)
  {
    var t := CloseFd(s, fd);
    assert t.closed[|s.closed|] == s.listeners[fd];
  }

  lemma RemovedIs(s: State, fds: seq<Fd>, t: State, fd: Fd)
    requires SetOk(s) && fd in s.fds && JustClosed(s.(fds := fds), t, fd)
    requires Distinct(fds) && forall f :: f in fds <==> f in s.fds && f != fd
    ensures WithoutFd(s, t, fd) && SetOk(t)
  {
  }

  lemma RemoveEffect(s: State, fd: Fd)
    requires ListenersOk(s) && SetOk(s)
    ensures var t := RemoveAndClose(s, fd);
      WithoutFd(s, t, fd) && ListenersOk(t) && SetOk(t)
  {
    if fd in s.fds {
      var fds := SwapRemove(s.fds, fd);
      var u := s.(fds := fds);
      assert fd in s.listeners;
      assert ListenersOk(u) by {
        hide SwapRemove, SetOk;
      }
      assert RemoveAndClose(s, fd) == CloseFd(u, fd);
      SwapRemoveRemoves(s.fds, fd);
      hide ListenersOk, SwapRemove, CloseFd, Distinct, JustClosed, RemoveAndClose, WithoutFd;
      CloseKeepsListeners(u, fd);
      CloseFdEffect(u, fd);
      RemovedIs(s, fds, CloseFd(u, fd), fd);
    } else {
      hide ListenersOk, SetOk;
    }
  }

  lemma RemoveBound(s: State, t: State, fd: Fd)
    requires SetOk(s) && BoundOk(s) && WithoutFd(s, t, fd)
    ensures BoundOk(t)
  {
    assert forall i: nat, f: Fd :: HoldsFd(s, i, f) <==> HoldsFd(t, i, f);
  }

  lemma RemoveOwners(s: State, t: State, fd: Fd)
    requires OwnersOk(s) && WithoutFd(s, t, fd)
    ensures OwnersOk(t)
    ensures forall k: Token :: Owns(s, fd, k) ==> k in t.closed
  {
    assert forall f: Fd, k: Token :: Owns(s, f, k) ==> Owns(t, f, k);
    assert forall k: Token :: Owns(s, fd, k) ==> k in t.closed;
    assert t.workers == s.workers && t.toStart == s.toStart && t.mainFd == s.mainFd && t.mainToken == s.mainToken;
    assert forall k :: k in s.closed ==> k in t.closed;
    hide WithoutFd, Owns;
  }

  lemma RemoveKeepsFds(s: State, fd: Fd, token: Token)
    requires FdInv(s)
    ensures FdInv(RemoveAndClose(s, fd))
    ensures Owns(s, fd, token) ==> token in RemoveAndClose(s, fd).closed
  {
    var t := RemoveAndClose(s, fd);
    RemoveEffect(s, fd);
    RemoveBound(s, t, fd);
    RemoveOwners(s, t, fd);
    hide ListenersOk, SetOk, BoundOk, OwnersOk, Owns, WithoutFd, RemoveAndClose;
  }

  // A worker that neither takes up nor lets go of a listener.
  lemma MovingKeepsFds(s: State, t: State, w: nat)
    requires FdInv(s) && w < |s.workers| && |t.workers| == |s.workers|
    requires t == s.(workers := t.workers, count := t.count) && t.workers == s.workers[w := t.workers[w]]
    requires var from, to := s.workers[w], t.workers[w];
      && to.permanent == from.permanent && to.fd == from.fd && to.token == from.token
      && !from.at.Bound? && !to.at.Bound? && !to.at.Added?
      && (to.at.Done? && !to.permanent ==> to.token in s.closed)
    ensures FdInv(t)
  {
    assert ListenersOk(t) && SetOk(t);
    hide ListenersOk, SetOk;
    assert forall i: nat, f: Fd :: HoldsFd(s, i, f) <==> HoldsFd(t, i, f);
    assert forall f: Fd, k: Token :: Owns(s, f, k) <==> Owns(t, f, k);
    hide Owns;
  }

  // A new listener under a free number.
  function Listening(s: State, fd: Fd): State {
    s.(listeners := s.listeners[fd := s.nextToken], nextToken := s.nextToken + 1)
  }

  lemma ListeningKeeps(s: State, fd: Fd)
    requires ListenersOk(s) && Free(s, fd)
    ensures ListenersOk(Listening(s, fd))
  {
    var t := Listening(s, fd);
    assert t.listeners[fd] == s.nextToken;
    forall k: Token | k < t.nextToken ensures k in t.closed || k in t.listeners.Values {
      if k in s.listeners.Values {
        var f :| f in s.listeners && s.listeners[f] == k;
        assert f in t.listeners && t.listeners[f] == k;
      }
    }
  }

  lemma StartPermanentBound(s: State, fd: Fd)
    requires ListenersOk(s) && BoundOk(s) && Enabled(s, StartPermanent(fd))
    ensures BoundOk(Apply(s, StartPermanent(fd)))
  {
    var t := Apply(s, StartPermanent(fd));
    hide ListenersOk;
    assert t.fds[|s.fds|] == fd && forall f :: f in t.fds <==> f in s.fds || f == fd;
    assert forall f :: f in t.listeners <==> f in s.listeners || f == fd;
    assert forall f :: f in s.listeners ==> t.listeners[f] == s.listeners[f];
    assert forall i: nat, f: Fd :: HoldsFd(s, i, f) <==> HoldsFd(t, i, f);
    assert forall i: nat :: i < |s.workers| ==> t.workers[i] == s.workers[i];
    hide Apply;
  }

  lemma StartPermanentOwners(s: State, fd: Fd)
    requires SetOk(s) && OwnersOk(s) && Enabled(s, StartPermanent(fd))
    ensures OwnersOk(Apply(s, StartPermanent(fd)))
  {
    var t := Apply(s, StartPermanent(fd));
    assert t.fds[|s.fds|] == fd;
    assert forall f: Fd, k: Token :: Owns(s, f, k) ==> Owns(t, f, k);
    assert Owns(t, fd, s.nextToken);
    assert |t.workers| == |s.workers| + 1 && forall i :: 0 <= i < |s.workers| ==> t.workers[i] == s.workers[i];
    assert t.workers[|s.workers|] == Worker(true, fd, s.nextToken, 0, Serving);
    assert t.mainFd == s.mainFd && t.mainToken == s.mainToken && s.toStart > 0;
    assert forall k :: k in s.closed ==> k in t.closed;
    hide Owns, Apply, Enabled, SetOk;
  }

  lemma StartPermanentKeepsFds(s: State, fd: Fd)
    requires FdInv(s) && Enabled(s, StartPermanent(fd))
    ensures FdInv(Apply(s, StartPermanent(fd)))
  {
    StartPermanentBound(s, fd);
    StartPermanentOwners(s, fd);
    ListeningKeeps(s, fd);
    hide BoundOk, OwnersOk;
    var t := Apply(s, StartPermanent(fd));
    assert ListenersOk(t) by {
      hide SetOk;
    }
    hide ListenersOk;
    assert fd !in s.fds;
  }

  lemma StartMainKeepsFds(s: State)
    requires FdInv(s) && Enabled(s, StartMain)
    ensures FdInv(Apply(s, StartMain))
  {
    var t := Apply(s, StartMain);
    assert ListenersOk(t) && SetOk(t);
    hide ListenersOk, SetOk;
    assert forall i: nat, f: Fd :: HoldsFd(s, i, f) <==> HoldsFd(t, i, f);
    assert forall f: Fd, k: Token :: Owns(s, f, k) <==> Owns(t, f, k);
    hide Owns;
  }

  lemma BindBound(s: State, w: nat, fd: Fd)
    requires FdInv(s) && Enabled(s, Bind(w, fd))
    ensures BoundOk(Apply(s, Bind(w, fd)))
  {
    var t := Apply(s, Bind(w, fd));
    assert fd !in s.fds;
    hide OwnersOk, ListenersOk, SetOk;
    assert forall i: nat, f: Fd :: HoldsFd(t, i, f) <==> HoldsFd(s, i, f) || (i == w && f == fd);
  }

  lemma BindOwners(s: State, w: nat, fd: Fd)
    requires FdInv(s) && Enabled(s, Bind(w, fd))
    ensures OwnersOk(Apply(s, Bind(w, fd)))
  {
    var t := Apply(s, Bind(w, fd));
    hide BoundOk, ListenersOk, SetOk;
    assert forall f: Fd, k: Token :: Owns(s, f, k) ==> Owns(t, f, k);
    hide Owns;
  }

  lemma BindKeepsFds(s: State, w: nat, fd: Fd)
    requires FdInv(s) && Enabled(s, Bind(w, fd))
    ensures FdInv(Apply(s, Bind(w, fd)))
  {
    ListeningKeeps(s, fd);
    assert fd !in s.fds;
    BindBound(s, w, fd);
    BindOwners(s, w, fd);
    hide BoundOk, OwnersOk;
  }

  lemma AddFdBound(s: State, w: nat)
    requires BoundOk(s) && Enabled(s, AddFd(w))
    ensures BoundOk(Apply(s, AddFd(w)))
  {
    var t := Apply(s, AddFd(w));
    var fd := s.workers[w].at.newFd;
    assert HoldsFd(s, w, fd);
    assert t.fds[|s.fds|] == fd && forall f :: f in t.fds <==> f in s.fds || f == fd;
    assert forall i: nat, f: Fd :: HoldsFd(t, i, f) <==> HoldsFd(s, i, f) && i != w;
    assert forall i: nat :: i < |s.workers| && i != w ==> t.workers[i] == s.workers[i];
    assert t.listeners == s.listeners && |t.workers| == |s.workers|;
    hide Apply;
  }

  lemma AddFdOwners(s: State, w: nat)
    requires BoundOk(s) && OwnersOk(s) && Enabled(s, AddFd(w))
    ensures OwnersOk(Apply(s, AddFd(w)))
  {
    var t := Apply(s, AddFd(w));
    var fd := s.workers[w].at.newFd;
    assert HoldsFd(s, w, fd) && t.fds[|s.fds|] == fd;
    hide BoundOk;
    assert forall f: Fd, k: Token :: Owns(s, f, k) ==> Owns(t, f, k);
    assert Owns(t, fd, s.workers[w].at.newToken);
    hide Owns;
  }

  lemma AddFdKeepsFds(s: State, w: nat)
    requires FdInv(s) && Enabled(s, AddFd(w))
    ensures FdInv(Apply(s, AddFd(w)))
  {
    AddFdBound(s, w);
    AddFdOwners(s, w);
    assert HoldsFd(s, w, s.workers[w].at.newFd);
    assert s.workers[w].at.newFd in s.listeners && s.workers[w].at.newFd !in s.fds;
    hide BoundOk, OwnersOk;
  }

  lemma StartThreadBound(s: State, w: nat)
    requires BoundOk(s) && Enabled(s, StartThread(w))
    ensures BoundOk(Apply(s, StartThread(w)))
  {
    var t := Apply(s, StartThread(w));
    assert forall i: nat, f: Fd :: HoldsFd(s, i, f) <==> HoldsFd(t, i, f);
  }

  lemma StartThreadOwners(s: State, w: nat)
    requires OwnersOk(s) && Enabled(s, StartThread(w))
    ensures OwnersOk(Apply(s, StartThread(w)))
  {
    var t := Apply(s, StartThread(w));
    assert forall f: Fd, k: Token :: Owns(s, f, k) <==> Owns(t, f, k);
    hide Owns;
  }

  lemma StartThreadKeepsFds(s: State, w: nat)
    requires FdInv(s) && Enabled(s, StartThread(w))
    ensures FdInv(Apply(s, StartThread(w)))
  {
    StartThreadBound(s, w);
    StartThreadOwners(s, w);
    hide BoundOk, OwnersOk;
  }

  lemma OthersKeepFds(s: State, step: Step)
    requires FdInv(s) && Enabled(s, step) && (step.OpenOther? || step.CloseOther?)
    ensures FdInv(Apply(s, step))
  {
    var t := Apply(s, step);
    assert ListenersOk(t) && SetOk(t);
    hide ListenersOk, SetOk;
    assert forall i: nat, f: Fd :: HoldsFd(s, i, f) <==> HoldsFd(t, i, f);
    assert forall f: Fd, k: Token :: Owns(s, f, k) <==> Owns(t, f, k);
    hide Owns;
  }

  // mux-close! closes exactly the listeners in the set, each once.
  ghost predicate AllClosed(s: State, t: State, fds: seq<Fd>) {
    && SameCount(s, t) && t.nextToken == s.nextToken && t.others == s.others
    && t.fds == s.fds && t.mainFd == s.mainFd && t.mainToken == s.mainToken
    && (forall f :: f in t.listeners <==> f in s.listeners && f !in fds)
    && (forall f :: f in t.listeners ==> t.listeners[f] == s.listeners[f])
    && (forall k :: k in s.closed ==> k in t.closed)
    && (forall f :: f in fds && f in s.listeners ==> s.listeners[f] in t.closed)
  }

  lemma CloseOneMore(s: State, u: State, front: seq<Fd>, last: Fd)
    requires AllClosed(s, u, front) && last in s.listeners && last !in front
    ensures last in u.listeners && AllClosed(s, CloseFd(u, last), front + [last])
  {
    var t := CloseFd(u, last);
    assert t.closed[|u.closed|] == s.listeners[last];
    assert forall k :: k in u.closed ==> k in t.closed;
    assert forall f :: f in front + [last] <==> f in front || f == last;
  }

  lemma {:induction false} CloseEachEffect(s: State, fds: seq<Fd>)
    requires ListenersOk(s) && Distinct(fds) && forall f :: f in fds ==> f in s.listeners
    ensures ListenersOk(CloseEach(s, fds)) && AllClosed(s, CloseEach(s, fds), fds)
  {
    if fds != [] {
      var front, last := fds[..|fds| - 1], fds[|fds| - 1];
      var u := CloseEach(s, front);
      assert CloseEach(s, fds) == CloseFd(u, last);
      assert fds == front + [last] && last !in front && Distinct(front);
      hide ListenersOk, AllClosed, CloseEach, CloseFd, Distinct;
      CloseEachEffect(s, front);
      CloseOneMore(s, u, front, last);
      CloseKeepsListeners(u, last);
    }
  }

  lemma ClosingEndsOwnership(s: State, u: State, fd: Fd, token: Token)
    requires AllClosed(s, u, s.fds) && Owns(s, fd, token)
    ensures token in u.closed
  {
  }

  lemma CloseAllBound(s: State, u: State)
    requires FdInv(s) && AllClosed(s, u, s.fds)
    ensures BoundOk(u.(fds := []))
  {
    hide ListenersOk, SetOk, OwnersOk;
    var t := u.(fds := []);
    assert forall i: nat, f: Fd :: HoldsFd(s, i, f) <==> HoldsFd(t, i, f);
  }

  lemma CloseAllOwners(s: State, u: State)
    requires FdInv(s) && AllClosed(s, u, s.fds)
    ensures OwnersOk(u.(fds := []))
  {
    hide ListenersOk, SetOk, BoundOk;
    var t := u.(fds := []);
    forall f: Fd, k: Token | Owns(s, f, k) ensures Owns(t, f, k) {
      ClosingEndsOwnership(s, u, f, k);
    }
    hide Owns;
  }

  lemma CloseAllKeepsFds(s: State)
    requires FdInv(s)
    ensures FdInv(CloseEach(s, s.fds).(fds := []))
  {
    var u := CloseEach(s, s.fds);
    CloseEachEffect(s, s.fds);
    CloseAllBound(s, u);
    CloseAllOwners(s, u);
    hide OwnersOk, BoundOk, CloseEach, AllClosed;
  }

  lemma StepKeepsFds(s: State, step: Step)
    requires FdInv(s) && Enabled(s, step)
    ensures FdInv(Apply(s, step))
  {
    hide FdInv, CloseEach, RemoveAndClose;
    match step
    case StartPermanent(fd) => StartPermanentKeepsFds(s, fd);
    case StartMain => StartMainKeepsFds(s);
    case Bind(w, fd) => BindKeepsFds(s, w, fd);
    case AddFd(w) => AddFdKeepsFds(s, w);
    case StartThread(w) => StartThreadKeepsFds(s, w);
    case ThreadFails(w) =>
      RemoveKeepsFds(s, s.workers[w].at.newFd, 0);
      var u := RemoveAndClose(s, s.workers[w].at.newFd);
      MovingKeepsFds(u, Apply(s, step), w);
    case RemoveFd(w) =>
      RemoveKeepsFds(s, s.workers[w].fd, s.workers[w].token);
      var u := RemoveAndClose(s, s.workers[w].fd);
      WorkerOwns(s, w);
      MovingKeepsFds(u, Apply(s, step), w);
    case CloseAll => CloseAllKeepsFds(s);
    case OpenOther(_) => OthersKeepFds(s, step);
    case CloseOther(_) => OthersKeepFds(s, step);
    case _ => MovingKeepsFds(s, Apply(s, step), step.w);
  }

  lemma WorkerOwns(s: State, w: nat)
    requires FdInv(s) && w < |s.workers|
    ensures Owns(s, s.workers[w].fd, s.workers[w].token)
  {
  }

  // ---- whole runs

  // The floor of permanent workers: started, or still to be started, and never gone.
  ghost predicate FloorOk(s: State) {
    && s.toStart + Sum(s.workers, Permanent) == Floor(s.max)
    && (forall i :: 0 <= i < |s.workers| && s.workers[i].permanent ==> !s.workers[i].at.Leaving?)
  }

  function Permanent(w: Worker): nat {
    if w.permanent then 1 else 0
  }

  lemma StartingKeepsFloor(s: State, step: Step)
    requires FloorOk(s) && Enabled(s, step) && (step.StartPermanent? || step.StartMain? || step.StartThread?)
    ensures FloorOk(Apply(s, step))
  {
    hide Sum;
    var t := Apply(s, step);
    if step.StartThread? {
      var u := Go(s, step.w, Serving);
      SumUpdate(s.workers, Permanent, step.w, u.workers[step.w]);
      SumAppend(u.workers, Permanent, t.workers[|s.workers|]);
    } else {
      SumAppend(s.workers, Permanent, t.workers[|s.workers|]);
    }
  }

  lemma ClosingKeepsFloor(s: State, step: Step)
    requires FloorOk(s) && Enabled(s, step) && (step.ThreadFails? || step.RemoveFd? || step.CloseAll?)
    ensures FloorOk(Apply(s, step))
  {
    hide Sum, SwapRemove, RemoveAndClose, CloseEach;
    var t := Apply(s, step);
    if step.CloseAll? {
      ClosingKeepsCount(s, s.fds);
    } else {
      RemovingKeepsCount(s, if step.ThreadFails? then s.workers[step.w].at.newFd else s.workers[step.w].fd);
      SumUpdate(s.workers, Permanent, step.w, t.workers[step.w]);
    }
  }

  lemma WorkerStepKeepsFloor(s: State, step: Step)
    requires FloorOk(s) && Enabled(s, step)
    requires step.Bind? || step.BindFails? || step.AddFd? || step.GiveBack? || step.LoopEnds?
    ensures FloorOk(Apply(s, step))
  {
    hide Sum;
    SumUpdate(s.workers, Permanent, step.w, Apply(s, step).workers[step.w]);
  }

  lemma TickKeepsFloor(s: State, w: nat, connections: nat)
    requires FloorOk(s) && Is(s, w, Serving)
    ensures FloorOk(AfterPass(s, w, connections))
  {
    hide Sum;
    SumUpdate(s.workers, Permanent, w, AfterPass(s, w, connections).workers[w]);
  }

  lemma StepKeepsFloor(s: State, step: Step)
    requires FloorOk(s) && Enabled(s, step)
    ensures FloorOk(Apply(s, step))
  {
    if step.StartPermanent? || step.StartMain? || step.StartThread? {
      StartingKeepsFloor(s, step);
      hide *;
    } else if step.ThreadFails? || step.RemoveFd? || step.CloseAll? {
      ClosingKeepsFloor(s, step);
      hide *;
    } else if step.Tick? {
      TickKeepsFloor(s, step.w, step.connections);
      hide FloorOk, AfterPass;
    } else if step.OpenOther? || step.CloseOther? {
      hide Sum;
    } else {
      WorkerStepKeepsFloor(s, step);
      hide *;
    }
  }

  lemma {:induction false} InvThroughout(states: seq<State>, steps: seq<Step>, i: nat)
    requires IsRun(states, steps) && i <= |steps|
    ensures CountOk(states[i]) && FdInv(states[i]) && FloorOk(states[i])
  {
    if i > 0 {
      InvThroughout(states, steps, i - 1);
      assert Follows(states[i - 1], steps[i - 1], states[i - 1 + 1]);
      StepKeepsCount(states[i - 1], steps[i - 1]);
      StepKeepsFds(states[i - 1], steps[i - 1]);
      StepKeepsFloor(states[i - 1], steps[i - 1]);
    } else {
      var s := states[0];
      assert s.listeners[s.mainFd] == 0;
    }
  }

  lemma InvAlways(s: State)
    requires Reachable(s)
    ensures CountOk(s) && FdInv(s) && FloorOk(s)
  {
    var states, steps :| IsRun(states, steps) && s == states[|steps|];
    InvThroughout(states, steps, |steps|);
  }

  // Main results, in every state that any interleaving can reach.

  // The counter counts the places held and the refused attempts still to be undone; places never exceed the maximum.
  lemma PlacesStayWithinMax(s: State)
    requires Reachable(s)
    ensures s.count == Holders(s) + Sum(s.workers, RefusedOne)
    ensures Holders(s) <= s.max
  {
    InvAlways(s);
  }

  // No listener is closed twice or lost: each one ever made is either open under one number or closed once, and no
  // close() hits anything else.
  lemma EachListenerClosedAtMostOnce(s: State, token: Token)
    requires Reachable(s) && token < s.nextToken
    ensures Distinct(s.closed) && !s.stray
    ensures token in s.closed <==> !exists f :: f in s.listeners && s.listeners[f] == token
  {
    InvAlways(s);
    if token in s.listeners.Values {
      var f :| f in s.listeners && s.listeners[f] == token;
    }
  }

  // A grown worker that has left closes its own listener unless that is closed already; then it closes nothing, or,
  // if its number has come back into the set, a listener that is not its own.
  lemma LeavingClosesOwnListener(s: State, w: nat)
    requires Reachable(s) && Enabled(s, RemoveFd(w))
    ensures var own := s.workers[w].token;
      var t := Apply(s, RemoveFd(w));
      && own in t.closed
      && (t.closed == s.closed + [own] <==> own !in s.closed)
      && (t.closed == s.closed <==> own in s.closed && s.workers[w].fd !in s.fds)
  {
    InvAlways(s);
    RemoveKeepsFds(s, s.workers[w].fd, s.workers[w].token);
    WorkerOwns(s, w);
    if s.workers[w].fd in s.fds {
      var t := Apply(s, RemoveFd(w));
      assert t.closed[|s.closed|] == s.listeners[s.workers[w].fd];
      assert s.listeners[s.workers[w].fd] in s.listeners.Values;
    }
  }

  // mux-close! leaves nothing open exactly when no growth attempt is between its bind and its fdset_add.
  lemma MuxCloseClosesAllIff(s: State)
    requires Reachable(s) && Enabled(s, CloseAll)
    ensures Apply(s, CloseAll).listeners == map[] <==> !exists i: nat, f: Fd :: HoldsFd(s, i, f)
    ensures forall f :: f in Apply(s, CloseAll).listeners <==> exists i: nat :: HoldsFd(s, i, f)
  {
    InvAlways(s);
    CloseEachEffect(s, s.fds);
    hide CloseEach;
    var t := Apply(s, CloseAll);
    if i: nat, f: Fd :| HoldsFd(s, i, f) {
      assert f in t.listeners;
    } else {
      assert forall f :: f !in t.listeners;
    }
  }

  // ---- places given back, counted by what happens to the counter

  // The step is one that worker i takes.
  predicate TakenBy(step: Step, i: nat) {
    match step
    case StartPermanent(_) => false
    case StartMain => false
    case CloseAll => false
    case OpenOther(_) => false
    case CloseOther(_) => false
    case _ => step.w == i
  }

  function Lowered(s: State, t: State): nat {
    if t.count < s.count then s.count - t.count else 0
  }

  function Raised(s: State, t: State): nat {
    if t.count > s.count then t.count - s.count else 0
  }

  // By how much worker i has lowered the counter in the first n steps, and by how much it has raised it.
  function LoweredBy(states: seq<State>, steps: seq<Step>, i: nat, n: nat): nat
    requires |states| == |steps| + 1 && n <= |steps|
  {
    if n == 0 then 0
    else LoweredBy(states, steps, i, n - 1)
         + (if TakenBy(steps[n - 1], i) then Lowered(states[n - 1], states[n]) else 0)
  }

  function RaisedBy(states: seq<State>, steps: seq<Step>, i: nat, n: nat): nat
    requires |states| == |steps| + 1 && n <= |steps|
  {
    if n == 0 then 0
    else RaisedBy(states, steps, i, n - 1)
         + (if TakenBy(steps[n - 1], i) then Raised(states[n - 1], states[n]) else 0)
  }

  // Worker i, serving and not in a growth attempt, lowers the counter by one: it gives back its own place.
  predicate GivesBackOwn(s: State, step: Step, t: State, i: nat) {
    TakenBy(step, i) && Is(s, i, Serving) && t.count == s.count - 1
  }

  function OwnGivenBack(states: seq<State>, steps: seq<Step>, i: nat, n: nat): nat
    requires |states| == |steps| + 1 && n <= |steps|
  {
    if n == 0 then 0
    else OwnGivenBack(states, steps, i, n - 1)
         + (if GivesBackOwn(states[n - 1], steps[n - 1], states[n], i) then 1 else 0)
  }

  // How many growth attempts of worker i have been undone, and how many have handed their place to a new worker.
  function Undone(steps: seq<Step>, i: nat, n: nat): nat
    requires n <= |steps|
  {
    if n == 0 then 0 else Undone(steps, i, n - 1) + (if steps[n - 1] == GiveBack(i) then 1 else 0)
  }

  function HandedOn(steps: seq<Step>, i: nat, n: nat): nat
    requires n <= |steps|
  {
    if n == 0 then 0 else HandedOn(steps, i, n - 1) + (if steps[n - 1] == StartThread(i) then 1 else 0)
  }

  predicate Gone(s: State, i: nat) {
    i < |s.workers| && !s.workers[i].permanent && (s.workers[i].at.Leaving? || s.workers[i].at.Done?)
  }

  predicate Attempting(s: State, i: nat) {
    i < |s.workers| && s.workers[i].at != Serving && !s.workers[i].at.Leaving? && !s.workers[i].at.Done?
  }

  function One(b: bool): nat {
    if b then 1 else 0
  }

  // What one step does to the books of worker i.
  ghost predicate BooksStep(s: State, step: Step, t: State, i: nat) {
    && (TakenBy(step, i) ==>
          && Lowered(s, t) == One(GivesBackOwn(s, step, t, i)) + One(step == GiveBack(i))
          && Raised(s, t) + One(Attempting(s, i))
             == One(step == GiveBack(i)) + One(step == StartThread(i)) + One(Attempting(t, i)))
    && (!TakenBy(step, i) ==> Attempting(t, i) == Attempting(s, i) && step != GiveBack(i) && step != StartThread(i))
    && One(Gone(t, i)) == One(Gone(s, i)) + One(GivesBackOwn(s, step, t, i))
  }

  // Closing listeners moves no worker and no count.
  lemma ClosingBooks(s: State, step: Step, i: nat)
    requires Enabled(s, step) && (step.ThreadFails? || step.RemoveFd? || step.CloseAll?)
    ensures BooksStep(s, step, Apply(s, step), i)
  {
    if step.CloseAll? {
      ClosingKeepsCount(s, s.fds);
    } else {
      RemovingKeepsCount(s, if step.ThreadFails? then s.workers[step.w].at.newFd else s.workers[step.w].fd);
    }
    hide CloseEach, RemoveAndClose;
  }

  // Starting workers, and what happens outside the pool.
  lemma StartingBooks(s: State, step: Step, i: nat)
    requires Enabled(s, step)
    requires step.StartPermanent? || step.StartMain? || step.OpenOther? || step.CloseOther?
    ensures BooksStep(s, step, Apply(s, step), i)
  {
    var t := Apply(s, step);
    assert t.count == s.count && s.workers <= t.workers;
    assert |t.workers| > |s.workers| ==> t.workers[|s.workers|].at == Serving;
    hide Apply, Enabled;
  }

  // A growth attempt goes on or is undone.
  lemma AttemptBooks(s: State, step: Step, i: nat)
    requires Enabled(s, step) && (step.Bind? || step.BindFails? || step.AddFd? || step.GiveBack?)
    ensures BooksStep(s, step, Apply(s, step), i)
  {
  }

  // A worker hands a place on to the one it starts, or leaves its loop.
  lemma EndBooks(s: State, step: Step, i: nat)
    requires Enabled(s, step) && (step.StartThread? || step.LoopEnds?)
    ensures BooksStep(s, step, Apply(s, step), i)
  {
  }

  lemma StepBooks(s: State, step: Step, i: nat)
    requires Enabled(s, step)
    ensures BooksStep(s, step, Apply(s, step), i)
  {
    if step.ThreadFails? || step.RemoveFd? || step.CloseAll? {
      ClosingBooks(s, step, i);
    } else if step.Tick? {
      TickBooks(s, step.w, step.connections, i);
    } else if step.StartPermanent? || step.StartMain? || step.OpenOther? || step.CloseOther? {
      StartingBooks(s, step, i);
    } else if step.StartThread? || step.LoopEnds? {
      EndBooks(s, step, i);
    } else {
      AttemptBooks(s, step, i);
    }
    hide BooksStep, Enabled;
  }

  lemma TickBooks(s: State, w: nat, connections: nat, i: nat)
    requires Is(s, w, Serving)
    ensures BooksStep(s, Tick(w, connections), AfterPass(s, w, connections), i)
  {
  }

  // Over every run a grown worker gives its own place back exactly once, when it leaves, and a permanent one never.
  // Whatever else a worker takes off the counter undoes a growth attempt of its own; every place it has reserved is
  // undone, handed on to the worker it started, or still in the attempt.
  lemma {:induction false} EachGrownWorkerReleasesOnce(states: seq<State>, steps: seq<Step>, i: nat, n: nat)
    requires IsRun(states, steps) && n <= |steps|
    ensures OwnGivenBack(states, steps, i, n) == One(Gone(states[n], i))
    ensures LoweredBy(states, steps, i, n) == OwnGivenBack(states, steps, i, n) + Undone(steps, i, n)
    ensures RaisedBy(states, steps, i, n)
            == Undone(steps, i, n) + HandedOn(steps, i, n) + One(Attempting(states[n], i))
  {
    if n > 0 {
      EachGrownWorkerReleasesOnce(states, steps, i, n - 1);
      assert Follows(states[n - 1], steps[n - 1], states[n - 1 + 1]);
      StepBooks(states[n - 1], steps[n - 1], i);
      hide IsRun, Follows, Lowered, Raised, GivesBackOwn, Attempting, Gone, TakenBy;
    }
  }

  // Nothing but the steps of workers moves the counter.
  lemma OnlyWorkersMoveTheCounter(s: State, step: Step)
    requires Enabled(s, step) && Apply(s, step).count != s.count
    ensures exists i: nat :: TakenBy(step, i)
  {
    if step.CloseAll? {
      ClosingKeepsCount(s, s.fds);
    }
    hide CloseEach, RemoveAndClose;
    assert TakenBy(step, step.w);
  }

  // min(max, 8) permanent workers, started or still to be started; whatever one of them takes off the counter only
  // undoes a growth attempt of its own, so its own place stays with it.
  lemma FloorNeverShrinks(states: seq<State>, steps: seq<Step>, i: nat, n: nat)
    requires IsRun(states, steps) && n <= |steps|
    ensures states[n].toStart + Sum(states[n].workers, Permanent) == if states[n].max < 8 then states[n].max else 8
    ensures i < |states[n].workers| && states[n].workers[i].permanent ==>
      OwnGivenBack(states, steps, i, n) == 0 && LoweredBy(states, steps, i, n) == Undone(steps, i, n)
  {
    InvThroughout(states, steps, n);
    EachGrownWorkerReleasesOnce(states, steps, i, n);
    hide IsRun, Sum, LoweredBy, OwnGivenBack, Undone, CountOk, FdInv;
  }

  // ---- when a worker leaves its loop, and when it tries to grow the pool

  // The connections that worker i had left at the end of each pass through its loop.
  function Passes(steps: seq<Step>, i: nat): seq<nat> {
    if steps == [] then []
    else
      var last := steps[|steps| - 1];
      Passes(steps[..|steps| - 1], i) + (if last.Tick? && last.w == i then [last.connections] else [])
  }

  predicate LastThreeIdle(passes: seq<nat>) {
    |passes| >= 3 && passes[|passes| - 3..] == [0, 0, 0]
  }

  function IdleAtEnd(passes: seq<nat>): (k: nat)
    ensures k <= |passes|
  {
    if passes == [] || passes[|passes| - 1] != 0 then 0 else 1 + IdleAtEnd(passes[..|passes| - 1])
  }

  lemma ThreeIdle(passes: seq<nat>)
    ensures IdleAtEnd(passes) >= 3 <==> LastThreeIdle(passes)
  {
    var n := |passes|;
    if n >= 3 {
      var two, one := passes[..n - 1], passes[..n - 2];
      assert two[..n - 2] == one && two[n - 2] == passes[n - 2] && one[n - 3] == passes[n - 3];
      assert IdleAtEnd(two) == if passes[n - 2] != 0 then 0 else 1 + IdleAtEnd(one);
      assert IdleAtEnd(one) >= 1 <==> passes[n - 3] == 0;
    }
  }

  lemma OneMorePass(passes: seq<nat>, connections: nat)
    ensures IdleAtEnd(passes + [connections]) == if connections == 0 then IdleAtEnd(passes) + 1 else 0
  {
    assert (passes + [connections])[..|passes|] == passes;
  }

  // Worker i has made these passes: its idle count is the number of idle ones at the end, and it is still in its loop,
  // or a growth attempt of it, unless the loop has ended or, for a grown worker, the last three were idle.
  ghost predicate PassesOk(s: State, i: nat, passes: seq<nat>, ended: bool) {
    if i >= |s.workers| then passes == [] && !ended
    else
      && s.workers[i].idle == IdleAtEnd(passes)
      && (s.workers[i].at.Leaving? || s.workers[i].at.Done? <==>
          ended || (!s.workers[i].permanent && IdleAtEnd(passes) >= 3))
      && !(ended && !s.workers[i].permanent && IdleAtEnd(passes) >= 3)
  }

  // A step that is not a pass of worker i, and does not end its loop.
  ghost predicate LoopGoesOn(s: State, t: State, i: nat) {
    && |s.workers| <= |t.workers|
    && (i < |s.workers| ==>
          && t.workers[i].idle == s.workers[i].idle && t.workers[i].permanent == s.workers[i].permanent
          && (t.workers[i].at.Leaving? || t.workers[i].at.Done? <==> s.workers[i].at.Leaving? || s.workers[i].at.Done?))
    && (|s.workers| <= i < |t.workers| ==> t.workers[i].idle == 0 && t.workers[i].at == Serving)
  }

  lemma ClosingGoesOn(s: State, step: Step, i: nat)
    requires Enabled(s, step) && (step.ThreadFails? || step.RemoveFd? || step.CloseAll?)
    ensures LoopGoesOn(s, Apply(s, step), i)
  {
    if step.CloseAll? {
      ClosingKeepsCount(s, s.fds);
    } else {
      RemovingKeepsCount(s, if step.ThreadFails? then s.workers[step.w].at.newFd else s.workers[step.w].fd);
    }
    hide CloseEach, RemoveAndClose;
  }

  lemma OthersGoOn(s: State, step: Step, i: nat)
    requires Enabled(s, step) && !(step.ThreadFails? || step.RemoveFd? || step.CloseAll?)
    requires !(step.Tick? && step.w == i) && step != LoopEnds(i)
    ensures LoopGoesOn(s, Apply(s, step), i)
  {
  }

  lemma PassKeeps(s: State, step: Step, i: nat, passes: seq<nat>, ended: bool)
    requires PassesOk(s, i, passes, ended) && Enabled(s, step) && (step == LoopEnds(i) || (step.Tick? && step.w == i))
    ensures PassesOk(Apply(s, step), i, if step.Tick? then passes + [step.connections] else passes,
                     ended || step == LoopEnds(i))
  {
    if step.Tick? {
      OneMorePass(passes, step.connections);
    }
    hide IdleAtEnd;
  }

  predicate LoopEnded(steps: seq<Step>, i: nat) {
    LoopEnds(i) in steps
  }

  lemma {:induction false} PassesAlways(states: seq<State>, steps: seq<Step>, i: nat, n: nat)
    requires IsRun(states, steps) && n <= |steps|
    ensures PassesOk(states[n], i, Passes(steps[..n], i), LoopEnded(steps[..n], i))
  {
    if n > 0 {
      PassesAlways(states, steps, i, n - 1);
      var s, step := states[n - 1], steps[n - 1];
      assert Follows(s, step, states[n - 1 + 1]);
      assert steps[..n][..n - 1] == steps[..n - 1] && steps[..n] == steps[..n - 1] + [step];
      assert Passes(steps[..n - 1], i) + [] == Passes(steps[..n - 1], i);
      hide IsRun, Enabled, Apply, PassesOk, LoopGoesOn;
      if step == LoopEnds(i) || (step.Tick? && step.w == i) {
        PassKeeps(s, step, i, Passes(steps[..n - 1], i), LoopEnded(steps[..n - 1], i));
      } else {
        if step.ThreadFails? || step.RemoveFd? || step.CloseAll? {
          ClosingGoesOn(s, step, i);
        } else {
          OthersGoOn(s, step, i);
        }
        GoesOnKeeps(s, states[n], i, Passes(steps[..n - 1], i), LoopEnded(steps[..n - 1], i));
      }
    }
  }

  lemma GoesOnKeeps(s: State, t: State, i: nat, passes: seq<nat>, ended: bool)
    requires PassesOk(s, i, passes, ended) && LoopGoesOn(s, t, i)
    ensures PassesOk(t, i, passes, ended)
  {
    assert IdleAtEnd([]) == 0;
    hide IdleAtEnd;
  }

  // Over every run: a grown worker has left exactly if its loop was ended from outside or its last three passes were
  // idle; a permanent one exactly if its loop was ended.
  lemma LeavesAfterThreeIdlePasses(states: seq<State>, steps: seq<Step>, i: nat, n: nat)
    requires IsRun(states, steps) && n <= |steps| && i < |states[n].workers|
    ensures var w := states[n].workers[i];
      w.at.Leaving? || w.at.Done? <==>
      LoopEnded(steps[..n], i) || (!w.permanent && LastThreeIdle(Passes(steps[..n], i)))
  {
    PassesAlways(states, steps, i, n);
    ThreeIdle(Passes(steps[..n], i));
    hide IsRun, Passes, IdleAtEnd, LastThreeIdle, LoopEnded;
  }

  // Worker i starts a growth attempt exactly on a pass with four connections or more, and is refused exactly if the
  // counter has reached the maximum by then.
  lemma GrowsOnBusyPass(states: seq<State>, steps: seq<Step>, i: nat, n: nat)
    requires IsRun(states, steps) && n < |steps|
    ensures !Attempting(states[n], i) && Attempting(states[n + 1], i) <==>
      steps[n].Tick? && steps[n].w == i && steps[n].connections >= 4
    ensures steps[n].Tick? && steps[n].w == i && steps[n].connections >= 4 ==>
      states[n + 1].workers[i].at == if states[n].count >= states[n].max then Refused else Reserved
  {
    assert Follows(states[n], steps[n], states[n + 1]);
    hide IsRun;
    BusyStep(states[n], steps[n], i);
  }

  lemma BusyStep(s: State, step: Step, i: nat)
    requires Enabled(s, step)
    ensures !Attempting(s, i) && Attempting(Apply(s, step), i) <==>
      step.Tick? && step.w == i && step.connections >= 4
    ensures step.Tick? && step.w == i && step.connections >= 4 ==>
      Apply(s, step).workers[i].at == if s.count >= s.max then Refused else Reserved
  {
    if !step.Tick? {
      StepBooks(s, step, i);
      hide Apply, Enabled, Attempting;
    }
  }

  // ---- a run in which a leaving worker closes the listener of another

  lemma ReachableStep(s: State, step: Step) returns (t: State)
    requires Reachable(s) && Enabled(s, step)
    ensures t == Apply(s, step) && Reachable(t)
  {
    t := Apply(s, step);
    var states, steps :| IsRun(states, steps) && s == states[|steps|];
    assert IsRun(states + [t], steps + [step]);
    assert t == (states + [t])[|steps + [step]|];
  }

  // A pool of at most nine workers, k of the eight permanent ones running.
  ghost predicate Starting(s: State, k: nat) {
    && s.max == 9 && s.count == 8 && s.toStart == 8 - k && |s.workers| == k
    && (forall i :: 0 <= i < k ==> s.workers[i].permanent && s.workers[i].at == Serving)
    && (forall f :: f in s.listeners ==> f < 100) && s.others == {} && s.stray == false
    && (k == 8 ==> s.workers[7].token == s.mainToken)
  }

  lemma {:induction false} StartingUp(k: nat) returns (s: State)
    requires k <= 8
    ensures Reachable(s) && Starting(s, k) && (k < 8 ==> forall f :: f in s.listeners ==> f <= k)
  {
    if k == 0 {
      s := State(9, 8, 8, 0, 0, [], [0], map[0 := 0], {}, 1, [], false);
      var none: seq<Step> := [];
      assert IsRun([s], none) && s == [s][|none|];
    } else {
      var before := StartingUp(k - 1);
      s := ReachableStep(before, if k < 8 then StartPermanent(k) else StartMain);
    }
  }

  // Worker w, serving, makes a new worker whose listener gets the number fd.
  lemma Grow(s: State, w: nat, fd: Fd) returns (t: State)
    requires Reachable(s) && Is(s, w, Serving) && s.count < s.max && Free(s, fd)
    ensures Reachable(t) && t.count == s.count + 1 && |t.workers| == |s.workers| + 1 && t.toStart == s.toStart
    ensures t.workers[..|s.workers|] == s.workers[w := s.workers[w].(idle := 0)] && t.max == s.max
    ensures t.workers[|s.workers|] == Worker(false, fd, s.nextToken, 0, Serving)
    ensures t.fds == s.fds + [fd] && t.listeners == s.listeners[fd := s.nextToken] && t.closed == s.closed
    ensures t.others == s.others && t.mainToken == s.mainToken
  {
    t := ReachableStep(s, Tick(w, 4));
    t := ReachableStep(t, Bind(w, fd));
    t := ReachableStep(t, AddFd(w));
    t := ReachableStep(t, StartThread(w));
  }

  // Worker 8 has been made, the main worker's loop has ended, and mux-close! has closed all nine listeners.
  lemma GrownThenClosed() returns (s: State)
    ensures Reachable(s) && |s.workers| == 9 && s.count == 9 && s.max == 9
    ensures Is(s, 1, Serving) && s.workers[8] == Worker(false, 100, s.workers[8].token, 0, Serving)
    ensures s.fds == [] && Free(s, 100)
  {
    hide IsRun, CloseEach, RemoveAndClose, SwapRemove;
    var s0 := StartingUp(8);
    var s1 := Grow(s0, 0, 100);
    assert s1.workers[1] == s1.workers[..8][1] && s1.workers[7] == s1.workers[..8][7];
    var s2 := ReachableStep(s1, LoopEnds(7));
    InvAlways(s2);
    CloseEachEffect(s2, s2.fds);
    assert s2.fds[|s0.fds|] == 100;
    hide FdInv, CountOk, FloorOk;
    assert s2.workers[7].at == Done && s2.workers[7].token == s2.mainToken;
    s := ReachableStep(s2, CloseAll);
  }

  // Worker 8 has left its loop after mux-close!, but not yet removed its listener 100, when worker 9 starts on a new
  // listener that the kernel numbered 100 again: worker 8 then closes that one under the feet of worker 9.
  lemma NumberReuseClosesAnotherListener() returns (s: State)
    ensures Reachable(s) && Enabled(s, RemoveFd(8)) && |s.workers| == 10 && s.workers[9].at == Serving
    ensures s.workers[9].token !in s.closed && s.workers[9].token in Apply(s, RemoveFd(8)).closed
  {
    hide IsRun, CloseEach, SwapRemove;
    var s2 := GrownThenClosed();
    var s3 := ReachableStep(s2, LoopEnds(8));
    s := Grow(s3, 1, 100);
    assert s.workers[8] == s.workers[..9][8];
    assert s.fds == [100] && s.workers[9].token == s.listeners[100];
    hide Reachable;
    ClosesListener(s, 8, 100);
  }

  // Whoever removes a number in the set closes the open listener under it.
  lemma ClosesListener(s: State, w: nat, fd: Fd)
    requires Reachable(s) && Enabled(s, RemoveFd(w)) && s.workers[w].fd == fd && fd in s.fds && fd in s.listeners
    ensures s.listeners[fd] !in s.closed && s.listeners[fd] in Apply(s, RemoveFd(w)).closed
  {
    InvAlways(s);
    assert s.listeners[fd] in s.listeners.Values;
    hide CountOk, FloorOk, BoundOk, OwnersOk, SetOk, SwapRemove;
    CloseFdEffect(s.(fds := SwapRemove(s.fds, fd)), fd);
  }

  // Worker 0 has bound listener 100 for a new worker, but not yet added it to the set, when mux-close! comes: the
  // listener stays open, and the new worker will serve on it.
  lemma MuxCloseMissesAListener() returns (s: State)
    ensures Reachable(s) && Enabled(s, CloseAll) && Enabled(s, AddFd(0))
    ensures 100 in Apply(s, CloseAll).listeners
  {
    s := BoundWhenClosed();
    hide Reachable;
    assert Enabled(s, CloseAll) by {
      assert s.workers[7].token == s.mainToken && s.workers[7].at == Done;
    }
    assert HoldsFd(s, 0, 100);
    hide CloseEach;
    MuxCloseClosesAllIff(s);
  }

  lemma BoundWhenClosed() returns (s: State)
    ensures Reachable(s) && |s.workers| == 8 && s.toStart == 0
    ensures s.workers[0].at.Bound? && s.workers[0].at.newFd == 100
    ensures s.workers[7].token == s.mainToken && s.workers[7].at == Done
  {
    hide Reachable, CloseEach, RemoveAndClose, SwapRemove;
    var s0 := StartingUp(8);
    var s1 := ReachableStep(s0, Tick(0, 4));
    assert Is(s1, 0, Reserved) && s1.workers[7] == s0.workers[7] && Free(s1, 100);
    var s2 := ReachableStep(s1, Bind(0, 100));
    assert s2.workers[7] == s0.workers[7];
    s := ReachableStep(s2, LoopEnds(7));
  }
}
