/** The bounded mailbox of an actor (icecreme/actor.c): a ring buffer under a mutex with two condition
    variables.  A thread holds the mutex from its loop test to the end of its call or to its wait, so each such
    section is one step of the protocol; everything else may interleave. */
module Mailbox {
  import opened Util

  const MAILBOX_CAP: nat := 64

  type Tid = nat
  type Value = int

  // ---- the ring buffer

  datatype Ring = Ring(buf: seq<Value>, head: nat, tail: nat, count: nat)

  predicate RingOk(r: Ring) {
    && |r.buf| == MAILBOX_CAP && r.head < MAILBOX_CAP && r.count <= MAILBOX_CAP
    && r.tail == (r.head + r.count) % MAILBOX_CAP
  }

  // The messages in the mailbox, oldest first.
  function Contents(r: Ring): seq<Value>
    requires RingOk(r)
  {
    seq(r.count, i requires 0 <= i => r.buf[(r.head + i) % MAILBOX_CAP])
  }

  function Enqueue(r: Ring, v: Value): Ring
    requires r.tail < |r.buf|
  {
    Ring(r.buf[r.tail := v], r.head, (r.tail + 1) % MAILBOX_CAP, r.count + 1)
  }

  function Dequeue(r: Ring): (Value, Ring)
    requires r.head < |r.buf| && r.count > 0
  {
    (r.buf[r.head], Ring(r.buf, (r.head + 1) % MAILBOX_CAP, r.tail, r.count - 1))
  }

  lemma SlotsApart(head: nat, i: nat, j: nat)
    requires i < j < MAILBOX_CAP
    ensures (head + i) % MAILBOX_CAP != (head + j) % MAILBOX_CAP
  {
  }

  lemma EnqueueAppends(r: Ring, v: Value)
    requires RingOk(r) && r.count < MAILBOX_CAP
    ensures RingOk(Enqueue(r, v)) && Contents(Enqueue(r, v)) == Contents(r) + [v]
  {
    var s := Enqueue(r, v);
    forall i | 0 <= i < s.count ensures Contents(s)[i] == (Contents(r) + [v])[i] {
      if i < r.count {
        SlotsApart(r.head, i, r.count);
      }
    }
  }

  lemma DequeueTakesOldest(r: Ring)
    requires RingOk(r) && r.count > 0
    ensures var (v, s) := Dequeue(r);
      RingOk(s) && Contents(r) == [v] + Contents(s)
  {
    var (v, s) := Dequeue(r);
    forall i | 0 <= i < r.count ensures Contents(r)[i] == ([v] + Contents(s))[i] {
      if i > 0 {
        assert (s.head + (i - 1)) % MAILBOX_CAP == (r.head + i) % MAILBOX_CAP;
      }
    }
  }

  // ---- threads

  // Entering: called, not yet past the mutex.  Waiting: asleep in pthread_cond_wait.  Woken: signalled (or woken
  // spuriously) but not yet running again.
  datatype Sender = NotSending | SendEntering(v: Value) | SendWaiting(v: Value) | SendWoken(v: Value)
  datatype Receiver = NotReceiving | ReceiveEntering | ReceiveWaiting | ReceiveWoken

  // `accepted` records every message put into the buffer, with its sender; `delivered` every message handed to a
  // receiver; `sent` the completed mailbox_send calls of each thread.
  datatype State = State(
    ring: Ring, senders: map<Tid, Sender>, receivers: map<Tid, Receiver>,
    accepted: seq<(Tid, Value)>, delivered: seq<Value>, sent: map<Tid, seq<Value>>)

  // `wake` is the set of threads that pthread_cond_signal unblocks.
  datatype Step =
    | CallSend(t: Tid, v: Value)
    | RunSend(t: Tid, wake: set<Tid>)
    | CallReceive(t: Tid)
    | RunReceive(t: Tid, wake: set<Tid>)
    | SpuriousSender(t: Tid)
    | SpuriousReceiver(t: Tid)

  function WaitingSenders(s: State): set<Tid> {
    set t | t in s.senders && s.senders[t].SendWaiting?
  }

  function WokenSenders(s: State): set<Tid> {
    set t | t in s.senders && s.senders[t].SendWoken?
  }

  function WaitingReceivers(s: State): set<Tid> {
    set t | t in s.receivers && s.receivers[t].ReceiveWaiting?
  }

  function WokenReceivers(s: State): set<Tid> {
    set t | t in s.receivers && s.receivers[t].ReceiveWoken?
  }

  // pthread_cond_signal unblocks at least one of the waiting threads, if there are any.
  predicate Signals(waiting: set<Tid>, wake: set<Tid>) {
    wake <= waiting && (waiting != {} ==> wake != {})
  }

  predicate CanRunSend(s: State, t: Tid) {
    t in s.senders && (s.senders[t].SendEntering? || s.senders[t].SendWoken?)
  }

  predicate CanRunReceive(s: State, t: Tid) {
    t in s.receivers && (s.receivers[t].ReceiveEntering? || s.receivers[t].ReceiveWoken?)
  }

  ghost predicate Enabled(s: State, step: Step) {
    match step
    case CallSend(t, _) => t in s.senders && s.senders[t].NotSending?
    case RunSend(t, wake) =>
      CanRunSend(s, t) && (if s.ring.count >= MAILBOX_CAP then wake == {} else Signals(WaitingReceivers(s), wake))
    case CallReceive(t) => t in s.receivers && s.receivers[t].NotReceiving?
    case RunReceive(t, wake) =>
      CanRunReceive(s, t) && (if s.ring.count == 0 then wake == {} else Signals(WaitingSenders(s), wake))
    case SpuriousSender(t) => t in WaitingSenders(s)
    case SpuriousReceiver(t) => t in WaitingReceivers(s)
  }

  function WakeSenders(senders: map<Tid, Sender>, wake: set<Tid>): map<Tid, Sender> {
    map t | t in senders :: if t in wake && senders[t].SendWaiting? then SendWoken(senders[t].v) else senders[t]
  }

  function WakeReceivers(receivers: map<Tid, Receiver>, wake: set<Tid>): map<Tid, Receiver> {
    map t | t in receivers :: if t in wake && receivers[t].ReceiveWaiting? then ReceiveWoken else receivers[t]
  }

  function SentBy(s: State, t: Tid): seq<Value> {
    if t in s.sent then s.sent[t] else []
  }

  function Apply(s: State, step: Step): State
    requires Enabled(s, step) && RingOk(s.ring)
  {
    match step
    case CallSend(t, v) => s.(senders := s.senders[t := SendEntering(v)])
    case RunSend(t, wake) =>
      var v := s.senders[t].v;
      if s.ring.count >= MAILBOX_CAP then s.(senders := s.senders[t := SendWaiting(v)])
      else
        s.(ring := Enqueue(s.ring, v),
           senders := s.senders[t := NotSending],
           receivers := WakeReceivers(s.receivers, wake),
           accepted := s.accepted + [(t, v)],
           sent := s.sent[t := SentBy(s, t) + [v]])
    case CallReceive(t) => s.(receivers := s.receivers[t := ReceiveEntering])
    case RunReceive(t, wake) =>
      if s.ring.count == 0 then s.(receivers := s.receivers[t := ReceiveWaiting])
      else
        var (v, ring) := Dequeue(s.ring);
        s.(ring := ring,
           receivers := s.receivers[t := NotReceiving],
           senders := WakeSenders(s.senders, wake),
           delivered := s.delivered + [v])
    case SpuriousSender(t) => s.(senders := s.senders[t := SendWoken(s.senders[t].v)])
    case SpuriousReceiver(t) => s.(receivers := s.receivers[t := ReceiveWoken])
  }

  // ---- the invariant

  function Payloads(msgs: seq<(Tid, Value)>): seq<Value> {
    seq(|msgs|, i requires 0 <= i < |msgs| => msgs[i].1)
  }

  // What one sender contributed.
  function From(msgs: seq<(Tid, Value)>, t: Tid): seq<Value> {
    if msgs == [] then []
    else From(msgs[..|msgs| - 1], t) + (if msgs[|msgs| - 1].0 == t then [msgs[|msgs| - 1].1] else [])
  }

  // No lost wakeup: while a sender sleeps, every free slot is matched by a sender that has been woken for it; while
  // a receiver sleeps, every message is matched by a woken receiver.
  ghost predicate SendersNotForgotten(s: State) {
    WaitingSenders(s) != {} ==> MAILBOX_CAP - s.ring.count <= |WokenSenders(s)|
  }

  ghost predicate ReceiversNotForgotten(s: State) {
    WaitingReceivers(s) != {} ==> s.ring.count <= |WokenReceivers(s)|
  }

  // The books balance: what was accepted is what was delivered and what is still in the buffer.
  ghost predicate MessagesOk(s: State) {
    && RingOk(s.ring)
    && Payloads(s.accepted) == s.delivered + Contents(s.ring)
    && (forall t :: From(s.accepted, t) == SentBy(s, t))
  }

  ghost predicate Inv(s: State) {
    && MessagesOk(s)
    && SendersNotForgotten(s)
    && ReceiversNotForgotten(s)
  }

  // ---- every step keeps it

  lemma AcceptedByOne(msgs: seq<(Tid, Value)>, m: (Tid, Value))
    ensures Payloads(msgs + [m]) == Payloads(msgs) + [m.1]
    ensures forall t :: From(msgs + [m], t) == From(msgs, t) + (if m.0 == t then [m.1] else [])
  {
    assert (msgs + [m])[..|msgs|] == msgs;
  }

  lemma SendKeepsMessages(s: State, t: Tid, wake: set<Tid>)
    requires MessagesOk(s) && Enabled(s, RunSend(t, wake)) && s.ring.count < MAILBOX_CAP
    ensures MessagesOk(Apply(s, RunSend(t, wake)))
  {
    var v := s.senders[t].v;
    EnqueueAppends(s.ring, v);
    AcceptedByOne(s.accepted, (t, v));
    hide RingOk, Enqueue, Contents, Payloads, From, WakeReceivers, Signals, WaitingReceivers;
    var s' := Apply(s, RunSend(t, wake));
    assert s'.accepted == s.accepted + [(t, v)] && s'.ring == Enqueue(s.ring, v) && s'.delivered == s.delivered;
    assert s.delivered + (Contents(s.ring) + [v]) == s.delivered + Contents(s.ring) + [v];
    forall u ensures From(s'.accepted, u) == SentBy(s', u) {
      assert From(s.accepted, u) == SentBy(s, u);
    }
  }

  lemma ReceiveKeepsMessages(s: State, t: Tid, wake: set<Tid>)
    requires MessagesOk(s) && Enabled(s, RunReceive(t, wake)) && s.ring.count > 0
    ensures MessagesOk(Apply(s, RunReceive(t, wake)))
  {
    DequeueTakesOldest(s.ring);
    hide Dequeue, Contents, Payloads, From, WakeSenders, Signals, WaitingSenders;
    var (v, ring) := Dequeue(s.ring);
    assert s.delivered + ([v] + Contents(ring)) == s.delivered + [v] + Contents(ring);
  }

  lemma StepKeepsMessages(s: State, step: Step)
    requires MessagesOk(s) && Enabled(s, step)
    ensures MessagesOk(Apply(s, step))
  {
    if step.RunSend? && s.ring.count < MAILBOX_CAP {
      SendKeepsMessages(s, step.t, step.wake);
    } else if step.RunReceive? && s.ring.count > 0 {
      ReceiveKeepsMessages(s, step.t, step.wake);
    } else {
      hide RingOk, Contents, Payloads, From, WakeSenders, WakeReceivers, Signals;
    }
  }

  // Only these few facts about the two thread tables matter to the wakeup argument.
  lemma SenderSets(s: State, step: Step)
    requires RingOk(s.ring) && Enabled(s, step)
    ensures var s' := Apply(s, step);
      && (step.RunSend? ==> WokenSenders(s') == WokenSenders(s) - {step.t})
      && (step.RunSend? && s.ring.count < MAILBOX_CAP ==> WaitingSenders(s') == WaitingSenders(s))
      && (step.RunReceive? && s.ring.count > 0 ==>
            WokenSenders(s') == WokenSenders(s) + step.wake && WokenSenders(s) !! step.wake
            && WaitingSenders(s') == WaitingSenders(s) - step.wake)
      && (step.SpuriousSender? ==>
            WokenSenders(s') == WokenSenders(s) + {step.t} && WaitingSenders(s') == WaitingSenders(s) - {step.t})
      && (step.CallSend? || step.CallReceive? || step.SpuriousReceiver? || (step.RunReceive? && s.ring.count == 0) ==>
            WokenSenders(s') == WokenSenders(s) && WaitingSenders(s') == WaitingSenders(s))
  {
    hide RingOk, Enqueue, Dequeue;
  }

  lemma ReceiverSets(s: State, step: Step)
    requires RingOk(s.ring) && Enabled(s, step)
    ensures var s' := Apply(s, step);
      && (step.RunReceive? ==> WokenReceivers(s') == WokenReceivers(s) - {step.t})
      && (step.RunReceive? && s.ring.count > 0 ==> WaitingReceivers(s') == WaitingReceivers(s))
      && (step.RunSend? && s.ring.count < MAILBOX_CAP ==>
            WokenReceivers(s') == WokenReceivers(s) + step.wake && WokenReceivers(s) !! step.wake
            && WaitingReceivers(s') == WaitingReceivers(s) - step.wake)
      && (step.SpuriousReceiver? ==>
            WokenReceivers(s') == WokenReceivers(s) + {step.t}
            && WaitingReceivers(s') == WaitingReceivers(s) - {step.t})
      && (step.CallSend? || step.CallReceive? || step.SpuriousSender?
          || (step.RunSend? && s.ring.count == MAILBOX_CAP) ==>
            WokenReceivers(s') == WokenReceivers(s) && WaitingReceivers(s') == WaitingReceivers(s))
  {
    hide RingOk, Enqueue, Dequeue;
  }

  // Counting the woken.
  lemma OneLess(woken: set<Tid>, t: Tid)
    ensures |woken - {t}| >= |woken| - 1
    ensures t in woken ==> |woken - {t}| == |woken| - 1
    ensures t !in woken ==> woken - {t} == woken
  {
  }

  lemma SomeMore(woken: set<Tid>, wake: set<Tid>)
    requires woken !! wake
    ensures |woken + wake| == |woken| + |wake|
    ensures wake != {} ==> |wake| >= 1
  {
  }

  lemma StepKeepsSenders(s: State, step: Step)
    requires Inv(s) && Enabled(s, step)
    ensures SendersNotForgotten(Apply(s, step))
  {
    hide WokenSenders, WaitingSenders, Contents, Payloads, From, WakeSenders, WakeReceivers;
    SenderSets(s, step);
    var woken := WokenSenders(s);
    if step.RunSend? {
      OneLess(woken, step.t);
    } else if step.RunReceive? && s.ring.count > 0 {
      SomeMore(woken, step.wake);
      if step.wake == {} {
        assert WaitingSenders(Apply(s, step)) == {};
      }
    } else if step.SpuriousSender? {
      SomeMore(woken - {step.t}, {step.t});
      assert woken + {step.t} == (woken - {step.t}) + {step.t};
      OneLess(woken, step.t);
    }
  }

  lemma StepKeepsReceivers(s: State, step: Step)
    requires Inv(s) && Enabled(s, step)
    ensures ReceiversNotForgotten(Apply(s, step))
  {
    hide WokenReceivers, WaitingReceivers, Contents, Payloads, From, WakeSenders, WakeReceivers;
    ReceiverSets(s, step);
    var woken := WokenReceivers(s);
    if step.RunReceive? {
      OneLess(woken, step.t);
    } else if step.RunSend? && s.ring.count < MAILBOX_CAP {
      SomeMore(woken, step.wake);
      if step.wake == {} {
        assert WaitingReceivers(Apply(s, step)) == {};
      }
    } else if step.SpuriousReceiver? {
      SomeMore(woken - {step.t}, {step.t});
      assert woken + {step.t} == (woken - {step.t}) + {step.t};
      OneLess(woken, step.t);
    }
  }

  // ---- whole runs

  ghost predicate Initial(s: State) {
    && RingOk(s.ring) && s.ring.count == 0
    && s.accepted == [] && s.delivered == [] && s.sent == map[]
    && (forall t :: t in s.senders ==> s.senders[t].NotSending?)
    && (forall t :: t in s.receivers ==> s.receivers[t].NotReceiving?)
  }

  ghost predicate Follows(s: State, step: Step, s': State) {
    RingOk(s.ring) && Enabled(s, step) && s' == Apply(s, step)
  }

  // The steps lead from state to state, starting at an initial one.
  ghost predicate IsRun(states: seq<State>, steps: seq<Step>) {
    && |states| == |steps| + 1
    && Initial(states[0])
    && (forall i :: 0 <= i < |steps| ==> Follows(states[i], steps[i], states[i + 1]))
  }

  ghost predicate Reachable(s: State) {
    exists states, steps :: IsRun(states, steps) && s == states[|steps|]
  }

  lemma {:induction false} InvThroughout(states: seq<State>, steps: seq<Step>, i: nat)
    requires IsRun(states, steps) && i <= |steps|
    ensures Inv(states[i])
  {
    if i > 0 {
      InvThroughout(states, steps, i - 1);
      assert Follows(states[i - 1], steps[i - 1], states[i - 1 + 1]);
      StepKeepsMessages(states[i - 1], steps[i - 1]);
      StepKeepsSenders(states[i - 1], steps[i - 1]);
      StepKeepsReceivers(states[i - 1], steps[i - 1]);
    }
  }

  lemma InvAlways(s: State)
    requires Reachable(s)
    ensures Inv(s)
  {
    var states, steps :| IsRun(states, steps) && s == states[|steps|];
    InvThroughout(states, steps, |steps|);
  }

  // Main results, in every state that any interleaving can reach.

  // Delivery is first-in first-out: what has been delivered is a prefix of what was accepted, at most 64 messages
  // behind it, and each sender's messages were accepted in the order it sent them.
  lemma DeliversInOrder(s: State)
    requires Reachable(s)
    ensures RingOk(s.ring) && Payloads(s.accepted) == s.delivered + Contents(s.ring)
    ensures s.delivered <= Payloads(s.accepted)
    ensures |s.accepted| - |s.delivered| == s.ring.count <= 64
    ensures forall t :: From(s.accepted, t) == SentBy(s, t)
  {
    InvAlways(s);
  }

  // Whoever is not asleep can go on: finding the mailbox full or empty he goes to sleep and wakes nobody, otherwise he
  // wakes at least one of those who wait for what he did.
  lemma RunnableHasAStep(s: State, t: Tid)
    ensures CanRunSend(s, t) ==>
      forall wake :: Enabled(s, RunSend(t, wake)) <==>
        if s.ring.count >= 64 then wake == {}
        else wake <= WaitingReceivers(s) && (wake == {} ==> WaitingReceivers(s) == {})
    ensures CanRunReceive(s, t) ==>
      forall wake :: Enabled(s, RunReceive(t, wake)) <==>
        if s.ring.count == 0 then wake == {}
        else wake <= WaitingSenders(s) && (wake == {} ==> WaitingSenders(s) == {})
    ensures CanRunSend(s, t) ==> exists wake :: Enabled(s, RunSend(t, wake))
    ensures CanRunReceive(s, t) ==> exists wake :: Enabled(s, RunReceive(t, wake))
  {
    if CanRunSend(s, t) {
      assert Enabled(s, RunSend(t, if s.ring.count >= 64 then {} else WaitingReceivers(s)));
    }
    if CanRunReceive(s, t) {
      assert Enabled(s, RunReceive(t, if s.ring.count == 0 then {} else WaitingSenders(s)));
    }
    hide WaitingSenders, WaitingReceivers;
  }

  // Nobody sleeps through his chance: a sender asleep beside a free slot, or a receiver asleep beside a message, means
  // that another one has already been woken to take it.
  lemma NoLostWakeup(s: State)
    requires Reachable(s)
    ensures WaitingSenders(s) != {} ==> 64 - s.ring.count <= |WokenSenders(s)|
    ensures WaitingReceivers(s) != {} ==> s.ring.count <= |WokenReceivers(s)|
    ensures WaitingSenders(s) != {} && s.ring.count < 64 ==> exists t :: t in WokenSenders(s)
    ensures WaitingReceivers(s) != {} && s.ring.count > 0 ==> exists t :: t in WokenReceivers(s)
  {
    InvAlways(s);
    if WokenSenders(s) == {} {
      assert |WokenSenders(s)| == 0;
    }
    if WokenReceivers(s) == {} {
      assert |WokenReceivers(s)| == 0;
    }
  }

  // Senders and receivers are never asleep at the same time with nobody left to run.
  lemma NoDeadlock(s: State)
    requires Reachable(s)
    requires WaitingSenders(s) != {} && WaitingReceivers(s) != {}
    ensures exists t :: CanRunSend(s, t) || CanRunReceive(s, t)
  {
    InvAlways(s);
    NoLostWakeup(s);
    if s.ring.count < MAILBOX_CAP {
      var t :| t in WokenSenders(s);
      assert CanRunSend(s, t);
    } else {
      var t :| t in WokenReceivers(s);
      assert CanRunReceive(s, t);
    }
  }

  // ---- the structure itself

  // The sections of mailbox_send and mailbox_receive that run under the mutex, from the loop test on: `done` is false
  // where the thread goes to sleep instead.
  class Mailbox {
    const buf: array<Value>
    var head: nat
    var tail: nat
    var count: nat

    ghost predicate Valid()
      reads this, buf
    {
      RingOk(View())
    }

    ghost function View(): Ring
      reads this, buf
    {
      Ring(buf[..], head, tail, count)
    }

    constructor ()
      ensures Valid() && fresh(buf) && Contents(View()) == []
    {
      buf := new Value[MAILBOX_CAP];
      head, tail, count := 0, 0, 0;
    }

    method Send(v: Value) returns (done: bool)
      requires Valid()
      modifies this, buf
      ensures Valid() && done == (old(count) < 64)
      ensures View() == if done then Enqueue(old(View()), v) else old(View())
      ensures Contents(View()) == if done then old(Contents(View())) + [v] else old(Contents(View()))
    {
      done := count < MAILBOX_CAP;
      if done {
        EnqueueAppends(View(), v);
        buf[tail] := v;
        tail := (tail + 1) % MAILBOX_CAP;
        count := count + 1;
        assert View() == Enqueue(old(View()), v);
      }
    }

    method Receive() returns (done: bool, v: Value)
      requires Valid()
      modifies this
      ensures Valid() && done == (old(count) > 0)
      ensures done ==> (v, View()) == Dequeue(old(View()))
      ensures !done ==> View() == old(View())
      ensures old(Contents(View())) == (if done then [v] else []) + Contents(View())
    {
      done, v := count > 0, 0;
      if done {
        DequeueTakesOldest(View());
        v := buf[head];
        head := (head + 1) % MAILBOX_CAP;
        count := count - 1;
        assert (v, View()) == Dequeue(old(View()));
      }
    }
  }
}
