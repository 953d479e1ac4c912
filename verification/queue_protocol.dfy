/**
  The queue under any number of threads. Every step is one critical section of
  QueueSections, or a spurious wakeup. The condition variables follow the
  pthread_cond_wait and pthread_cond_signal entries of POSIX.1-2017: a signal unblocks at
  least one thread if any is blocked, a broadcast unblocks all, and a thread may also be
  unblocked without either.
 */
module QueueProtocol {
  import opened Machine
  import opened RingBuffer
  import opened QueueSections

  type Tid = nat

  /** A condition variable: threads blocked on it, and threads unblocked but not yet running. */
  datatype Cond = Cond(asleep: set<Tid>, woken: set<Tid>) {

    function Waiters(): (ts: set<Tid>) { asleep + woken }

    /** Thread `t`, if it is coming back from the wait, has left the condition variable. */
    function Leave(t: Tid, resumed: bool): (c: Cond)
    {
      if resumed then this.(woken := woken - {t}) else this
    }

    function Sleep(t: Tid): (c: Cond) { this.(asleep := asleep + {t}) }

    function Wake(ts: set<Tid>): (c: Cond) { Cond(asleep - ts, woken + ts * asleep) }
  }

  datatype State = State(shared: Shared, push: Cond, pop: Cond)

  /** What a step was, as seen by the calling thread. `copied` is None when NULL was passed. */
  datatype Label =
    | Push(t: Tid, e: Elem, resumed: bool, outcome: Outcome)
    | Pop(t: Tid, resumed: bool, outcome: Outcome, copied: Option<Elem>)
    | TryPush(t: Tid, e: Elem, locked: bool, outcome: Outcome)
    | TryPop(t: Tid, locked: bool, outcome: Outcome, copied: Option<Elem>)
    | NullPush(t: Tid, outcome: Outcome)
    | Abort(t: Tid)
    | Spurious(t: Tid)

  function Stored(l: Label): (e: Option<Elem>)
  {
    match l
    case Push(_, e, _, o) => if Done(o) then Some(e) else None
    case TryPush(_, e, _, o) => if Done(o) then Some(e) else None
    case _ => None
  }

  predicate Takes(l: Label)
  {
    (l.Pop? || l.TryPop?) && Done(l.outcome)
  }

  predicate Resumes(l: Label)
  {
    (l.Push? || l.Pop?) && l.resumed
  }

  // ----- the step relation

  predicate Idle(s: State, t: Tid)
  {
    t !in s.push.Waiters() && t !in s.pop.Waiters()
  }

  predicate Runs(s: State, c: Cond, t: Tid, resumed: bool)
  {
    if resumed then t in c.woken else Idle(s, t)
  }

  predicate Signalled(c: Cond, c': Cond)
  {
    && c'.asleep <= c.asleep
    && c' == c.Wake(c.asleep - c'.asleep)
    && (c.asleep != {} ==> c'.asleep != c.asleep)
  }

  predicate Copies(r: Ring, at: CopyIndex, copied: Option<Elem>)
    requires r.Valid()
  {
    !r.IsEmpty() && (copied.Some? ==> copied.value == r.Fetch(at))
  }

  predicate PushStep(s: State, l: Label, s': State)
    requires s.shared.ring.Valid() && l.Push?
  {
    && |l.e| == s.shared.ring.elemSize
    && Runs(s, s.push, l.t, l.resumed)
    && (l.resumed ==> s.shared.waitingPush > 0)
    && (s'.shared, l.outcome) == PushSection(s.shared, l.e, l.resumed)
    && var c := s.push.Leave(l.t, l.resumed);
    && s'.push == (if l.outcome.Blocks? then c.Sleep(l.t) else c)
    && (if Done(l.outcome) then Signalled(s.pop, s'.pop) else s'.pop == s.pop)
  }

  predicate PopStep(at: CopyIndex, s: State, l: Label, s': State)
    requires s.shared.ring.Valid() && l.Pop?
  {
    && Runs(s, s.pop, l.t, l.resumed)
    && (l.resumed ==> s.shared.waitingPop > 0)
    && (s'.shared, l.outcome) == PopSection(s.shared, l.resumed)
    && (Done(l.outcome) ==> Copies(s.shared.ring, at, l.copied))
    && var c := s.pop.Leave(l.t, l.resumed);
    && s'.pop == (if l.outcome.Blocks? then c.Sleep(l.t) else c)
    && (if Done(l.outcome) then Signalled(s.push, s'.push) else s'.push == s.push)
  }

  predicate TryPushStep(s: State, l: Label, s': State)
    requires s.shared.ring.Valid() && l.TryPush?
  {
    && |l.e| == s.shared.ring.elemSize
    && Idle(s, l.t)
    && (s'.shared, l.outcome) == TryPushSection(s.shared, l.e, l.locked)
    && s'.push == s.push
    && (if Done(l.outcome) then Signalled(s.pop, s'.pop) else s'.pop == s.pop)
  }

  predicate TryPopStep(at: CopyIndex, s: State, l: Label, s': State)
    requires s.shared.ring.Valid() && l.TryPop?
  {
    && Idle(s, l.t)
    && (s'.shared, l.outcome) == TryPopSection(s.shared, l.locked)
    && (Done(l.outcome) ==> Copies(s.shared.ring, at, l.copied))
    && s'.pop == s.pop
    && (if Done(l.outcome) then Signalled(s.push, s'.push) else s'.push == s.push)
  }

  predicate Step(at: CopyIndex, s: State, l: Label, s': State)
  {
    && s.shared.ring.Valid()
    && match l
       case Push(_, _, _, _) => PushStep(s, l, s')
       case Pop(_, _, _, _) => PopStep(at, s, l, s')
       case TryPush(_, _, _, _) => TryPushStep(s, l, s')
       case TryPop(_, _, _, _) => TryPopStep(at, s, l, s')
       case NullPush(t, o) => Idle(s, t) && o == Returns(WrongArg) && s' == s
       case Abort(t) =>
         Idle(s, t) && s' == State(s.shared.(aborted := true),
                                   s.push.Wake(s.push.asleep), s.pop.Wake(s.pop.asleep))
       case Spurious(t) =>
         t in s.push.asleep + s.pop.asleep && s' == s.(push := s.push.Wake({t}), pop := s.pop.Wake({t}))
  }

  function Initial(capacity: nat, elemSize: nat): (s: State)
  {
    State(Shared(EmptyRing(capacity, elemSize), false, 0, 0), Cond({}, {}), Cond({}, {}))
  }

  /** A run: `states[i]` goes to `states[i + 1]` by `labels[i]`. */
  ghost predicate Execution(at: CopyIndex, capacity: nat, elemSize: nat, states: seq<State>, labels: seq<Label>)
  {
    && |states| == |labels| + 1
    && states[0] == Initial(capacity, elemSize)
    && forall i :: 0 <= i < |labels| ==> StepAt(at, states, labels, i)
  }

  predicate StepAt(at: CopyIndex, states: seq<State>, labels: seq<Label>, i: nat)
    requires i < |labels| < |states|
  {
    Step(at, states[i], labels[i], states[i + 1])
  }

  // ----- histories, read off the labels alone

  /** The elements pushed, in the order the pushes completed. */
  function Pushed(labels: seq<Label>): (es: seq<Elem>)
  {
    if labels == [] then []
    else
      var n := |labels| - 1;
      Pushed(labels[..n]) + (match Stored(labels[n]) case Some(e) => [e] case None => [])
  }

  /** What each completed pop copied out, in completion order. */
  function Popped(labels: seq<Label>): (vs: seq<Option<Elem>>)
  {
    if labels == [] then []
    else
      var n := |labels| - 1;
      Popped(labels[..n]) + (if Takes(labels[n]) then [labels[n].copied] else [])
  }

  /** Calls that got past the argument check and the trylock, minus those that gave up later. */
  function NetPushes(labels: seq<Label>): (n: int)
  {
    Count(labels, EntersPush) - Count(labels, FailsPush)
  }

  function NetPops(labels: seq<Label>): (n: int)
  {
    Count(labels, EntersPop) - Count(labels, FailsPop)
  }

  predicate EntersPush(l: Label) { (l.Push? && !l.resumed) || (l.TryPush? && l.locked) }

  predicate FailsPush(l: Label)
  {
    || (l.Push? && l.outcome.Returns? && !Done(l.outcome))
    || (l.TryPush? && l.locked && !Done(l.outcome))
  }

  predicate EntersPop(l: Label) { (l.Pop? && !l.resumed) || (l.TryPop? && l.locked) }

  predicate FailsPop(l: Label)
  {
    || (l.Pop? && l.outcome.Returns? && !Done(l.outcome))
    || (l.TryPop? && l.locked && !Done(l.outcome))
  }

  // ----- the invariant

  ghost predicate Disjoint(s: State)
  {
    && s.push.asleep !! s.push.woken && s.pop.asleep !! s.pop.woken
    && s.push.Waiters() !! s.pop.Waiters()
  }

  /** Poppers sleep only if every queued element already has a woken popper; dually for pushers. */
  ghost predicate NoLostWakeup(s: State)
  {
    && (s.pop.asleep != {} ==> s.shared.ring.size <= |s.pop.woken|)
    && (s.push.asleep != {} ==> s.shared.ring.capacity - s.shared.ring.size <= |s.push.woken|)
  }

  ghost predicate CountersMatch(s: State)
  {
    && s.shared.waitingPush == |s.push.asleep| + |s.push.woken|
    && s.shared.waitingPop == |s.pop.asleep| + |s.pop.woken|
  }

  ghost predicate AbortDrains(s: State)
  {
    s.shared.aborted ==> s.push.asleep == {} && s.pop.asleep == {}
  }

  ghost predicate Inv(s: State)
  {
    && s.shared.ring.Valid()
    && Disjoint(s)
    && CountersMatch(s)
    && NoLostWakeup(s)
    && AbortDrains(s)
  }

  lemma SignalCounts(c: Cond, c': Cond)
    requires c.asleep !! c.woken && Signalled(c, c')
    ensures c'.Waiters() == c.Waiters() && c'.asleep !! c'.woken
    ensures |c'.asleep| + |c'.woken| == |c.asleep| + |c.woken|
    ensures c.asleep != {} ==> |c'.woken| > |c.woken|
    ensures c.asleep == {} ==> c' == c
  {
    WakeCounts(c, c.asleep - c'.asleep);
    if c.asleep != {} {
      assert c'.asleep < c.asleep;
      assert |c.asleep - c'.asleep| > 0 by {
        var t :| t in c.asleep && t !in c'.asleep;
        assert t in c.asleep - c'.asleep;
      }
    }
  }

  lemma WakeCounts(c: Cond, ts: set<Tid>)
    requires c.asleep !! c.woken
    ensures var c' := c.Wake(ts);
            && c'.Waiters() == c.Waiters() && c'.asleep !! c'.woken
            && |c'.woken| == |c.woken| + |ts * c.asleep|
            && |c'.asleep| + |c'.woken| == |c.asleep| + |c.woken|
  {
    assert c.asleep == (c.asleep - ts) + ts * c.asleep;
  }

  /** A thread that comes back from the wait, and perhaps goes to sleep again. */
  lemma LeaveCounts(c: Cond, t: Tid, resumed: bool)
    requires c.asleep !! c.woken && (if resumed then t in c.woken else t !in c.Waiters())
    ensures var c' := c.Leave(t, resumed);
            && c'.asleep == c.asleep && c'.woken <= c.woken && t !in c'.Waiters()
            && |c'.woken| == |c.woken| - (if resumed then 1 else 0)
            && |c'.Sleep(t).asleep| == |c.asleep| + 1
            && c'.Sleep(t).asleep !! c'.Sleep(t).woken
  {
  }

  lemma PushKeepsInv(s: State, l: Label, s': State)
    requires Inv(s) && l.Push? && PushStep(s, l, s')
    ensures Inv(s')
  {
    LeaveCounts(s.push, l.t, l.resumed);
    if Done(l.outcome) { SignalCounts(s.pop, s'.pop); }
  }

  lemma PopKeepsInv(at: CopyIndex, s: State, l: Label, s': State)
    requires Inv(s) && l.Pop? && PopStep(at, s, l, s')
    ensures Inv(s')
  {
    LeaveCounts(s.pop, l.t, l.resumed);
    if Done(l.outcome) { SignalCounts(s.push, s'.push); }
  }

  lemma TryPushKeepsInv(s: State, l: Label, s': State)
    requires Inv(s) && l.TryPush? && TryPushStep(s, l, s')
    ensures Inv(s')
  {
    if Done(l.outcome) { SignalCounts(s.pop, s'.pop); }
  }

  lemma TryPopKeepsInv(at: CopyIndex, s: State, l: Label, s': State)
    requires Inv(s) && l.TryPop? && TryPopStep(at, s, l, s')
    ensures Inv(s')
  {
    if Done(l.outcome) { SignalCounts(s.push, s'.push); }
  }

  lemma WakeKeepsInv(at: CopyIndex, s: State, l: Label, s': State)
    requires Inv(s) && Step(at, s, l, s') && (l.Abort? || l.Spurious?)
    ensures Inv(s')
  {
    var tsPush := if l.Abort? then s.push.asleep else {l.t};
    var tsPop := if l.Abort? then s.pop.asleep else {l.t};
    WakeCounts(s.push, tsPush);
    WakeCounts(s.pop, tsPop);
  }

  lemma StepKeepsInv(at: CopyIndex, s: State, l: Label, s': State)
    requires Inv(s) && Step(at, s, l, s')
    ensures Inv(s')
  {
    match l
    case Push(_, _, _, _) => PushKeepsInv(s, l, s');
    case Pop(_, _, _, _) => PopKeepsInv(at, s, l, s');
    case TryPush(_, _, _, _) => TryPushKeepsInv(s, l, s');
    case TryPop(_, _, _, _) => TryPopKeepsInv(at, s, l, s');
    case NullPush(_, _) =>
    case _ => WakeKeepsInv(at, s, l, s');
  }

  // ----- the state as a function of the history

  ghost predicate MatchesHistory(s: State, labels: seq<Label>)
  {
    && Holds(s.shared.ring, Pushed(labels))
    && s.shared.ring.size == |Pushed(labels)| - |Popped(labels)|
    && NetPushes(labels) == |Pushed(labels)| + s.shared.waitingPush
    && NetPops(labels) == |Popped(labels)| + s.shared.waitingPop
  }

  /** How one more label extends every history. */
  lemma Extend(labels: seq<Label>, l: Label)
    ensures var more := labels + [l];
            && Pushed(more) == Pushed(labels) + (match Stored(l) case Some(e) => [e] case None => [])
            && Popped(more) == Popped(labels) + (if Takes(l) then [l.copied] else [])
            && NetPushes(more) == NetPushes(labels)
                                  + (if EntersPush(l) then 1 else 0) - (if FailsPush(l) then 1 else 0)
            && NetPops(more) == NetPops(labels)
                                + (if EntersPop(l) then 1 else 0) - (if FailsPop(l) then 1 else 0)
  {
    var more := labels + [l];
    assert more[..|more| - 1] == labels && more[|more| - 1] == l;
  }

  /** The effect of a step on the ring and the counters. */
  lemma StepEffect(at: CopyIndex, s: State, l: Label, s': State)
    requires Step(at, s, l, s')
    ensures Stored(l).Some? ==> !s.shared.ring.IsFull() && |l.e| == s.shared.ring.elemSize
    ensures Takes(l) ==> Copies(s.shared.ring, at, l.copied)
    ensures s'.shared.ring == if Stored(l).Some? then s.shared.ring.Store(l.e)
                              else if Takes(l) then s.shared.ring.Release()
                              else s.shared.ring
    ensures s'.shared.waitingPush - s.shared.waitingPush
            == (if EntersPush(l) then 1 else 0) - (if FailsPush(l) then 1 else 0) - (if Stored(l).Some? then 1 else 0)
    ensures s'.shared.waitingPop - s.shared.waitingPop
            == (if EntersPop(l) then 1 else 0) - (if FailsPop(l) then 1 else 0) - (if Takes(l) then 1 else 0)
  {
  }

  lemma StepMatchesHistory(at: CopyIndex, s: State, l: Label, s': State, labels: seq<Label>)
    requires Step(at, s, l, s') && MatchesHistory(s, labels)
    ensures MatchesHistory(s', labels + [l])
  {
    Extend(labels, l);
    StepEffect(at, s, l, s');
    if Stored(l).Some? {
      StoreHolds(s.shared.ring, l.e, Pushed(labels));
    } else if Takes(l) {
      ReleaseHolds(s.shared.ring, Pushed(labels));
    }
  }

  /** Capacity and element size never change. */
  predicate SameShape(s: State, s': State)
  {
    s'.shared.ring.capacity == s.shared.ring.capacity && s'.shared.ring.elemSize == s.shared.ring.elemSize
  }

  lemma StepKeepsShape(at: CopyIndex, s: State, l: Label, s': State)
    requires Step(at, s, l, s')
    ensures SameShape(s, s')
  {
  }

  lemma InitialGood(capacity: nat, elemSize: nat)
    ensures Inv(Initial(capacity, elemSize)) && MatchesHistory(Initial(capacity, elemSize), [])
  {
    EmptyHolds(capacity, elemSize);
  }

  lemma StepOf(at: CopyIndex, capacity: nat, elemSize: nat, states: seq<State>, labels: seq<Label>, i: nat)
    requires Execution(at, capacity, elemSize, states, labels) && i < |labels|
    ensures Step(at, states[i], labels[i], states[i + 1])
    ensures labels[..i + 1] == labels[..i] + [labels[i]]
  {
    assert StepAt(at, states, labels, i);
  }

  /** Every reachable state satisfies the invariant and matches its history. */
  lemma {:induction false} Reachable(at: CopyIndex, capacity: nat, elemSize: nat,
                                     states: seq<State>, labels: seq<Label>, i: nat)
    requires Execution(at, capacity, elemSize, states, labels) && i < |states|
    ensures Inv(states[i]) && MatchesHistory(states[i], labels[..i])
    ensures SameShape(Initial(capacity, elemSize), states[i])
  {
    if i == 0 {
      assert labels[..0] == [];
      InitialGood(capacity, elemSize);
    } else {
      var s, l, s' := states[i - 1], labels[i - 1], states[i];
      Reachable(at, capacity, elemSize, states, labels, i - 1);
      StepOf(at, capacity, elemSize, states, labels, i - 1);
      StepKeepsInv(at, s, l, s');
      StepKeepsShape(at, s, l, s');
      StepMatchesHistory(at, s, l, s', labels[..i - 1]);
    }
  }
}
