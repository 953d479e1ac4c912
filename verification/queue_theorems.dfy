/** What every run of the queue guarantees. */
module QueueTheorems {
  import opened Machine
  import opened RingBuffer
  import opened QueueSections
  import opened QueueProtocol

  // ----- order of elements

  /** What a step that completes a pop copied out, in terms of the history before it. */
  lemma TakenValue(at: CopyIndex, s: State, l: Label, s': State, before: seq<Label>)
    requires Step(at, s, l, s') && MatchesHistory(s, before) && Takes(l) && l.copied.Some?
    ensures |Popped(before)| < |Pushed(before)|
    ensures at.AtWrite? ==>
              l.copied.value == PushedAt(Pushed(before), |Pushed(before)| - s.shared.ring.capacity,
                                         s.shared.ring.elemSize)
    ensures at.AtRead? ==> l.copied.value == Pushed(before)[|Popped(before)|]
  {
    FetchReturns(s.shared.ring, Pushed(before));
  }

  /**
    The pop as written. With P pushes completed it copies push number P - capacity, or zero
    bytes while fewer than `capacity` pushes have completed. On a full queue that is the
    oldest queued element.
   */
  lemma PopAsWrittenReturns(capacity: nat, elemSize: nat, states: seq<State>, labels: seq<Label>, i: nat)
    requires Execution(AtWrite, capacity, elemSize, states, labels)
    requires i < |labels| && Takes(labels[i]) && labels[i].copied.Some?
    ensures var pushed := Pushed(labels[..i]);
            labels[i].copied.value == PushedAt(pushed, |pushed| - capacity, elemSize)
    ensures |Popped(labels[..i])| < |Pushed(labels[..i])|
    ensures states[i].shared.ring.IsFull() ==>
              labels[i].copied.value == Pushed(labels[..i])[|Popped(labels[..i])|]
  {
    Reachable(AtWrite, capacity, elemSize, states, labels, i);
    StepOf(AtWrite, capacity, elemSize, states, labels, i);
    TakenValue(AtWrite, states[i], labels[i], states[i + 1], labels[..i]);
  }

  /**
    The bounded FIFO of queue.h: what each call does to the sequence of queued elements, and
    when it returns which code.
   */
  predicate FifoStep(capacity: nat, q: seq<Elem>, l: Label, q': seq<Elem>)
  {
    match l
    case Push(_, e, _, o) =>
      if Done(o) then |q| < capacity && q' == q + [e]
      else (o == Returns(QueueAbort) || o == Blocks) && |q| == capacity && q' == q
    case TryPush(_, e, locked, o) =>
      if Done(o) then locked && |q| < capacity && q' == q + [e]
      else q' == q && if locked then o == Returns(QueueFull) && |q| == capacity else o == Returns(CantLock)
    case Pop(_, _, o, copied) =>
      if Done(o) then Dequeues(q, copied, q')
      else (o == Returns(QueueAbort) || o == Blocks) && q == [] && q' == q
    case TryPop(_, locked, o, copied) =>
      if Done(o) then locked && Dequeues(q, copied, q')
      else q' == q && if locked then o == Returns(QueueEmpty) && q == [] else o == Returns(CantLock)
    case NullPush(_, o) => o == Returns(WrongArg) && q' == q
    case _ => q' == q
  }

  predicate Dequeues(q: seq<Elem>, copied: Option<Elem>, q': seq<Elem>)
  {
    q != [] && q' == q[1..] && (copied.Some? ==> copied.value == q[0])
  }

  /** One step is a FIFO step exactly when the bytes it copied out are the oldest element. */
  lemma FifoStepExactly(at: CopyIndex, s: State, l: Label, s': State)
    requires Step(at, s, l, s')
    ensures s'.shared.ring.Valid()
    ensures FifoStep(s.shared.ring.capacity, s.shared.ring.Contents(), l, s'.shared.ring.Contents())
            <==> (Takes(l) && l.copied.Some? ==> s.shared.ring.Fetch(at) == s.shared.ring.Fetch(AtRead))
  {
    var r := s.shared.ring;
    StepEffect(at, s, l, s');
    if Stored(l).Some? {
      StoreAppends(r, l.e);
    } else if Takes(l) {
      ReleaseDropsOldest(r);
    }
  }

  /** With the copy taken at the read index, every run refines the FIFO. */
  lemma ReadIndexRefinesFifo(capacity: nat, elemSize: nat, states: seq<State>, labels: seq<Label>, i: nat)
    requires Execution(AtRead, capacity, elemSize, states, labels) && i < |labels|
    ensures states[i].shared.ring.Valid() && states[i + 1].shared.ring.Valid()
    ensures FifoStep(capacity, states[i].shared.ring.Contents(), labels[i], states[i + 1].shared.ring.Contents())
  {
    Reachable(AtRead, capacity, elemSize, states, labels, i);
    StepOf(AtRead, capacity, elemSize, states, labels, i);
    FifoStepExactly(AtRead, states[i], labels[i], states[i + 1]);
  }

  /** Every pop got the element whose push number is the pop's own number. */
  ghost predicate InPushOrder(popped: seq<Option<Elem>>, pushed: seq<Elem>)
  {
    && |popped| <= |pushed|
    && forall k :: 0 <= k < |popped| && popped[k].Some? ==> popped[k].value == pushed[k]
  }

  lemma StepKeepsOrder(s: State, l: Label, s': State, before: seq<Label>)
    requires Step(AtRead, s, l, s') && MatchesHistory(s, before)
    requires InPushOrder(Popped(before), Pushed(before))
    ensures InPushOrder(Popped(before + [l]), Pushed(before + [l]))
  {
    Extend(before, l);
    if Takes(l) && l.copied.Some? {
      TakenValue(AtRead, s, l, s', before);
    }
  }

  /** ... so, whatever the interleaving, the k-th pop receives the k-th push. */
  lemma {:induction false} ReadIndexPopsInPushOrder(capacity: nat, elemSize: nat,
                                                    states: seq<State>, labels: seq<Label>, i: nat)
    requires Execution(AtRead, capacity, elemSize, states, labels) && i < |states|
    ensures InPushOrder(Popped(labels[..i]), Pushed(labels[..i]))
  {
    if i > 0 {
      hide Step, Inv, MatchesHistory, InPushOrder;
      ReadIndexPopsInPushOrder(capacity, elemSize, states, labels, i - 1);
      Reachable(AtRead, capacity, elemSize, states, labels, i - 1);
      StepOf(AtRead, capacity, elemSize, states, labels, i - 1);
      StepKeepsOrder(states[i - 1], labels[i - 1], states[i], labels[..i - 1]);
    }
  }

  // ----- every history is reachable, so the condition of the pop as written is exact

  /** One more step at the end of a run. */
  lemma Continue(at: CopyIndex, capacity: nat, elemSize: nat, states: seq<State>, labels: seq<Label>,
                 l: Label, s': State)
    requires Execution(at, capacity, elemSize, states, labels) && Step(at, states[|labels|], l, s')
    ensures Execution(at, capacity, elemSize, states + [s'], labels + [l])
  {
    var more, ls := states + [s'], labels + [l];
    forall i | 0 <= i < |ls|
      ensures StepAt(at, more, ls, i)
    {
      if i < |labels| { StepOf(at, capacity, elemSize, states, labels, i); }
    }
  }

  ghost predicate Reached(at: CopyIndex, capacity: nat, elemSize: nat, pushed: seq<Elem>, size: nat,
                          states: seq<State>, labels: seq<Label>)
  {
    && Execution(at, capacity, elemSize, states, labels)
    && Pushed(labels) == pushed
    && states[|labels|].shared.ring.size == size
    && states[|labels|].push == Cond({}, {})
    && states[|labels|].pop == Cond({}, {})
  }

  /** A run that completes the given pushes and still holds the last `size` of them. */
  lemma {:induction false} AnyHistoryIsReached(at: CopyIndex, capacity: nat, elemSize: nat,
                                               pushed: seq<Elem>, size: nat)
    returns (states: seq<State>, labels: seq<Label>)
    requires Pushes(pushed, |pushed|, elemSize) && size <= |pushed| && size <= capacity
    requires capacity > 0 || pushed == []
    ensures Reached(at, capacity, elemSize, pushed, size, states, labels)
    decreases |pushed|, capacity - size
  {
    if pushed == [] {
      states, labels := [Initial(capacity, elemSize)], [];
    } else if size > 0 {
      var n := |pushed| - 1;
      states, labels := AnyHistoryIsReached(at, capacity, elemSize, pushed[..n], size - 1);
      states, labels := OneMorePush(at, capacity, elemSize, pushed[..n], size - 1, states, labels, pushed[n]);
      assert pushed[..n] + [pushed[n]] == pushed;
    } else {
      states, labels := AnyHistoryIsReached(at, capacity, elemSize, pushed, 1);
      states, labels := OneMorePop(at, capacity, elemSize, pushed, 1, states, labels);
    }
  }

  lemma OneMorePush(at: CopyIndex, capacity: nat, elemSize: nat, pushed: seq<Elem>, size: nat,
                    states: seq<State>, labels: seq<Label>, e: Elem)
    returns (states': seq<State>, labels': seq<Label>)
    requires Reached(at, capacity, elemSize, pushed, size, states, labels)
    requires size < capacity && |e| == elemSize
    ensures Reached(at, capacity, elemSize, pushed + [e], size + 1, states', labels')
  {
    Reachable(at, capacity, elemSize, states, labels, |labels|);
    var s := states[|labels|];
    var l := Push(0, e, false, Returns(Success));
    var s' := s.(shared := s.shared.(ring := s.shared.ring.Store(e)));
    assert Step(at, s, l, s');
    Continue(at, capacity, elemSize, states, labels, l, s');
    Extend(labels, l);
    states', labels' := states + [s'], labels + [l];
  }

  lemma OneMorePop(at: CopyIndex, capacity: nat, elemSize: nat, pushed: seq<Elem>, size: nat,
                   states: seq<State>, labels: seq<Label>)
    returns (states': seq<State>, labels': seq<Label>)
    requires Reached(at, capacity, elemSize, pushed, size, states, labels) && size > 0
    ensures Reached(at, capacity, elemSize, pushed, size - 1, states', labels')
  {
    Reachable(at, capacity, elemSize, states, labels, |labels|);
    var s := states[|labels|];
    var l := Pop(0, false, Returns(Success), None);
    var s' := s.(shared := s.shared.(ring := s.shared.ring.Release()));
    assert Step(at, s, l, s');
    Continue(at, capacity, elemSize, states, labels, l, s');
    Extend(labels, l);
    states', labels' := states + [s'], labels + [l];
  }

  /** After this run a pop as written would copy out the oldest queued element. */
  ghost predicate PopIsRight(states: seq<State>)
    requires states != [] && states[|states| - 1].shared.ring.Valid()
    requires !states[|states| - 1].shared.ring.IsEmpty()
  {
    var r := states[|states| - 1].shared.ring;
    r.Fetch(AtWrite) == r.Contents()[0]
  }

  /** A run of the code as written with `count` pushes behind it and `size` elements queued. */
  ghost predicate RunWith(capacity: nat, elemSize: nat, count: nat, size: nat,
                          states: seq<State>, labels: seq<Label>)
  {
    && Execution(AtWrite, capacity, elemSize, states, labels)
    && |Pushed(labels)| == count
    && states[|labels|].shared.ring.Valid()
    && states[|labels|].shared.ring.size == size
  }

  /**
    The FIFO contract holds for the next pop of every run with `count` pushes and `size`
    queued elements if and only if the queue is full (or elements have no bytes).
   */
  lemma PopAsWrittenIsRightExactlyWhenFull(capacity: nat, elemSize: nat, count: nat, size: nat)
    requires 0 < size <= capacity && size <= count
    ensures (forall states, labels | RunWith(capacity, elemSize, count, size, states, labels) :: PopIsRight(states))
            <==> (size == capacity || elemSize == 0)
  {
    forall states: seq<State>, labels: seq<Label> | RunWith(capacity, elemSize, count, size, states, labels)
      ensures PopIsRight(states) <==>
              PushedAt(Pushed(labels), count - capacity, elemSize) == Pushed(labels)[count - size]
      ensures Pushes(Pushed(labels), count, elemSize)
    {
      Reachable(AtWrite, capacity, elemSize, states, labels, |labels|);
      assert labels[..|labels|] == labels;
      FetchReturns(states[|labels|].shared.ring, Pushed(labels));
      ContentsAreLastPushes(states[|labels|].shared.ring, Pushed(labels));
    }
    CopyAtWriteIsOldestExactlyWhenFull(capacity, elemSize, count, size);
    if size < capacity && elemSize > 0 {
      var pushed :| Pushes(pushed, count, elemSize)
                    && PushedAt(pushed, count - capacity, elemSize) != pushed[count - size];
      var states, labels := AnyHistoryIsReached(AtWrite, capacity, elemSize, pushed, size);
      Reachable(AtWrite, capacity, elemSize, states, labels, |labels|);
      assert RunWith(capacity, elemSize, count, size, states, labels);
    }
  }

  // ----- wakeups

  /**
    No lost wakeup: in every reachable state a sleeping popper means that the queued elements
    are all spoken for by woken poppers, and a sleeping pusher that the free slots are. With
    nobody woken, sleeping poppers therefore mean an empty queue, sleeping pushers a full
    one, and with room for at least one element the two never sleep together.
   */
  lemma NoLostWakeups(at: CopyIndex, capacity: nat, elemSize: nat, states: seq<State>, labels: seq<Label>, i: nat)
    requires Execution(at, capacity, elemSize, states, labels) && i < |states|
    ensures NoLostWakeup(states[i])
    ensures states[i].push.woken == {} && states[i].pop.woken == {} ==>
              && (states[i].pop.asleep != {} ==> states[i].shared.ring.IsEmpty())
              && (states[i].push.asleep != {} ==> states[i].shared.ring.IsFull())
              && (capacity > 0 ==> states[i].pop.asleep == {} || states[i].push.asleep == {})
  {
    Reachable(at, capacity, elemSize, states, labels, i);
  }

  function Woken(s: State): (n: nat)
  {
    |s.push.woken| + |s.pop.woken|
  }

  lemma NobodyToWake(c: Cond, c': Cond)
    requires c.asleep == {} && Signalled(c, c')
    ensures c' == c
  {
  }

  /** One step after an abort, call by call: nobody sleeps, a resumption leaves for good. */
  ghost predicate Draining(s: State, l: Label, s': State)
  {
    s'.shared.aborted && Woken(s') == Woken(s) - (if Resumes(l) then 1 else 0)
  }

  lemma AbortedPush(s: State, l: Label, s': State)
    requires s.shared.ring.Valid() && l.Push? && PushStep(s, l, s')
    requires Disjoint(s) && s.shared.aborted && s.push.asleep == {} && s.pop.asleep == {}
    ensures Draining(s, l, s')
  {
    LeaveCounts(s.push, l.t, l.resumed);
    if Done(l.outcome) { NobodyToWake(s.pop, s'.pop); }
    assert s'.push == s.push.Leave(l.t, l.resumed) && s'.pop == s.pop;
  }

  lemma AbortedPop(at: CopyIndex, s: State, l: Label, s': State)
    requires s.shared.ring.Valid() && l.Pop? && PopStep(at, s, l, s')
    requires Disjoint(s) && s.shared.aborted && s.push.asleep == {} && s.pop.asleep == {}
    ensures Draining(s, l, s')
  {
    LeaveCounts(s.pop, l.t, l.resumed);
    if Done(l.outcome) { NobodyToWake(s.push, s'.push); }
    assert s'.pop == s.pop.Leave(l.t, l.resumed) && s'.push == s.push;
  }

  lemma AbortedTryPush(s: State, l: Label, s': State)
    requires s.shared.ring.Valid() && l.TryPush? && TryPushStep(s, l, s')
    requires s.shared.aborted && s.pop.asleep == {}
    ensures Draining(s, l, s')
  {
    if Done(l.outcome) { NobodyToWake(s.pop, s'.pop); }
  }

  lemma AbortedTryPop(at: CopyIndex, s: State, l: Label, s': State)
    requires s.shared.ring.Valid() && l.TryPop? && TryPopStep(at, s, l, s')
    requires s.shared.aborted && s.push.asleep == {}
    ensures Draining(s, l, s')
  {
    if Done(l.outcome) { NobodyToWake(s.push, s'.push); }
  }

  lemma AbortedStep(at: CopyIndex, s: State, l: Label, s': State)
    requires Disjoint(s) && AbortDrains(s) && Step(at, s, l, s') && s.shared.aborted
    ensures Draining(s, l, s')
  {
    hide PushStep, PopStep, TryPushStep, TryPopStep;
    match l
    case Push(_, _, _, _) => AbortedPush(s, l, s');
    case Pop(_, _, _, _) => AbortedPop(at, s, l, s');
    case TryPush(_, _, _, _) => AbortedTryPush(s, l, s');
    case TryPop(_, _, _, _) => AbortedTryPop(at, s, l, s');
    case Abort(_) => assert s'.push == s.push && s'.pop == s.pop;
    case _ =>
  }

  lemma AbortedStepOf(at: CopyIndex, capacity: nat, elemSize: nat, states: seq<State>, labels: seq<Label>, i: nat)
    requires Execution(at, capacity, elemSize, states, labels) && i < |labels| && states[i].shared.aborted
    ensures states[i + 1].shared.aborted
    ensures Woken(states[i + 1]) == Woken(states[i]) - (if Resumes(labels[i]) then 1 else 0)
  {
    Reachable(at, capacity, elemSize, states, labels, i);
    StepOf(at, capacity, elemSize, states, labels, i);
    AbortedStep(at, states[i], labels[i], states[i + 1]);
  }

  /**
    After an abort nobody sleeps in any later state, and each thread that was still waking up
    leaves for good: resumptions are matched one for one by the fall in woken threads.
   */
  lemma {:induction false} AbortIsFinal(at: CopyIndex, capacity: nat, elemSize: nat,
                                        states: seq<State>, labels: seq<Label>, i: nat, j: nat)
    requires Execution(at, capacity, elemSize, states, labels)
    requires i <= j < |states| && states[i].shared.aborted
    ensures states[j].shared.aborted
    ensures states[j].push.asleep == {} && states[j].pop.asleep == {}
    ensures Woken(states[i]) == Woken(states[j]) + Count(labels[i..j], Resumes)
    decreases j - i
  {
    assert AbortDrains(states[j]) by { Reachable(at, capacity, elemSize, states, labels, j); }
    if i < j {
      AbortIsFinal(at, capacity, elemSize, states, labels, i, j - 1);
      AbortedStepOf(at, capacity, elemSize, states, labels, j - 1);
      var part := labels[i..j];
      assert part[..|part| - 1] == labels[i..j - 1] && part[|part| - 1] == labels[j - 1];
    }
  }

  /** ... and a woken thread is never stuck: its resumption is always a possible next step. */
  lemma WokenCanResume(at: CopyIndex, s: State, t: Tid) returns (l: Label, s': State)
    requires Inv(s) && t in s.push.woken + s.pop.woken
    ensures Step(at, s, l, s') && Resumes(l) && l.t == t
  {
    if t in s.push.woken {
      l, s' := PusherCanResume(at, s, t);
    } else {
      l, s' := PopperCanResume(at, s, t);
    }
  }

  /** A sleeper may always be woken spuriously. */
  lemma SleeperCanWake(at: CopyIndex, s: State, t: Tid) returns (s': State)
    requires Inv(s) && t in s.push.asleep + s.pop.asleep
    ensures Step(at, s, Spurious(t), s') && t in s'.push.woken + s'.pop.woken
  {
    s' := s.(push := s.push.Wake({t}), pop := s.pop.Wake({t}));
  }

  lemma PusherCanResume(at: CopyIndex, s: State, t: Tid) returns (l: Label, s': State)
    requires s.shared.ring.Valid() && CountersMatch(s) && t in s.push.woken
    ensures Step(at, s, l, s') && Resumes(l) && l.t == t
  {
    assert |s.push.woken| > 0;
    var e := Zeros(s.shared.ring.elemSize);
    var (shared, o) := PushSection(s.shared, e, true);
    var c := s.push.Leave(t, true);
    l := Push(t, e, true, o);
    s' := State(shared, if o.Blocks? then c.Sleep(t) else c,
                if Done(o) then s.pop.Wake(s.pop.asleep) else s.pop);
    assert PushStep(s, l, s');
  }

  lemma PopperCanResume(at: CopyIndex, s: State, t: Tid) returns (l: Label, s': State)
    requires s.shared.ring.Valid() && CountersMatch(s) && t in s.pop.woken
    ensures Step(at, s, l, s') && Resumes(l) && l.t == t
  {
    assert |s.pop.woken| > 0;
    var (shared, o) := PopSection(s.shared, true);
    var c := s.pop.Leave(t, true);
    l := Pop(t, true, o, None);
    s' := State(shared, if Done(o) then s.push.Wake(s.push.asleep) else s.push,
                if o.Blocks? then c.Sleep(t) else c);
    assert PopStep(at, s, l, s');
  }

  /** The call finds no room, or nothing to take. */
  predicate Stuck(r: Ring, l: Label)
  {
    if l.Push? then r.IsFull() else r.IsEmpty()
  }

  /**
    QUEUE_ABORT, exactly: a push or pop returns it if and only if an abort has happened and the
    push finds the queue full or the pop finds it empty. It blocks in the same situation if and
    only if no abort has happened, and succeeds otherwise.
   */
  lemma AbortCodeHasCause(at: CopyIndex, capacity: nat, elemSize: nat,
                          states: seq<State>, labels: seq<Label>, i: nat)
    requires Execution(at, capacity, elemSize, states, labels) && i < |labels|
    requires labels[i].Push? || labels[i].Pop?
    ensures labels[i].outcome == Returns(QueueAbort)
            <==> Stuck(states[i].shared.ring, labels[i]) && exists k :: 0 <= k < i && labels[k].Abort?
    ensures labels[i].outcome.Blocks?
            <==> Stuck(states[i].shared.ring, labels[i]) && forall k :: 0 <= k < i ==> !labels[k].Abort?
    ensures Done(labels[i].outcome) <==> !Stuck(states[i].shared.ring, labels[i])
  {
    StepOf(at, capacity, elemSize, states, labels, i);
    AbortedIffAbortHappened(at, capacity, elemSize, states, labels, i);
  }

  lemma {:induction false} AbortedIffAbortHappened(at: CopyIndex, capacity: nat, elemSize: nat,
                                                   states: seq<State>, labels: seq<Label>, i: nat)
    requires Execution(at, capacity, elemSize, states, labels) && i < |states|
    ensures states[i].shared.aborted <==> exists k :: 0 <= k < i && labels[k].Abort?
  {
    if i > 0 {
      AbortedIffAbortHappened(at, capacity, elemSize, states, labels, i - 1);
      StepOf(at, capacity, elemSize, states, labels, i - 1);
    }
  }

  // ----- counters

  /**
    The waiter counters count the threads inside a wait, and the forecast is the number of
    entered pushes minus the number of entered pops, not counting calls that gave up,
    if and only if that number fits `ssize_t`; otherwise it differs by a multiple of 2^64.
   */
  lemma ForecastCountsCalls(at: CopyIndex, capacity: nat, elemSize: nat,
                            states: seq<State>, labels: seq<Label>, i: nat)
    requires Execution(at, capacity, elemSize, states, labels) && i < |states|
    ensures CountersMatch(states[i])
    ensures var net := NetPushes(labels[..i]) - NetPops(labels[..i]);
            && (Forecast(states[i].shared) == net <==> -SIZE_MODULUS / 2 <= net < SIZE_MODULUS / 2)
            && (Forecast(states[i].shared) - net) % SIZE_MODULUS == 0
            && -SIZE_MODULUS / 2 <= Forecast(states[i].shared) < SIZE_MODULUS / 2
  {
    var s := states[i].shared;
    assert NetPushes(labels[..i]) - NetPops(labels[..i]) == s.ring.size - s.waitingPop + s.waitingPush
        && CountersMatch(states[i]) by {
      Reachable(at, capacity, elemSize, states, labels, i);
    }
    ForecastValue(s);
  }

  lemma ForecastValue(s: Shared)
    ensures var net := s.ring.size - s.waitingPop + s.waitingPush;
            && (Forecast(s) == net <==> -SIZE_MODULUS / 2 <= net < SIZE_MODULUS / 2)
            && (Forecast(s) - net) % SIZE_MODULUS == 0
            && -SIZE_MODULUS / 2 <= Forecast(s) < SIZE_MODULUS / 2
  {
    ModAdd(s.ring.size - s.waitingPop, s.waitingPush, SIZE_MODULUS);
  }

  /** Ring safety over every run; with capacity 0 no step ever stores or takes. */
  lemma RingSafety(at: CopyIndex, capacity: nat, elemSize: nat, states: seq<State>, labels: seq<Label>, i: nat)
    requires Execution(at, capacity, elemSize, states, labels) && i < |states|
    ensures var r := states[i].shared.ring;
            && r.size <= capacity && |r.memory| == capacity * elemSize
            && (capacity > 0 ==> r.readIndex < capacity && r.writeIndex == (r.readIndex + r.size) % capacity)
    ensures capacity == 0 ==> Pushed(labels[..i]) == [] && Popped(labels[..i]) == []
  {
    Reachable(at, capacity, elemSize, states, labels, i);
    if capacity == 0 {
      NothingStoredWithoutRoom(at, elemSize, states, labels, i);
    }
  }

  lemma {:induction false} NothingStoredWithoutRoom(at: CopyIndex, elemSize: nat,
                                                    states: seq<State>, labels: seq<Label>, i: nat)
    requires Execution(at, 0, elemSize, states, labels) && i < |states|
    ensures Pushed(labels[..i]) == []
  {
    if i > 0 {
      NothingStoredWithoutRoom(at, elemSize, states, labels, i - 1);
      var l := labels[i - 1];
      assert labels[..i] == labels[..i - 1] + [l];
      assert Stored(l).None? by {
        var r := states[i - 1].shared.ring;
        assert r.capacity == 0 && r.size == 0 by { Reachable(at, 0, elemSize, states, labels, i - 1); }
        StepOf(at, 0, elemSize, states, labels, i - 1);
      }
      Extend(labels[..i - 1], l);
    }
  }
}
