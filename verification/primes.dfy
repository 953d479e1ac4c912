/** ex09/primes/primes.c: producers and consumers around a shared list. */
module Primes {
  import opened Machine

  // ----- is_prime

  ghost predicate Prime(n: int)
  {
    n >= 2 && forall a, b :: a >= 2 && b >= 2 ==> Times(a, b) != n
  }

  function Times(a: int, b: int): (c: int) { a * b }

  /** Trial division, lines 27-41. */
  method IsPrime(n: nat) returns (r: bool)
    ensures r <==> Prime(n)
  {
    if n == 0 || n == 1 {
      return false;
    }
    var k := 2;
    while k < n
      invariant 2 <= k <= n
      invariant forall d :: 2 <= d < k ==> n % d != 0
    {
      if n % k == 0 {
        assert Times(k, n / k) == n;
        CofactorIsLarge(n, k);
        return false;
      }
      k := k + 1;
    }
    forall a, b | a >= 2 && b >= 2
      ensures Times(a, b) != n
    {
      if Times(a, b) == n { FactorDivides(a, b); }
    }
    return true;
  }

  lemma CofactorIsLarge(n: nat, k: nat)
    requires 2 <= k < n && n % k == 0
    ensures n / k >= 2
  {
    var q := n / k;
    assert n == k * q;
    assert q == 1 ==> k * q == k;
  }

  lemma FactorDivides(a: int, b: int)
    requires a >= 2 && b >= 2
    ensures a < Times(a, b) && Times(a, b) % a == 0
  {
    MulMonotone(2, b, a);
    assert b * a == Times(a, b);
    ModUnique(Times(a, b), 0, b, a);
  }

  // ----- the threads

  const FIRST: int := 1000
  const LIMIT: int := 5000

  /** `k` is the loop variable; `refused` counts the pushes that got no memory. */
  datatype Producer = Producer(k: int, counter: nat, refused: nat)

  datatype Phase = Ready | Asleep | Woken | Holding(item: int) | Exited

  datatype Consumer = Consumer(phase: Phase, counter: nat)

  datatype State = State(list: seq<int>, finished: bool, producers: seq<Producer>, consumers: seq<Consumer>)

  datatype Label =
    | Skip(i: nat)                 // producer i: k is not prime
    | Push(i: nat, item: int)      // producer i pushes, signals and counts
    | Refuse(i: nat, item: int)    // producer i: list_push fails
    | Wait(j: nat)                 // consumer j finds the list empty and sleeps
    | Pop(j: nat, item: int)       // consumer j pops
    | Quit(j: nat)                 // consumer j wakes up and sees `finished`
    | Count(j: nat)                // consumer j counts the popped item
    | Wakeup(j: nat)               // consumer j wakes up without a signal
    | Finish                       // main sets `finished` after joining the producers
    | Broadcast

  predicate Locking(c: Consumer, finished: bool)
  {
    c.phase.Ready? || (c.phase.Woken? && !finished)
  }

  /** Some sleepers, and at least one if there are any, become runnable. */
  ghost predicate Signalled(cs: seq<Consumer>, cs': seq<Consumer>)
  {
    && |cs'| == |cs|
    && (forall j :: 0 <= j < |cs| ==> cs'[j] == cs[j] || (cs[j].phase.Asleep? && cs'[j] == cs[j].(phase := Woken)))
    && ((exists j :: 0 <= j < |cs| && cs[j].phase.Asleep?) ==>
          exists j :: 0 <= j < |cs| && cs[j].phase.Asleep? && cs'[j].phase.Woken?)
  }

  function WakeAll(cs: seq<Consumer>): (r: seq<Consumer>)
    ensures |r| == |cs|
  {
    seq(|cs|, j requires 0 <= j < |cs| => if cs[j].phase.Asleep? then cs[j].(phase := Woken) else cs[j])
  }

  ghost predicate ProducerStep(s: State, l: Label, s': State, i: nat)
    requires i < |s.producers|
  {
    var p := s.producers[i];
    && p.k < LIMIT
    && s'.finished == s.finished
    && match l
       case Skip(_) =>
         !Prime(p.k) && s' == s.(producers := s.producers[i := p.(k := p.k + 1)])
       case Push(_, item) =>
         && Prime(p.k) && item == p.k
         && s'.list == s.list + [item]
         && s'.producers == s.producers[i := Producer(p.k + 1, p.counter + 1, p.refused)]
         && Signalled(s.consumers, s'.consumers)
       case Refuse(_, item) =>
         && Prime(p.k) && item == p.k
         && s' == s.(producers := s.producers[i := Producer(p.k + 1, p.counter, p.refused + 1)])
       case _ => false
  }

  ghost predicate ConsumerStep(s: State, l: Label, s': State, j: nat)
    requires j < |s.consumers|
  {
    var c := s.consumers[j];
    match l
    case Wait(_) =>
      Locking(c, s.finished) && s.list == [] && s' == s.(consumers := s.consumers[j := c.(phase := Asleep)])
    case Pop(_, item) =>
      && Locking(c, s.finished) && s.list != [] && item == s.list[0]
      && s' == s.(list := s.list[1..], consumers := s.consumers[j := c.(phase := Holding(item))])
    case Quit(_) =>
      c.phase.Woken? && s.finished && s' == s.(consumers := s.consumers[j := c.(phase := Exited)])
    case Count(_) =>
      c.phase.Holding? && s' == s.(consumers := s.consumers[j := Consumer(Ready, c.counter + 1)])
    case Wakeup(_) =>
      c.phase.Asleep? && s' == s.(consumers := s.consumers[j := c.(phase := Woken)])
    case _ => false
  }

  predicate ProducersDone(s: State)
  {
    forall i :: 0 <= i < |s.producers| ==> s.producers[i].k == LIMIT
  }

  ghost predicate Step(s: State, l: Label, s': State)
  {
    match l
    case Skip(i) => i < |s.producers| && ProducerStep(s, l, s', i)
    case Push(i, _) => i < |s.producers| && ProducerStep(s, l, s', i)
    case Refuse(i, _) => i < |s.producers| && ProducerStep(s, l, s', i)
    case Finish => ProducersDone(s) && s' == s.(finished := true)
    case Broadcast => s.finished && s' == s.(consumers := WakeAll(s.consumers))
    case _ => l.j < |s.consumers| && ConsumerStep(s, l, s', l.j)
  }

  predicate Start(s: State)
  {
    && s.list == [] && !s.finished
    && (forall i :: 0 <= i < |s.producers| ==> s.producers[i] == Producer(FIRST, 0, 0))
    && (forall j :: 0 <= j < |s.consumers| ==> s.consumers[j] == Consumer(Ready, 0))
  }

  ghost predicate StepAt(states: seq<State>, labels: seq<Label>, i: nat)
    requires i < |labels| < |states|
  {
    Step(states[i], labels[i], states[i + 1])
  }

  ghost predicate Execution(states: seq<State>, labels: seq<Label>)
  {
    && |states| == |labels| + 1
    && Start(states[0])
    && forall i :: 0 <= i < |labels| ==> StepAt(states, labels, i)
  }

  // ----- sums over threads

  function Produced(ps: seq<Producer>): (n: nat)
  {
    if ps == [] then 0 else Produced(ps[..|ps| - 1]) + ps[|ps| - 1].counter
  }

  function Consumed(cs: seq<Consumer>): (n: nat)
  {
    if cs == [] then 0 else Consumed(cs[..|cs| - 1]) + cs[|cs| - 1].counter
  }

  /** Items popped but not yet counted. */
  function InFlight(cs: seq<Consumer>): (n: nat)
  {
    if cs == [] then 0 else InFlight(cs[..|cs| - 1]) + (if cs[|cs| - 1].phase.Holding? then 1 else 0)
  }

  lemma {:induction false} ProducedUpdate(ps: seq<Producer>, i: nat, p: Producer)
    requires i < |ps|
    ensures Produced(ps[i := p]) == Produced(ps) - ps[i].counter + p.counter
  {
    var n := |ps| - 1;
    if i < n {
      assert ps[i := p][..n] == ps[..n][i := p];
      ProducedUpdate(ps[..n], i, p);
    } else {
      assert ps[i := p][..n] == ps[..n];
    }
  }

  lemma {:induction false} ConsumersUpdate(cs: seq<Consumer>, j: nat, c: Consumer)
    requires j < |cs|
    ensures Consumed(cs[j := c]) == Consumed(cs) - cs[j].counter + c.counter
    ensures InFlight(cs[j := c])
            == InFlight(cs) - (if cs[j].phase.Holding? then 1 else 0) + (if c.phase.Holding? then 1 else 0)
  {
    var n := |cs| - 1;
    if j < n {
      assert cs[j := c][..n] == cs[..n][j := c];
      ConsumersUpdate(cs[..n], j, c);
    } else {
      assert cs[j := c][..n] == cs[..n];
    }
  }

  /** Waking threads up moves no item. */
  ghost predicate OnlyWakes(cs: seq<Consumer>, cs': seq<Consumer>)
  {
    && |cs'| == |cs|
    && forall j :: 0 <= j < |cs| ==>
                     && cs'[j].counter == cs[j].counter
                     && (cs'[j].phase == cs[j].phase || (cs[j].phase.Asleep? && cs'[j].phase.Woken?))
  }

  lemma {:induction false} WakingMovesNothing(cs: seq<Consumer>, cs': seq<Consumer>)
    requires OnlyWakes(cs, cs')
    ensures Consumed(cs') == Consumed(cs) && InFlight(cs') == InFlight(cs)
  {
    if cs != [] {
      WakingMovesNothing(cs[..|cs| - 1], cs'[..|cs| - 1]);
    }
  }

  // ----- the invariant

  ghost predicate GoodItem(item: int)
  {
    FIRST <= item < LIMIT && Prime(item)
  }

  ghost predicate GoodItems(s: State)
  {
    && (forall i :: 0 <= i < |s.list| ==> GoodItem(s.list[i]))
    && (forall j :: 0 <= j < |s.consumers| && s.consumers[j].phase.Holding? ==> GoodItem(s.consumers[j].phase.item))
    && (forall i :: 0 <= i < |s.producers| ==> FIRST <= s.producers[i].k <= LIMIT)
  }

  /** Nothing is lost or made up: produced = consumed + popped but not counted + still listed. */
  ghost predicate Conserved(s: State)
  {
    Produced(s.producers) == Consumed(s.consumers) + InFlight(s.consumers) + |s.list|
  }

  lemma ProducerConserves(s: State, l: Label, s': State, i: nat)
    requires i < |s.producers| && ProducerStep(s, l, s', i)
    requires Conserved(s) && GoodItems(s)
    ensures Conserved(s') && GoodItems(s')
  {
    ProducedUpdate(s.producers, i, s'.producers[i]);
    if l.Push? { WakingMovesNothing(s.consumers, s'.consumers); }
  }

  lemma ConsumerConserves(s: State, l: Label, s': State, j: nat)
    requires j < |s.consumers| && ConsumerStep(s, l, s', j) && Conserved(s) && GoodItems(s)
    ensures Conserved(s') && GoodItems(s')
  {
    ConsumersUpdate(s.consumers, j, s'.consumers[j]);
  }

  lemma StepConserves(s: State, l: Label, s': State)
    requires Step(s, l, s') && Conserved(s) && GoodItems(s)
    ensures Conserved(s') && GoodItems(s')
  {
    if l.Skip? || l.Push? || l.Refuse? {
      ProducerConserves(s, l, s', l.i);
    } else if l.Broadcast? {
      WakingMovesNothing(s.consumers, s'.consumers);
    } else if !l.Finish? {
      ConsumerConserves(s, l, s', l.j);
    }
  }

  lemma StartConserves(s: State)
    requires Start(s)
    ensures Conserved(s) && GoodItems(s)
  {
    AllZero(s.producers, s.consumers);
  }

  lemma {:induction false} AllZero(ps: seq<Producer>, cs: seq<Consumer>)
    requires forall i :: 0 <= i < |ps| ==> ps[i].counter == 0
    requires forall j :: 0 <= j < |cs| ==> cs[j].counter == 0 && !cs[j].phase.Holding?
    ensures Produced(ps) == 0 && Consumed(cs) == 0 && InFlight(cs) == 0
    decreases |ps| + |cs|
  {
    if ps != [] {
      AllZero(ps[..|ps| - 1], cs);
    } else if cs != [] {
      AllZero(ps, cs[..|cs| - 1]);
    }
  }

  lemma StepOf(states: seq<State>, labels: seq<Label>, i: nat)
    requires Execution(states, labels) && i < |labels|
    ensures Step(states[i], labels[i], states[i + 1]) && labels[..i + 1] == labels[..i] + [labels[i]]
  {
    assert StepAt(states, labels, i);
  }

  /**
    In every interleaving of any number of producers and consumers, the produced count is the
    consumed count plus the items popped but not yet counted plus the length of the list, and
    every item on its way is a prime of the searched range.
   */
  lemma {:induction false} NothingLost(states: seq<State>, labels: seq<Label>, i: nat)
    requires Execution(states, labels) && i < |states|
    ensures Conserved(states[i]) && GoodItems(states[i])
  {
    hide Conserved, GoodItems, Step;
    if i == 0 {
      StartConserves(states[0]);
    } else {
      NothingLost(states, labels, i - 1);
      StepOf(states, labels, i - 1);
      StepConserves(states[i - 1], labels[i - 1], states[i]);
    }
  }

  predicate AllExited(s: State)
  {
    ProducersDone(s) && forall j :: 0 <= j < |s.consumers| ==> s.consumers[j].phase.Exited?
  }

  /** When every thread has exited, main's comparison holds exactly when the list is empty. */
  lemma MainEqualityExactly(states: seq<State>, labels: seq<Label>)
    requires Execution(states, labels) && AllExited(states[|labels|])
    ensures var s := states[|labels|];
            Produced(s.producers) == Consumed(s.consumers) <==> s.list == []
  {
    NothingLost(states, labels, |labels|);
    NobodyHolds(states[|labels|].consumers);
  }

  lemma {:induction false} NobodyHolds(cs: seq<Consumer>)
    requires forall j :: 0 <= j < |cs| ==> !cs[j].phase.Holding?
    ensures InFlight(cs) == 0
  {
    if cs != [] { NobodyHolds(cs[..|cs| - 1]); }
  }

  // ----- order, and how much each producer makes

  function Pushed(labels: seq<Label>): (items: seq<int>)
  {
    if labels == [] then []
    else
      var n := |labels| - 1;
      Pushed(labels[..n]) + (if labels[n].Push? then [labels[n].item] else [])
  }

  function Popped(labels: seq<Label>): (items: seq<int>)
  {
    if labels == [] then []
    else
      var n := |labels| - 1;
      Popped(labels[..n]) + (if labels[n].Pop? then [labels[n].item] else [])
  }

  /** Consumers receive the items in exactly the order they were pushed. */
  lemma {:induction false} ItemsInOrder(states: seq<State>, labels: seq<Label>, i: nat)
    requires Execution(states, labels) && i < |states|
    ensures Popped(labels[..i]) + states[i].list == Pushed(labels[..i])
  {
    if i > 0 {
      hide Step, Pushed, Popped;
      ItemsInOrder(states, labels, i - 1);
      StepOf(states, labels, i - 1);
      OrderStep(states[i - 1], labels[i - 1], states[i], labels[..i - 1]);
    }
  }

  lemma OrderStep(s: State, l: Label, s': State, before: seq<Label>)
    requires Step(s, l, s') && Popped(before) + s.list == Pushed(before)
    ensures Popped(before + [l]) + s'.list == Pushed(before + [l])
  {
    hide Step, Pushed, Popped;
    ListEffect(s, l, s');
    HistorySnoc(before, l);
    if l.Push? {
      Regroup(Popped(before), s.list, [l.item]);
    } else if l.Pop? {
      Regroup(Popped(before), [l.item], s'.list);
    }
  }

  lemma Regroup(a: seq<int>, b: seq<int>, c: seq<int>)
    ensures a + (b + c) == a + b + c
  {
  }

  lemma HistorySnoc(labels: seq<Label>, l: Label)
    ensures Pushed(labels + [l]) == if l.Push? then Pushed(labels) + [l.item] else Pushed(labels)
    ensures Popped(labels + [l]) == if l.Pop? then Popped(labels) + [l.item] else Popped(labels)
  {
    assert (labels + [l])[..|labels|] == labels;
  }

  lemma ListEffect(s: State, l: Label, s': State)
    requires Step(s, l, s')
    ensures if l.Push? then s'.list == s.list + [l.item]
            else if l.Pop? then s.list == [l.item] + s'.list
            else s'.list == s.list
  {
  }

  /** The primes in [lo, hi), in increasing order. */
  ghost function PrimesIn(lo: int, hi: int): (ps: seq<int>)
    decreases hi - lo
  {
    if hi <= lo then [] else PrimesIn(lo, hi - 1) + (if Prime(hi - 1) then [hi - 1] else [])
  }

  ghost predicate Increasing(ps: seq<int>)
  {
    forall i, j :: 0 <= i < j < |ps| ==> ps[i] < ps[j]
  }

  lemma {:induction false} PrimesInExactly(lo: int, hi: int)
    ensures forall n :: n in PrimesIn(lo, hi) <==> lo <= n < hi && Prime(n)
    ensures Increasing(PrimesIn(lo, hi))
    decreases hi - lo
  {
    hide Prime;
    if lo < hi {
      PrimesInExactly(lo, hi - 1);
      var ps := PrimesIn(lo, hi - 1);
      assert forall i :: 0 <= i < |ps| ==> ps[i] in ps;
    }
  }

  /** What producer `p` tried to push, with or without success, in order. */
  function Offered(labels: seq<Label>, p: nat): (items: seq<int>)
  {
    if labels == [] then []
    else
      var n := |labels| - 1;
      Offered(labels[..n], p) + (if Offers(labels[n], p) then [labels[n].item] else [])
  }

  predicate Offers(l: Label, p: nat)
  {
    (l.Push? || l.Refuse?) && l.i == p
  }

  /** The counters of a producer against the items it offered. */
  ghost predicate Diligent(p: Producer, offered: seq<int>)
  {
    FIRST <= p.k && offered == PrimesIn(FIRST, p.k) && p.counter + p.refused == |offered|
  }

  /**
    Every producer has offered each prime from 1000 up to its position exactly once, in
    increasing order, and its counter is the number of those that got memory.
   */
  lemma {:induction false} ProducersMissNothing(states: seq<State>, labels: seq<Label>, i: nat, p: nat)
    requires Execution(states, labels) && i < |states| && p < |states[0].producers|
    ensures |states[i].producers| == |states[0].producers|
    ensures Diligent(states[i].producers[p], Offered(labels[..i], p))
  {
    if i == 0 {
      assert labels[..0] == [];
    } else {
      hide Step, Diligent;
      var before, l := labels[..i - 1], labels[i - 1];
      ProducersMissNothing(states, labels, i - 1, p);
      StepOf(states, labels, i - 1);
      assert (before + [l])[..i - 1] == before;
      ProducerEffect(states[i - 1], l, states[i], p, Offered(before, p));
    }
  }

  /** One step of producer `p`, or of somebody else. */
  lemma ProducerMoves(s: State, l: Label, s': State, p: nat)
    requires Step(s, l, s') && p < |s.producers|
    ensures |s'.producers| == |s.producers|
    ensures var a, b := s.producers[p], s'.producers[p];
            if Offers(l, p) then
              Prime(a.k) && l.item == a.k && b.k == a.k + 1 && b.counter + b.refused == a.counter + a.refused + 1
            else if l.Skip? && l.i == p then !Prime(a.k) && b == a.(k := a.k + 1)
            else b == a
  {
    hide Prime;
  }

  lemma ProducerEffect(s: State, l: Label, s': State, p: nat, offered: seq<int>)
    requires Step(s, l, s') && p < |s.producers| && Diligent(s.producers[p], offered)
    ensures |s'.producers| == |s.producers|
    ensures Diligent(s'.producers[p], offered + (if Offers(l, p) then [l.item] else []))
  {
    ProducerMoves(s, l, s', p);
    hide Prime, Step;
    assert PrimesIn(FIRST, s.producers[p].k + 1)
        == offered + (if Prime(s.producers[p].k) then [s.producers[p].k] else []);
    assert offered + [] == offered;
  }

  // ----- what each thread can do next

  /** A consumer is about to look at the list: it is starting over, or was woken before the end. */
  lemma ConsumerSteps(s: State, j: nat, item: int)
    requires j < |s.consumers|
    ensures var p := s.consumers[j].phase;
            && (CanStep(s, Wait(j)) <==> s.list == [] && (p == Ready || (p == Woken && !s.finished)))
            && (CanStep(s, Pop(j, item))
                <==> s.list != [] && s.list[0] == item && (p == Ready || (p == Woken && !s.finished)))
            && (CanStep(s, Quit(j)) <==> p == Woken && s.finished)
            && (CanStep(s, Count(j)) <==> p.Holding?)
            && (CanStep(s, Wakeup(j)) <==> p == Asleep)
  {
    var c := s.consumers[j];
    PossibleIf(s, Wait(j), s.(consumers := s.consumers[j := c.(phase := Asleep)]));
    if s.list != [] {
      PossibleIf(s, Pop(j, item), s.(list := s.list[1..], consumers := s.consumers[j := c.(phase := Holding(item))]));
    }
    PossibleIf(s, Quit(j), s.(consumers := s.consumers[j := c.(phase := Exited)]));
    PossibleIf(s, Count(j), s.(consumers := s.consumers[j := Consumer(Ready, c.counter + 1)]));
    PossibleIf(s, Wakeup(j), s.(consumers := s.consumers[j := c.(phase := Woken)]));
  }

  ghost predicate CanStep(s: State, l: Label)
  {
    exists s' :: Step(s, l, s')
  }

  lemma PossibleIf(s: State, l: Label, s': State)
    ensures Step(s, l, s') ==> CanStep(s, l)
  {
    hide Step;
  }

  /** A producer skips what is not prime and offers what is, until it reaches the end of the range. */
  lemma ProducerSteps(s: State, i: nat, item: int)
    requires i < |s.producers|
    ensures var k := s.producers[i].k;
            && (CanStep(s, Skip(i)) <==> k < LIMIT && !Prime(k))
            && (CanStep(s, Push(i, item)) <==> k < LIMIT && Prime(k) && item == k)
            && (CanStep(s, Refuse(i, item)) <==> k < LIMIT && Prime(k) && item == k)
  {
    hide Prime;
    var p := s.producers[i];
    PossibleIf(s, Skip(i), s.(producers := s.producers[i := p.(k := p.k + 1)]));
    PossibleIf(s, Refuse(i, item), s.(producers := s.producers[i := Producer(p.k + 1, p.counter, p.refused + 1)]));
    AllSignalled(s.consumers);
    PossibleIf(s, Push(i, item),
               State(s.list + [item], s.finished, s.producers[i := Producer(p.k + 1, p.counter + 1, p.refused)],
                     WakeAll(s.consumers)));
  }

  lemma AllSignalled(cs: seq<Consumer>)
    ensures Signalled(cs, WakeAll(cs))
  {
    if j :| 0 <= j < |cs| && cs[j].phase.Asleep? {
      assert WakeAll(cs)[j].phase.Woken?;
    }
  }

  // ----- wakeups

  function AwakeCount(cs: seq<Consumer>): (n: nat)
  {
    if cs == [] then 0 else AwakeCount(cs[..|cs| - 1]) + (if cs[|cs| - 1].phase.Woken? then 1 else 0)
  }

  lemma {:induction false} WokenUpdate(cs: seq<Consumer>, j: nat, c: Consumer)
    requires j < |cs|
    ensures AwakeCount(cs[j := c])
            == AwakeCount(cs) - (if cs[j].phase.Woken? then 1 else 0) + (if c.phase.Woken? then 1 else 0)
  {
    var n := |cs| - 1;
    if j < n {
      assert cs[j := c][..n] == cs[..n][j := c];
      WokenUpdate(cs[..n], j, c);
    } else {
      assert cs[j := c][..n] == cs[..n];
    }
  }

  ghost predicate SomeAsleep(cs: seq<Consumer>)
  {
    exists j :: 0 <= j < |cs| && cs[j].phase.Asleep?
  }

  /** Waking up only adds to those awake, and a signal to sleepers adds at least one. */
  lemma {:induction false} WakingCounts(cs: seq<Consumer>, cs': seq<Consumer>)
    requires OnlyWakes(cs, cs')
    ensures AwakeCount(cs') >= AwakeCount(cs)
    ensures (exists j :: 0 <= j < |cs| && cs[j].phase.Asleep? && cs'[j].phase.Woken?) ==>
              AwakeCount(cs') > AwakeCount(cs)
  {
    if cs != [] {
      var n := |cs| - 1;
      WakingCounts(cs[..n], cs'[..n]);
      if j :| 0 <= j < |cs| && cs[j].phase.Asleep? && cs'[j].phase.Woken? {
        assert j < n ==> cs[..n][j].phase.Asleep? && cs'[..n][j].phase.Woken?;
      }
    }
  }

  /** While nothing is announced, consumers sleep only if every listed item has a woken consumer. */
  ghost predicate NoLostWakeup(s: State)
  {
    !s.finished && SomeAsleep(s.consumers) ==> |s.list| <= AwakeCount(s.consumers)
  }

  lemma PushWakes(s: State, l: Label, s': State)
    requires l.Push? && Step(s, l, s') && NoLostWakeup(s)
    ensures NoLostWakeup(s')
  {
    hide Prime;
    WakingCounts(s.consumers, s'.consumers);
    if SomeAsleep(s'.consumers) {
      var j :| 0 <= j < |s'.consumers| && s'.consumers[j].phase.Asleep?;
      assert s.consumers[j].phase.Asleep?;
    }
  }

  lemma ConsumerKeepsWakeups(s: State, l: Label, s': State, j: nat)
    requires j < |s.consumers| && ConsumerStep(s, l, s', j) && NoLostWakeup(s)
    ensures NoLostWakeup(s')
  {
    WokenUpdate(s.consumers, j, s'.consumers[j]);
    if SomeAsleep(s'.consumers) {
      var k :| 0 <= k < |s'.consumers| && s'.consumers[k].phase.Asleep?;
      assert k != j ==> s.consumers[k].phase.Asleep?;
    }
  }

  lemma StepKeepsWakeups(s: State, l: Label, s': State)
    requires Step(s, l, s') && NoLostWakeup(s)
    ensures NoLostWakeup(s')
  {
    match l
    case Push(_, _) => PushWakes(s, l, s');
    case Skip(_) => assert s'.consumers == s.consumers && s'.list == s.list;
    case Refuse(_, _) => assert s'.consumers == s.consumers && s'.list == s.list;
    case Finish =>
    case Broadcast =>
    case _ => ConsumerKeepsWakeups(s, l, s', l.j);
  }

  /**
    No lost wakeup before the end: in every interleaving, until main announces the end, a
    sleeping consumer means that every item on the list has a woken consumer coming for it.
   */
  lemma {:induction false} NoLostWakeups(states: seq<State>, labels: seq<Label>, i: nat)
    requires Execution(states, labels) && i < |states|
    ensures NoLostWakeup(states[i])
  {
    if i > 0 {
      hide Step, NoLostWakeup;
      NoLostWakeups(states, labels, i - 1);
      StepOf(states, labels, i - 1);
      StepKeepsWakeups(states[i - 1], labels[i - 1], states[i]);
    }
  }

  lemma BroadcastStep(s: State, s': State)
    requires Step(s, Broadcast, s')
    ensures !SomeAsleep(s'.consumers)
  {
  }

  /** The announcement can be made once all producers are done, and its broadcast leaves nobody asleep. */
  lemma AnnouncementWakesAll(s: State)
    ensures CanStep(s, Finish) <==> ProducersDone(s)
    ensures CanStep(s, Broadcast) <==> s.finished
    ensures forall s' :: Step(s, Broadcast, s') ==> !SomeAsleep(s'.consumers)
  {
    PossibleIf(s, Finish, s.(finished := true));
    PossibleIf(s, Broadcast, s.(consumers := WakeAll(s.consumers)));
    forall s' | Step(s, Broadcast, s') ensures !SomeAsleep(s'.consumers) { BroadcastStep(s, s'); }
  }

  // ----- items can be left behind

  predicate NoDivisorUpTo(n: int, d: int)
    decreases d
  {
    d < 2 || (n % d != 0 && NoDivisorUpTo(n, d - 1))
  }

  lemma {:induction false} NoDivisor(n: int, d: int, k: int)
    requires NoDivisorUpTo(n, d) && 2 <= k <= d
    ensures n % k != 0
    decreases d
  {
    if k < d { NoDivisor(n, d - 1, k); }
  }

  lemma LargeFactors(a: nat, b: nat)
    requires 32 <= a <= b
    ensures Times(a, b) >= 1024
  {
    MulMonotone(32, b, a);
    MulMonotone(32, a, 32);
    assert b * a == Times(a, b);
  }

  lemma Prime1009()
    ensures Prime(1009)
  {
    assert NoDivisorUpTo(1009, 3) && NoDivisorUpTo(1009, 5) && NoDivisorUpTo(1009, 7) && NoDivisorUpTo(1009, 9);
    assert NoDivisorUpTo(1009, 11) && NoDivisorUpTo(1009, 13) && NoDivisorUpTo(1009, 15) && NoDivisorUpTo(1009, 17);
    assert NoDivisorUpTo(1009, 19) && NoDivisorUpTo(1009, 21) && NoDivisorUpTo(1009, 23) && NoDivisorUpTo(1009, 25);
    assert NoDivisorUpTo(1009, 27) && NoDivisorUpTo(1009, 29) && NoDivisorUpTo(1009, 31);
    forall a, b | a >= 2 && b >= 2
      ensures Times(a, b) != 1009
    {
      if Times(a, b) == 1009 {
        var small, large := if a <= b then a else b, if a <= b then b else a;
        assert Times(small, large) == 1009;
        if small > 31 { LargeFactors(small, large); }
        FactorDivides(small, large);
        NoDivisor(1009, 31, small);
        assert false;
      }
    }
  }

  /** One producer somewhere in its loop and one consumer that has gone to sleep. */
  ghost predicate Sleeping(s: State)
  {
    && |s.producers| == 1 && |s.consumers| == 1 && !s.finished
    && FIRST <= s.producers[0].k <= LIMIT
    && s.consumers[0] == Consumer(if s.list == [] then Asleep else Woken, 0)
    && (s.producers[0].k > 1009 ==> s.list != [])
  }

  lemma Continue(states: seq<State>, labels: seq<Label>, l: Label, s': State)
    requires Execution(states, labels) && Step(states[|labels|], l, s')
    ensures Execution(states + [s'], labels + [l])
  {
    var more, ls := states + [s'], labels + [l];
    forall i | 0 <= i < |ls|
      ensures StepAt(more, ls, i)
    {
      if i < |labels| { StepOf(states, labels, i); }
    }
  }

  lemma ProduceOne(s: State) returns (l: Label, s': State)
    requires Sleeping(s) && s.producers[0].k < LIMIT
    ensures Step(s, l, s') && Sleeping(s') && s'.producers[0].k == s.producers[0].k + 1
  {
    Prime1009();
    hide Prime;
    var p := s.producers[0];
    if Prime(p.k) {
      l := Push(0, p.k);
      s' := State(s.list + [p.k], false, s.producers[0 := Producer(p.k + 1, p.counter + 1, p.refused)],
                  WakeAll(s.consumers));
      assert s.consumers[0].phase.Asleep? ==> s'.consumers[0].phase.Woken?;
    } else {
      l := Skip(0);
      s' := s.(producers := s.producers[0 := p.(k := p.k + 1)]);
    }
  }

  lemma {:induction false} ProduceAll(states: seq<State>, labels: seq<Label>)
    returns (states': seq<State>, labels': seq<Label>)
    requires Execution(states, labels) && Sleeping(states[|labels|])
    ensures Execution(states', labels')
    ensures Sleeping(states'[|labels'|]) && states'[|labels'|].producers[0].k == LIMIT
    decreases LIMIT - states[|labels|].producers[0].k
  {
    if states[|labels|].producers[0].k == LIMIT {
      states', labels' := states, labels;
    } else {
      var l, s' := ProduceOne(states[|labels|]);
      Continue(states, labels, l, s');
      states', labels' := ProduceAll(states + [s'], labels + [l]);
    }
  }

  /**
    The list need not be empty: a consumer that sleeps through the production wakes up to
    `finished` and leaves without looking at the list again.
   */
  lemma ItemsLeftBehind() returns (states: seq<State>, labels: seq<Label>)
    ensures Execution(states, labels) && AllExited(states[|labels|])
    ensures states[|labels|].list != []
  {
    var s0 := State([], false, [Producer(FIRST, 0, 0)], [Consumer(Ready, 0)]);
    var s1 := s0.(consumers := [Consumer(Asleep, 0)]);
    assert ConsumerStep(s0, Wait(0), s1, 0) && StepAt([s0, s1], [Wait(0)], 0);
    states, labels := ProduceAll([s0, s1], [Wait(0)]);
    var s := states[|labels|];
    var f := s.(finished := true);
    Continue(states, labels, Finish, f);
    var e := f.(consumers := f.consumers[0 := f.consumers[0].(phase := Exited)]);
    Continue(states + [f], labels + [Finish], Quit(0), e);
    states, labels := states + [f] + [e], labels + [Finish] + [Quit(0)];
  }
}
