/**
  The queue object under the protocol: each method call, together with what the condition
  variable operations it made do to the waiting threads, is one step of QueueProtocol.
 */
module QueueReplay {
  import opened Machine
  import opened RingBuffer
  import opened QueueSections
  import opened QueueObject
  import opened QueueProtocol

  // ----- what the operations mean

  /** The two condition variables. */
  datatype Conds = Conds(push: Cond, pop: Cond)

  function Of(cs: Conds, c: Condition): (v: Cond)
  {
    if c.CondPush? then cs.push else cs.pop
  }

  function Other(c: Condition): (o: Condition)
  {
    if c.CondPush? then CondPop else CondPush
  }

  /** One operation by thread `t`, after POSIX: it concerns one condition variable only. */
  predicate Effect(op: CondOp, t: Tid, cs: Conds, cs': Conds)
  {
    && Of(cs', Other(op.c)) == Of(cs, Other(op.c))
    && match op
       case Wait(c) => Of(cs', c) == Of(cs, c).Sleep(t)
       case Signal(c) => Signalled(Of(cs, c), Of(cs', c))
       case Broadcast(c) => Of(cs', c) == Of(cs, c).Wake(Of(cs, c).asleep)
  }

  ghost predicate Effects(ops: seq<CondOp>, t: Tid, cs: Conds, cs': Conds)
    decreases |ops|
  {
    if ops == [] then cs' == cs
    else exists mid :: Effect(ops[0], t, cs, mid) && Effects(ops[1..], t, mid, cs')
  }

  lemma NoEffect(t: Tid, cs: Conds, cs': Conds)
    ensures Effects([], t, cs, cs') <==> cs' == cs
  {
  }

  lemma OneEffect(op: CondOp, t: Tid, cs: Conds, cs': Conds)
    ensures Effects([op], t, cs, cs') <==> Effect(op, t, cs, cs')
  {
    hide Effect;
    assert [op][1..] == [];
    if Effect(op, t, cs, cs') { NoEffect(t, cs', cs'); }
  }

  lemma TwoEffects(p: CondOp, q: CondOp, t: Tid, cs: Conds, cs': Conds)
    requires Effects([p, q], t, cs, cs')
    ensures exists mid :: Effect(p, t, cs, mid) && Effect(q, t, mid, cs')
  {
    hide Effect;
    assert [p, q][1..] == [q];
    var mid :| Effect(p, t, cs, mid) && Effects([q], t, mid, cs');
    OneEffect(q, t, mid, cs');
  }

  /** Whatever operations were made, they can take effect: a signal may wake everyone. */
  lemma {:induction false} EffectsHappen(ops: seq<CondOp>, t: Tid, cs: Conds) returns (cs': Conds)
    ensures Effects(ops, t, cs, cs')
  {
    if ops == [] {
      cs' := cs;
    } else {
      var mid := OneHappens(ops[0], t, cs);
      cs' := EffectsHappen(ops[1..], t, mid);
    }
  }

  lemma OneHappens(op: CondOp, t: Tid, cs: Conds) returns (cs': Conds)
    ensures Effect(op, t, cs, cs')
  {
    var v := Of(cs, op.c);
    var w := if op.Wait? then v.Sleep(t) else v.Wake(v.asleep);
    assert op.Signal? ==> w == v.Wake(v.asleep - w.asleep);
    cs' := if op.c.CondPush? then cs.(push := w) else cs.(pop := w);
  }

  // ----- the calls

  /** The protocol state of an object, given who waits where. */
  ghost predicate Shows(q: Queue, s: State)
    reads q, q.memory
  {
    q.View() == s.shared
  }

  /** What the object may become when the operations recorded since `before` take effect. */
  ghost predicate After(q: Queue, before: nat, t: Tid, cs: Conds, s': State)
    reads q, q.memory
  {
    before <= |q.condOps| && Shows(q, s') && Effects(q.condOps[before..], t, cs, Conds(s'.push, s'.pop))
  }

  lemma PushEffects(o: Outcome, t: Tid, cs: Conds, cs': Conds)
    ensures Effects(PushOps(o), t, cs, cs')
            <==> && cs'.push == (if o.Blocks? then cs.push.Sleep(t) else cs.push)
                 && (if Done(o) then Signalled(cs.pop, cs'.pop) else cs'.pop == cs.pop)
  {
    NoEffect(t, cs, cs');
    OneEffect(Signal(CondPop), t, cs, cs');
    OneEffect(Wait(CondPush), t, cs, cs');
    hide Effects, Signalled;
  }

  lemma PopEffects(o: Outcome, t: Tid, cs: Conds, cs': Conds)
    ensures Effects(PopOps(o), t, cs, cs')
            <==> && cs'.pop == (if o.Blocks? then cs.pop.Sleep(t) else cs.pop)
                 && (if Done(o) then Signalled(cs.push, cs'.push) else cs'.push == cs.push)
  {
    NoEffect(t, cs, cs');
    OneEffect(Signal(CondPush), t, cs, cs');
    OneEffect(Wait(CondPop), t, cs, cs');
    hide Effects, Signalled;
  }

  /** A section and the effects of its operations make a step. */
  lemma PushIsStep(s: State, e: Elem, resumed: bool, t: Tid, o: Outcome, s': State)
    requires Inv(s) && Runs(s, s.push, t, resumed) && |e| == s.shared.ring.elemSize
    requires resumed ==> s.shared.waitingPush > 0
    requires (s'.shared, o) == PushSection(s.shared, e, resumed)
    requires Effects(PushOps(o), t, Conds(s.push.Leave(t, resumed), s.pop), Conds(s'.push, s'.pop))
    ensures Step(AtWrite, s, QueueProtocol.Push(t, e, resumed, o), s') && Inv(s')
  {
    PushEffects(o, t, Conds(s.push.Leave(t, resumed), s.pop), Conds(s'.push, s'.pop));
    hide PushSection, Effects, Signalled;
    assert Step(AtWrite, s, QueueProtocol.Push(t, e, resumed, o), s');
    hide Step, Inv;
    StepKeepsInv(AtWrite, s, QueueProtocol.Push(t, e, resumed, o), s');
  }

  lemma PopIsStep(s: State, copied: Option<Elem>, resumed: bool, t: Tid, o: Outcome, s': State)
    requires Inv(s) && Runs(s, s.pop, t, resumed) && (resumed ==> s.shared.waitingPop > 0)
    requires (s'.shared, o) == PopSection(s.shared, resumed)
    requires Done(o) ==> Copies(s.shared.ring, AtWrite, copied)
    requires Effects(PopOps(o), t, Conds(s.push, s.pop.Leave(t, resumed)), Conds(s'.push, s'.pop))
    ensures Step(AtWrite, s, QueueProtocol.Pop(t, resumed, o, copied), s') && Inv(s')
  {
    PopEffects(o, t, Conds(s.push, s.pop.Leave(t, resumed)), Conds(s'.push, s'.pop));
    hide PopSection, Effects, Signalled, Copies;
    assert Step(AtWrite, s, QueueProtocol.Pop(t, resumed, o, copied), s');
    hide Step, Inv;
    StepKeepsInv(AtWrite, s, QueueProtocol.Pop(t, resumed, o, copied), s');
  }

  /** queue_push, or its continuation after a wait: whatever the wakeups do, a protocol step. */
  method Push(q: Queue, elem: array<byte>, resumed: bool, t: Tid, ghost s: State) returns (o: Outcome)
    requires Shows(q, s) && Inv(s) && Runs(s, s.push, t, resumed)
    requires elem != q.memory && elem.Length >= q.elemSize
    modifies q, q.memory
    ensures forall s' | After(q, |old(q.condOps)|, t, Conds(s.push.Leave(t, resumed), s.pop), s') ::
              Step(AtWrite, s, QueueProtocol.Push(t, old(elem[..q.elemSize]), resumed, o), s') && Inv(s')
  {
    ghost var cs := Conds(s.push.Leave(t, resumed), s.pop);
    ghost var n, e := |q.condOps|, elem[..q.elemSize];
    if resumed { Waiting(s, t); }
    o := q.Push(elem, resumed);
    hide PushSection, Inv, Step, Effects;
    forall s' | After(q, n, t, cs, s')
      ensures Step(AtWrite, s, QueueProtocol.Push(t, e, resumed, o), s') && Inv(s')
    {
      assert q.condOps[n..] == PushOps(o);
      PushIsStep(s, e, resumed, t, o, s');
    }
  }

  lemma Waiting(s: State, t: Tid)
    requires Inv(s)
    ensures t in s.push.woken ==> s.shared.waitingPush > 0
    ensures t in s.pop.woken ==> s.shared.waitingPop > 0
  {
    assert t in s.push.woken ==> |s.push.woken| > 0;
    assert t in s.pop.woken ==> |s.pop.woken| > 0;
  }

  /** queue_pop, with or without somewhere to copy to. */
  method Pop(q: Queue, elem: array?<byte>, resumed: bool, t: Tid, ghost s: State) returns (o: Outcome)
    requires Shows(q, s) && Inv(s) && Runs(s, s.pop, t, resumed)
    requires elem != null ==> elem != q.memory && elem.Length >= q.elemSize
    modifies q, elem
    ensures forall s' | After(q, |old(q.condOps)|, t, Conds(s.push, s.pop.Leave(t, resumed)), s') ::
              Step(AtWrite, s, QueueProtocol.Pop(t, resumed, o, Copied(q, elem)), s') && Inv(s')
  {
    ghost var cs := Conds(s.push, s.pop.Leave(t, resumed));
    ghost var n := |q.condOps|;
    if resumed { Waiting(s, t); }
    o := q.Pop(elem, resumed);
    assert Done(o) ==> Copies(s.shared.ring, AtWrite, Copied(q, elem));
    hide PopSection, Inv, Step, Effects, Copies;
    forall s' | After(q, n, t, cs, s')
      ensures Step(AtWrite, s, QueueProtocol.Pop(t, resumed, o, Copied(q, elem)), s') && Inv(s')
    {
      assert q.condOps[n..] == PopOps(o);
      PopIsStep(s, Copied(q, elem), resumed, t, o, s');
    }
  }

  /** What the caller finds in its buffer. */
  function Copied(q: Queue, elem: array?<byte>): (c: Option<Elem>)
    requires elem != null ==> elem.Length >= q.elemSize
    reads elem
  {
    if elem == null then None else Some(elem[..q.elemSize])
  }

  /** queue_try_push. */
  method TryPush(q: Queue, elem: array<byte>, locked: bool, t: Tid, ghost s: State) returns (o: Outcome)
    requires Shows(q, s) && Inv(s) && Idle(s, t)
    requires elem != q.memory && elem.Length >= q.elemSize
    modifies q, q.memory
    ensures forall s' | After(q, |old(q.condOps)|, t, Conds(s.push, s.pop), s') ::
              Step(AtWrite, s, QueueProtocol.TryPush(t, old(elem[..q.elemSize]), locked, o), s') && Inv(s')
  {
    ghost var n, e := |q.condOps|, elem[..q.elemSize];
    o := q.TryPush(elem, locked);
    assert !o.Blocks?;
    hide TryPushSection, Inv;
    forall s' | After(q, n, t, Conds(s.push, s.pop), s')
      ensures Step(AtWrite, s, QueueProtocol.TryPush(t, e, locked, o), s') && Inv(s')
    {
      assert q.condOps[n..] == PushOps(o);
      PushEffects(o, t, Conds(s.push, s.pop), Conds(s'.push, s'.pop));
      StepKeepsInv(AtWrite, s, QueueProtocol.TryPush(t, e, locked, o), s');
    }
  }

  /** queue_try_pop. */
  method TryPop(q: Queue, elem: array?<byte>, locked: bool, t: Tid, ghost s: State) returns (o: Outcome)
    requires Shows(q, s) && Inv(s) && Idle(s, t)
    requires elem != null ==> elem != q.memory && elem.Length >= q.elemSize
    modifies q, elem
    ensures forall s' | After(q, |old(q.condOps)|, t, Conds(s.push, s.pop), s') ::
              Step(AtWrite, s, QueueProtocol.TryPop(t, locked, o, Copied(q, elem)), s') && Inv(s')
  {
    ghost var n := |q.condOps|;
    o := q.TryPop(elem, locked);
    assert !o.Blocks?;
    hide TryPopSection, Inv;
    forall s' | After(q, n, t, Conds(s.push, s.pop), s')
      ensures Step(AtWrite, s, QueueProtocol.TryPop(t, locked, o, Copied(q, elem)), s') && Inv(s')
    {
      assert q.condOps[n..] == PopOps(o);
      PopEffects(o, t, Conds(s.push, s.pop), Conds(s'.push, s'.pop));
      StepKeepsInv(AtWrite, s, QueueProtocol.TryPop(t, locked, o, Copied(q, elem)), s');
    }
  }

  /** Either push with a null argument. */
  method NullPush(q: Queue, try: bool, locked: bool, t: Tid, ghost s: State) returns (o: Outcome)
    requires Shows(q, s) && Inv(s) && Idle(s, t)
    modifies q, q.memory
    ensures forall s' | After(q, |old(q.condOps)|, t, Conds(s.push, s.pop), s') ::
              Step(AtWrite, s, QueueProtocol.NullPush(t, o), s') && s' == s
  {
    if try {
      o := q.TryPush(null, locked);
    } else {
      o := q.Push(null, false);
    }
    NoEffectForall(t, Conds(s.push, s.pop));
    assert q.condOps[|old(q.condOps)|..] == [];
  }

  lemma NoEffectForall(t: Tid, cs: Conds)
    ensures forall cs' :: Effects([], t, cs, cs') <==> cs' == cs
  {
  }

  /** queue_abort. */
  method Abort(q: Queue, t: Tid, ghost s: State)
    requires Shows(q, s) && Inv(s) && Idle(s, t)
    modifies q
    ensures forall s' | After(q, |old(q.condOps)|, t, Conds(s.push, s.pop), s') ::
              Step(AtWrite, s, QueueProtocol.Abort(t), s') && Inv(s')
  {
    ghost var n := |q.condOps|;
    q.Abort();
    hide Inv;
    forall s' | After(q, n, t, Conds(s.push, s.pop), s')
      ensures Step(AtWrite, s, QueueProtocol.Abort(t), s') && Inv(s')
    {
      assert q.condOps[n..] == [Broadcast(CondPop), Broadcast(CondPush)];
      TwoEffects(Broadcast(CondPop), Broadcast(CondPush), t, Conds(s.push, s.pop), Conds(s'.push, s'.pop));
      StepKeepsInv(AtWrite, s, QueueProtocol.Abort(t), s');
    }
  }
}
