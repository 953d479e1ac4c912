/** ex09/primes/list.c: a singly linked list with head, tail and size. */
module PrimeList {

  class Node {
    var next: Node?
    var value: int

    constructor (value: int)
      ensures this.value == value && next == null
    {
      this.value := value;
      next := null;
    }
  }

  class List {
    var head: Node?
    var tail: Node?
    var size: nat
    ghost var nodes: seq<Node>

    /** `head` reaches exactly the `size` distinct nodes of the spine, ending at `tail`. */
    ghost predicate Valid()
      reads this, nodes
    {
      && size == |nodes|
      && Distinct(nodes)
      && (forall i :: 0 <= i < |nodes| ==> nodes[i].next == After(nodes, i))
      && head == (if nodes == [] then null else nodes[0])
      && tail == (if nodes == [] then null else nodes[|nodes| - 1])
    }

    /** The successor of node `i` in a spine. */
    static ghost function After(spine: seq<Node>, i: nat): (n: Node?)
    {
      if i + 1 < |spine| then spine[i + 1] else null
    }

    ghost function Values(): (vs: seq<int>)
      reads this, nodes
      ensures |vs| == |nodes|
    {
      seq(|nodes|, i requires 0 <= i < |nodes| reads this, nodes => nodes[i].value)
    }

    constructor ()
      ensures Valid() && nodes == [] && Values() == []
    {
      head, tail, size := null, null, 0;
      nodes := [];
    }

    /** list_push; `granted` tells whether malloc succeeded. */
    method Push(value: int, granted: bool) returns (ok: bool)
      requires Valid()
      modifies this, nodes
      ensures Valid() && ok == granted
      ensures ok ==> Values() == old(Values()) + [value]
      ensures ok ==> |nodes| == |old(nodes)| + 1 && nodes[..|old(nodes)|] == old(nodes) && fresh(nodes[|old(nodes)|])
      ensures !ok ==> nodes == old(nodes) && Values() == old(Values())
    {
      if !granted {
        return false;
      }
      var node := new Node(value);
      if head == null {
        head := node;
      } else {
        tail.next := node;
      }
      tail := node;
      size := size + 1;
      nodes := nodes + [node];
      return true;
    }

    /** list_pop with a null value pointer; `rm` is the node handed to free(). */
    method Unlink() returns (ok: bool, rm: Node?)
      requires Valid()
      modifies this
      ensures Valid() && (ok <==> old(nodes) != [])
      ensures ok ==> nodes == old(nodes)[1..] && rm == old(nodes)[0]
      ensures !ok ==> nodes == old(nodes) && rm == null
    {
      if size == 0 {
        return false, null;
      }
      rm := head;
      assert nodes[0].next == After(nodes, 0);
      assert forall i :: 0 <= i < |nodes| - 1 ==>
                           nodes[1..][i] == nodes[i + 1] && After(nodes[1..], i) == After(nodes, i + 1);
      head := head.next;
      if head == null {
        tail := null;
      }
      size := size - 1;
      nodes := nodes[1..];
      return true, rm;
    }

    /** list_pop with somewhere to store the value. */
    method Pop() returns (ok: bool, value: int, rm: Node?)
      requires Valid()
      modifies this
      ensures Valid() && (ok <==> old(nodes) != [])
      ensures ok ==> nodes == old(nodes)[1..] && rm == old(nodes)[0]
      ensures ok ==> value == old(Values())[0] && Values() == old(Values())[1..]
      ensures !ok ==> nodes == old(nodes) && Values() == old(Values()) && rm == null
    {
      hide Valid;
      value := 0;
      ok, rm := Unlink();
      if ok {
        value := rm.value;
      }
    }

    /** list_destroy: the nodes are freed in order, each exactly once, none remains, then the list. */
    method Destroy() returns (freed: seq<Node>, last: List)
      requires Valid()
      modifies this
      ensures last == this
      ensures freed == old(nodes)
      ensures Distinct(freed)
      ensures nodes == [] && head == null && tail == null && size == 0
    {
      hide Valid, Values, Distinct;
      ghost var spine := nodes;
      SpineIsDistinct();
      freed := [];
      var more := true;
      assert freed + nodes == spine;
      while more
        invariant Valid()
        invariant freed + nodes == spine
        invariant !more ==> nodes == []
        decreases |nodes|, more
      {
        ghost var left := nodes;
        var rm;
        more, rm := Unlink();
        if more {
          Regroup(freed, left, nodes);
          freed := freed + [rm];
        }
      }
      assert freed == freed + nodes;
      EmptyShape();
      last := this;
    }

    lemma SpineIsDistinct()
      requires Valid()
      ensures Distinct(nodes)
    {
    }

    lemma EmptyShape()
      requires Valid() && nodes == []
      ensures head == null && tail == null && size == 0
    {
    }

    /** Any run of pushes and pops is first in, first out. */
    method Drive(ops: seq<Op>) returns (popped: seq<int>)
      requires Valid()
      modifies this, nodes
      ensures Valid()
      ensures popped + Values() == old(Values()) + Pushes(ops)
    {
      hide Valid, Values;
      popped := [];
      ghost var start := Values();
      for i := 0 to |ops|
        invariant Valid()
        invariant popped + Values() == start + Pushes(ops[..i])
        invariant fresh(set n | n in nodes && n !in old(nodes))
      {
        assert ops[..i + 1][..i] == ops[..i];
        ghost var before := Values();
        match ops[i]
        case Push(v) =>
          var ok := Push(v, true);
          assert popped + (before + [v]) == (popped + before) + [v];
          assert start + (Pushes(ops[..i]) + [v]) == (start + Pushes(ops[..i])) + [v];
        case Fail(v) =>
          var ok := Push(v, false);
        case Pop =>
          var ok, v, rm := Pop();
          if ok {
            assert before == [v] + Values();
            assert (popped + [v]) + Values() == popped + before;
            popped := popped + [v];
          }
      }
      assert ops[..|ops|] == ops;
    }
  }

  lemma Regroup<T>(front: seq<T>, left: seq<T>, rest: seq<T>)
    requires left != [] && rest == left[1..]
    ensures front + [left[0]] + rest == front + left
  {
  }

  ghost predicate Distinct(ns: seq<Node>)
  {
    forall i, j :: 0 <= i < j < |ns| ==> ns[i] != ns[j]
  }

  datatype Op = Push(value: int) | Fail(value: int) | Pop

  /** The values of the pushes that got memory, in order. */
  function Pushes(ops: seq<Op>): (vs: seq<int>)
  {
    if ops == [] then []
    else
      var n := |ops| - 1;
      Pushes(ops[..n]) + (match ops[n] case Push(v) => [v] case _ => [])
  }
}
