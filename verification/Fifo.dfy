/**
 The linked FIFO queue of Lesson 9: a chain of nodes with a pointer to each end.
 */
module Fifo {

  const EMPTY_RESULT := -1

  class Node {
    var data: int
    var next: Node?

    constructor (value: int)
      ensures data == value && next == null
    {
      data, next := value, null;
    }
  }

  ghost function Data(nodes: seq<Node>): (d: seq<int>)
    reads nodes
    ensures |d| == |nodes|
    ensures forall i: nat | i < |nodes| :: d[i] == nodes[i].data
  {
    seq(|nodes|, i requires 0 <= i < |nodes| reads nodes => nodes[i].data)
  }

  // ---- what an operation does to the contents

  datatype Op = In(value: int) | Out

  /** The contents after one operation, and the values it removed: none, or one. */
  function Step(contents: seq<int>, op: Op): (r: (seq<int>, seq<int>))
    ensures r.1 + r.0 == contents + (if op.In? then [op.value] else [])
    ensures |r.1| == if op.Out? && contents != [] then 1 else 0
  {
    match op
    case In(value) => (contents + [value], [])
    case Out => if contents == [] then ([], []) else (contents[1..], [contents[0]])
  }

  class Queue {
    var start: Node?
    var end: Node?
    ghost var nodes: seq<Node>  // the chain, from start to end: every node not yet freed

    /** The chain from `start` visits the nodes once each and ends at `end`. */
    ghost predicate Valid()
      reads this, nodes
    {
      && (nodes == [] ==> start == null && end == null)
      && (nodes != [] ==> start == nodes[0] && end == nodes[|nodes| - 1] && nodes[|nodes| - 1].next == null)
      && (forall i: nat | i + 1 < |nodes| :: nodes[i].next == nodes[i + 1])
      && (forall i: nat, j: nat | i < j < |nodes| :: nodes[i] != nodes[j])
    }

    ghost function Contents(): seq<int>
      reads this, nodes
    {
      Data(nodes)
    }

    constructor ()
      ensures Valid() && nodes == []
    {
      start, end, nodes := null, null, [];
    }

    predicate IsEmpty()
      reads this
    {
      start == null
    }

    method Out() returns (value: int)
      requires Valid()
      modifies this
      ensures Valid()
      ensures nodes == if old(nodes) == [] then [] else old(nodes)[1..]
      ensures var (rest, removed) := Step(old(Contents()), Op.Out);
        Contents() == rest && value == if removed == [] then EMPTY_RESULT else removed[0]
    {
      if IsEmpty() {
        return EMPTY_RESULT;
      }
      var tmp := start;
      value := tmp.data;
      start := start.next;
      nodes := nodes[1..];
      if IsEmpty() {
        end := null;
      }
    }

    method In(value: int)
      requires Valid()
      modifies this, end
      ensures Valid()
      ensures |nodes| == |old(nodes)| + 1 && nodes[..|old(nodes)|] == old(nodes) && fresh(nodes[|old(nodes)|])
      ensures Contents() == Step(old(Contents()), Op.In(value)).0
    {
      var tmp := new Node(value);
      nodes := nodes + [tmp];
      if end == null {
        start, end := tmp, tmp;
        return;
      }
      end.next := tmp;
      end := tmp;
    }

    /** The loop at the end of main: it frees every remaining node, once and in order. */
    method Drain() returns (ghost freed: seq<Node>)
      requires Valid()
      modifies this
      ensures Valid() && IsEmpty() && nodes == []
      ensures freed == old(nodes)
    {
      freed := [];
      ghost var all := nodes;
      while !IsEmpty()
        invariant Valid()
        invariant |freed| <= |all| && freed == all[..|freed|] && nodes == all[|freed|..]
        decreases |nodes|
      {
        freed := freed + [nodes[0]];
        var _ := Out();
      }
    }
  }

  // ---- runs of the queue

  /** The contents after some operations, and all values they removed. */
  function Run(contents: seq<int>, ops: seq<Op>): (r: (seq<int>, seq<int>))
    decreases |ops|
  {
    if ops == [] then (contents, [])
    else
      var (next, first) := Step(contents, ops[0]);
      var (rest, removed) := Run(next, ops[1..]);
      (rest, first + removed)
  }

  function Inserted(ops: seq<Op>): seq<int> {
    if ops == [] then []
    else (if ops[0].In? then [ops[0].value] else []) + Inserted(ops[1..])
  }

  lemma Associative(a: seq<int>, b: seq<int>, c: seq<int>)
    ensures a + (b + c) == (a + b) + c
  {
  }

  /** First in, first out, and nothing lost: what was removed, followed by what
      is left, is what was there, followed by what was inserted. */
  lemma {:induction false} FirstInFirstOut(contents: seq<int>, ops: seq<Op>)
    ensures var (rest, removed) := Run(contents, ops);
      removed + rest == contents + Inserted(ops)
    decreases |ops|
  {
    if ops == [] {
    } else {
      var (next, first) := Step(contents, ops[0]);
      var (rest, removed) := Run(next, ops[1..]);
      var added := if ops[0].In? then [ops[0].value] else [];
      FirstInFirstOut(next, ops[1..]);
      Associative(first, removed, rest);
      Associative(first, next, Inserted(ops[1..]));
      Associative(contents, added, Inserted(ops[1..]));
    }
  }

  /** From the empty queue on, the removed values are a prefix of the inserted ones. */
  lemma RemovedIsPrefix(ops: seq<Op>)
    ensures Run([], ops).1 <= Inserted(ops)
  {
    FirstInFirstOut([], ops);
    assert [] + Inserted(ops) == Inserted(ops);
  }
}
