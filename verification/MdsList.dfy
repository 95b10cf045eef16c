/** The locked queue of heap nodes between a head and a tail pointer; each call holds the lock
    throughout and is one step. */
module MdsList {
  import opened Options

  class Node<T> {
    var data: T
    var next: Node?<T>

    constructor (data: T)
      ensures this.data == data && next == null
    {
      this.data := data;
      next := null;
    }
  }

  /** The i-th node of a chain, or the null pointer behind its last one. */
  ghost function NodeAt<T>(nodes: seq<Node<T>>, i: nat): Node?<T> {
    if i < |nodes| then nodes[i] else null
  }

  ghost predicate Linked<T>(nodes: seq<Node<T>>)
    reads nodes
  {
    && (forall i | 0 <= i < |nodes| :: nodes[i].next == NodeAt(nodes, i + 1))
    && (forall i, j | 0 <= i < j < |nodes| :: nodes[i] != nodes[j])
  }

  lemma Unlink<T>(nodes: seq<Node<T>>)
    requires nodes != [] && Linked(nodes)
    ensures nodes[0].next == NodeAt(nodes[1..], 0) && nodes[0] !in nodes[1..] && Linked(nodes[1..])
  {
    forall i | 0 <= i < |nodes| - 1
      ensures nodes[1..][i].next == NodeAt(nodes[1..], i + 1)
    {
      assert nodes[i + 1].next == NodeAt(nodes, i + 2);
    }
  }

  class Instance<T> {
    var head: Node?<T>
    var tail: Node?<T>
    var num: int
    ghost var nodes: seq<Node<T>>    // the nodes from the head on
    ghost var live: set<Node<T>>     // the nodes allocated by this queue and not freed yet

    /** From the head the links run through distinct nodes, and no node has been freed or lost. */
    ghost predicate Chain()
      reads this, nodes
    {
      head == NodeAt(nodes, 0) && Linked(nodes) && live == set n | n in nodes
    }

    /** The chain ends at the tail, which is null exactly when the head is, and the count is its
        length. */
    ghost predicate Valid()
      reads this, nodes
    {
      && Chain()
      && tail == (if nodes == [] then null else nodes[|nodes| - 1])
      && num == |nodes|
    }

    ghost function Contents(): (q: seq<T>)
      reads this, nodes
      ensures |q| == |nodes|
    {
      seq(|nodes|, i requires 0 <= i < |nodes| reads this, nodes => nodes[i].data)
    }

    constructor ()
      ensures Valid() && Contents() == []
    {
      head, tail, num := null, null, 0;
      nodes, live := [], {};
    }

    /** free: only of a node that is live, so never twice. */
    ghost method Free(n: Node<T>)
      requires n in live
      modifies `live
      ensures live == old(live) - {n}
    {
      live := live - {n};
    }

    /** The links when a new node stands behind the last one. */
    method Link(newNode: Node<T>)
      requires Linked(nodes) && head == NodeAt(nodes, 0)
      requires tail == if nodes == [] then null else nodes[|nodes| - 1]
      requires newNode !in nodes && newNode.next == null
      modifies `head, tail
      ensures Linked(nodes + [newNode]) && head == NodeAt(nodes + [newNode], 0)
      ensures tail != null ==> tail.data == old(tail.data)
    {
      ghost var n, last := |nodes|, tail;
      if head == null {
        head := newNode;
      } else {
        tail.next := newNode;
      }
      forall i | 0 <= i <= n
        ensures (nodes + [newNode])[i].next == NodeAt(nodes + [newNode], i + 1)
      {
        if i < n - 1 {
          assert nodes[i] != nodes[n - 1];
          assert nodes[i].next == NodeAt(nodes, i + 1);
        }
      }
    }

    method Add(data: T, outOfMemory: bool) returns (r: int)
      requires Valid()
      modifies this, tail
      ensures Valid() && r == (if outOfMemory then -1 else 0)
      ensures Contents() == old(Contents()) + (if outOfMemory then [] else [data])
      ensures fresh(live - old(live)) && old(live) <= live
    {
      hide Linked;
      if outOfMemory {
        return -1;
      }
      var newNode := new Node(data);
      live := live + {newNode};
      ghost var data0 := Contents();
      Link(newNode);
      assert Contents() == data0;
      tail := newNode;
      nodes := nodes + [newNode];
      num := num + 1;
      return 0;
    }

    /** The node at the head is freed, and the one behind it takes its place. */
    method FreeHead()
      requires Chain() && nodes != []
      modifies `head, `nodes, `live
      ensures Chain() && nodes == old(nodes)[1..] && live == old(live - {head})
    {
      hide Linked;
      Unlink(nodes);
      var freeNode := head;
      head := head.next;
      Free(freeNode);
      nodes := nodes[1..];
    }

    /** Takes the first item out, if the caller has a place for it. */
    method Pop(wanted: bool) returns (r: int, data: Option<T>)
      requires Valid()
      modifies this
      ensures Valid()
      ensures r == if wanted && old(Contents()) != [] then 0 else -1
      ensures r == 0 ==> data == Some(old(Contents())[0]) && Contents() == old(Contents())[1..]
      ensures r == 0 ==> live == old(live - {head})
      ensures r != 0 ==> data == None && Contents() == old(Contents()) && live == old(live)
    {
      if !wanted {
        return -1, None;
      }
      if head == null {
        return -1, None;
      }
      hide Linked;
      data := Some(head.data);
      FreeHead();
      if head == null {
        tail := null;
      }
      num := num - 1;
      return 0, data;
    }

    /** Frees every node and every item, in order. */
    method DelAll() returns (ghost released: seq<T>)
      requires Valid()
      modifies this
      ensures Valid() && Contents() == [] && live == {}
      ensures released == old(Contents())
    {
      hide Linked;
      released := [];
      ghost var all, items := nodes, Contents();
      while head != null
        invariant 0 <= |released| <= |all| && nodes == all[|released|..] && Chain()
        invariant released == items[..|released|]
        decreases |nodes|
      {
        released := released + [head.data];
        FreeHead();
      }
      tail := null;
      num := 0;
    }
  }

  // ----- Calls through a pointer that may be null -----

  method ListAdd<T>(inst: Instance?<T>, data: T, outOfMemory: bool) returns (r: int)
    requires inst != null ==> inst.Valid()
    modifies inst, if inst != null then {inst.tail} else {}
    ensures inst == null ==> r == -1
    ensures inst != null ==>
        && inst.Valid() && r == (if outOfMemory then -1 else 0)
        && inst.Contents() == old(inst.Contents()) + (if outOfMemory then [] else [data])
  {
    if inst == null {
      return -1;
    }
    r := inst.Add(data, outOfMemory);
  }

  method ListGetNum<T>(inst: Instance?<T>) returns (r: int)
    requires inst != null ==> inst.Valid()
    ensures r == if inst == null then -1 else |inst.Contents()|
  {
    if inst == null {
      return -1;
    }
    return inst.num;
  }

  method ListPop<T>(inst: Instance?<T>, wanted: bool) returns (r: int, data: Option<T>)
    requires inst != null ==> inst.Valid()
    modifies inst
    ensures inst == null ==> r == -1 && data == None
    ensures inst != null ==>
        && inst.Valid()
        && (if wanted && old(inst.Contents()) != [] then
              r == 0 && data == Some(old(inst.Contents())[0]) && inst.Contents() == old(inst.Contents())[1..]
            else r == -1 && data == None && inst.Contents() == old(inst.Contents()))
  {
    if inst == null {
      return -1, None;
    }
    r, data := inst.Pop(wanted);
  }

  method ListDelAll<T>(inst: Instance?<T>) returns (r: int)
    requires inst != null ==> inst.Valid()
    modifies inst
    ensures r == if inst == null then -1 else 0
    ensures inst != null ==> inst.Valid() && inst.Contents() == [] && inst.live == {}
  {
    if inst == null {
      return -1;
    }
    ghost var _ := inst.DelAll();
    return 0;
  }

  // ----- Any mix of calls on one queue -----

  datatype Op<T> = Add(data: T) | Pop | DelAll

  function AfterOp<T>(q: seq<T>, op: Op<T>): seq<T> {
    match op
    case Add(data) => q + [data]
    case Pop => if q == [] then [] else q[1..]
    case DelAll => []
  }

  function RemovedBy<T>(q: seq<T>, op: Op<T>): seq<T> {
    match op
    case Add(_) => []
    case Pop => if q == [] then [] else q[..1]
    case DelAll => q
  }

  function After<T>(q: seq<T>, ops: seq<Op<T>>): seq<T> {
    if ops == [] then q else AfterOp(After(q, ops[..|ops| - 1]), ops[|ops| - 1])
  }

  /** The items that leave the queue, in the order they leave. */
  function Removed<T>(q: seq<T>, ops: seq<Op<T>>): seq<T> {
    if ops == [] then []
    else Removed(q, ops[..|ops| - 1]) + RemovedBy(After(q, ops[..|ops| - 1]), ops[|ops| - 1])
  }

  function AddedBy<T>(op: Op<T>): seq<T> {
    if op.Add? then [op.data] else []
  }

  function Added<T>(ops: seq<Op<T>>): seq<T> {
    if ops == [] then [] else Added(ops[..|ops| - 1]) + AddedBy(ops[|ops| - 1])
  }

  lemma OneStep<T>(q: seq<T>, op: Op<T>)
    ensures RemovedBy(q, op) + AfterOp(q, op) == q + AddedBy(op)
  {}

  /** Items leave in the order they were added: what has left, followed by what is still queued, is
      what was queued at first, followed by what was added. */
  lemma {:induction false} FirstInFirstOut<T>(q: seq<T>, ops: seq<Op<T>>)
    ensures Removed(q, ops) + After(q, ops) == q + Added(ops)
  {
    hide RemovedBy, AfterOp, AddedBy;
    if ops != [] {
      var front, op := ops[..|ops| - 1], ops[|ops| - 1];
      var mid := After(q, front);
      FirstInFirstOut(q, front);
      OneStep(mid, op);
      var removed, gone, left := Removed(q, front), RemovedBy(mid, op), AfterOp(mid, op);
      assert (removed + gone) + left == removed + (gone + left);
      assert removed + (mid + AddedBy(op)) == (removed + mid) + AddedBy(op);
    }
  }

  method RunOne<T>(inst: Instance<T>, op: Op<T>) returns (ghost out: seq<T>)
    requires inst.Valid()
    modifies inst, inst.nodes
    ensures inst.Valid() && fresh(inst.live - old(inst.live))
    ensures inst.Contents() == AfterOp(old(inst.Contents()), op)
    ensures out == RemovedBy(old(inst.Contents()), op)
  {
    match op {
      case Add(data) =>
        var _ := inst.Add(data, false);
        out := [];
      case Pop =>
        var _, data := inst.Pop(true);
        out := if data.Some? then [data.value] else [];
      case DelAll =>
        out := inst.DelAll();
    }
  }

  /** The heap queue goes through exactly these contents. */
  method Run<T>(inst: Instance<T>, ops: seq<Op<T>>) returns (ghost out: seq<T>)
    requires inst.Valid()
    modifies inst, inst.nodes
    ensures inst.Valid()
    ensures inst.Contents() == After(old(inst.Contents()), ops)
    ensures out == Removed(old(inst.Contents()), ops)
    ensures out + inst.Contents() == old(inst.Contents()) + Added(ops)
  {
    hide RemovedBy, AfterOp;
    out := [];
    ghost var q := inst.Contents();
    var i := 0;
    while i < |ops|
      invariant 0 <= i <= |ops| && inst.Valid() && fresh(inst.live - old(inst.live))
      invariant inst.Contents() == After(q, ops[..i]) && out == Removed(q, ops[..i])
    {
      assert ops[..i + 1][..i] == ops[..i];
      ghost var o := RunOne(inst, ops[i]);
      out := out + o;
      i := i + 1;
    }
    assert ops[..|ops|] == ops;
    FirstInFirstOut(q, ops);
  }
}
