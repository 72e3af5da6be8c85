/** rpcqueue.cpp: the linked queue of idle worker ids. */
module WorkerQueue {
  /** What enqueue makes of a sequence of ids: a value already present is not added again. */
  function Enqueued(q: seq<int>, v: int): seq<int> {
    if v in q then q else q + [v]
  }

  predicate NoDuplicates(q: seq<int>) {
    forall i, j | 0 <= i < j < |q| :: q[i] != q[j]
  }

  // ---------- Runs of the queue ----------

  datatype QueueCall = Put(v: int) | Take

  /** The queue after some calls, the values that were appended, and the values that came out. */
  function RunCalls(q: seq<int>, calls: seq<QueueCall>): (seq<int>, seq<int>, seq<int>)
    decreases |calls|
  {
    if calls == [] then (q, [], [])
    else
      match calls[0]
      case Put(v) =>
        var (end, added, taken) := RunCalls(Enqueued(q, v), calls[1..]);
        (end, (if v in q then [] else [v]) + added, taken)
      case Take =>
        if q == [] then RunCalls(q, calls[1..])
        else
          var (end, added, taken) := RunCalls(q[1..], calls[1..]);
          (end, added, [q[0]] + taken)
  }

  /** First in, first out, over every run: what came out, followed by what is left, is what was there
      at first, followed by what was appended; and no value is ever queued twice. */
  lemma {:induction false} FirstInFirstOut(q: seq<int>, calls: seq<QueueCall>)
    requires NoDuplicates(q)
    ensures var (end, added, taken) := RunCalls(q, calls);
            NoDuplicates(end) && q + added == taken + end
    decreases |calls|
  {
    if calls != [] {
      match calls[0]
      case Put(v) =>
        EnqueuedKeeps(q, v);
        hide NoDuplicates, Enqueued;
        FirstInFirstOut(Enqueued(q, v), calls[1..]);
        var (end, added, taken) := RunCalls(Enqueued(q, v), calls[1..]);
        PutRegroups(q, if v in q then [] else [v], added);
      case Take =>
        if q == [] {
          FirstInFirstOut(q, calls[1..]);
        } else {
          RestKeeps(q);
          hide NoDuplicates;
          FirstInFirstOut(q[1..], calls[1..]);
          var (end, added, taken) := RunCalls(q[1..], calls[1..]);
          TakeRegroups(q, added, taken, end);
        }
    }
  }

  lemma PutRegroups(q: seq<int>, more: seq<int>, added: seq<int>)
    ensures q + (more + added) == (q + more) + added
  {
  }

  lemma TakeRegroups(q: seq<int>, added: seq<int>, taken: seq<int>, end: seq<int>)
    requires q != [] && q[1..] + added == taken + end
    ensures q + added == ([q[0]] + taken) + end
  {
    assert q + added == [q[0]] + (q[1..] + added);
    assert ([q[0]] + taken) + end == [q[0]] + (taken + end);
  }

  lemma EnqueuedKeeps(q: seq<int>, v: int)
    requires NoDuplicates(q)
    ensures NoDuplicates(Enqueued(q, v)) && Enqueued(q, v) == q + if v in q then [] else [v]
  {
    assert q + [] == q;
  }

  lemma RestKeeps(q: seq<int>)
    requires NoDuplicates(q) && q != []
    ensures NoDuplicates(q[1..])
  {
  }

  lemma AppendedOnce(q: seq<int>, v: int)
    requires NoDuplicates(q) && v !in q
    ensures NoDuplicates(q + [v])
  {
  }

  class Node {
    const value: int
    var next: Node?

    constructor (value: int)
      ensures this.value == value && next == null
    {
      this.value := value;
      next := null;
    }
  }

  /** Following next from front visits these nodes, the last of which is back. */
  ghost predicate Linked(front: Node?, back: Node?, nodes: seq<Node>)
    reads nodes
  {
    && (front == null <==> nodes == []) && (back == null <==> nodes == [])
    && (nodes != [] ==> front == nodes[0] && back == nodes[|nodes| - 1])
    && (forall i {:trigger nodes[i].next} | 0 <= i < |nodes| ::
          nodes[i].next == if i + 1 < |nodes| then nodes[i + 1] else null)
  }

  class Queue {
    var numItems: nat
    var front: Node?
    var back: Node?
    ghost var nodes: seq<Node>
    ghost var contents: seq<int>

    ghost predicate Valid()
      reads this, nodes
    {
      && Linked(front, back, nodes)
      && numItems == |nodes| == |contents|
      && (forall i | 0 <= i < |nodes| :: nodes[i].value == contents[i])
      && NoDuplicates(contents)
    }

    constructor ()
      ensures Valid() && contents == [] && nodes == []
    {
      numItems, front, back := 0, null, null;
      nodes, contents := [], [];
    }

    method FindNode(value: int) returns (node: Node?)
      requires Valid()
      ensures node == null <==> value !in contents
      ensures node != null ==> node in nodes && node.value == value
    {
      node := front;
      ghost var i := 0;
      while node != null
        invariant 0 <= i <= |nodes|
        invariant node == if i < |nodes| then nodes[i] else null
        invariant forall j | 0 <= j < i :: contents[j] != value
        decreases |nodes| - i
      {
        if node.value == value {
          assert contents[i] == value;
          return;
        }
        node := node.next;
        i := i + 1;
      }
    }

    method IsEmpty() returns (empty: bool)
      requires Valid()
      ensures empty <==> contents == []
    {
      empty := numItems == 0;
    }

    lemma NodesDiffer()
      requires Valid()
      ensures forall i, j | 0 <= i < j < |nodes| :: nodes[i] != nodes[j]
    {
      assert forall i, j | 0 <= i < j < |nodes| :: nodes[i].value != nodes[j].value;
    }

    method Enqueue(value: int)
      requires Valid()
      modifies this, nodes
      ensures Valid()
      ensures contents == Enqueued(old(contents), value)
      ensures forall n | n in nodes :: n in old(nodes) || fresh(n)
    {
      hide NoDuplicates;
      var found := FindNode(value);
      if found != null {
        return;
      }
      NodesDiffer();
      AppendedOnce(contents, value);
      var node := new Node(value);
      var empty := IsEmpty();
      if empty {
        node.next := front;
        node.next := back;
        front := node;
        back := node;
      } else {
        back.next := node;
        back := node;
      }
      numItems := numItems + 1;
      nodes, contents := nodes + [node], contents + [value];
    }

    /** dequeue answers -1 for an empty queue, and the oldest value otherwise. */
    method Dequeue() returns (value: int)
      requires Valid()
      modifies this
      ensures Valid()
      ensures old(contents) == [] ==> value == -1 && contents == []
      ensures old(contents) != [] ==> value == old(contents)[0] && contents == old(contents)[1..]
      ensures forall n | n in nodes :: n in old(nodes)
    {
      var empty := IsEmpty();
      if empty {
        return -1;
      }
      value := front.value;
      if numItems == 1 {
        front := null;
        back := null;
      } else {
        assert nodes[0].next == nodes[1];
        front := front.next;
      }
      numItems := numItems - 1;
      nodes, contents := nodes[1..], contents[1..];
    }
  }
}
