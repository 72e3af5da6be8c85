/** The code inside the main_mutex sections, on the real queue and the threads' `cl` fields, against
    the steps of the dispatch machine. */
module WorkerPool {
  import opened WorkerQueue
  import opened Dispatch

  class Pool {
    const queue: Queue
    /** threads[i]->cl */
    const cl: array<nat>

    ghost predicate Valid()
      reads this, queue, queue.nodes, cl
    {
      queue.Valid()
    }

    /** What the fields show of a state of the machine. */
    ghost predicate Shows(s: System)
      reads this, queue, cl
    {
      queue.contents == s.queue && cl[..] == s.cl
    }

    /** The set-up loop: every worker free, every id queued once, in order. */
    constructor (n: nat)
      ensures Valid() && Shows(Initial(n))
    {
      hide Queue.Valid;
      var queue := new Queue();
      var cl := new nat[n](_ => 0);
      var i := 0;
      while i < n
        invariant 0 <= i <= n && fresh(queue) && fresh(cl)
        invariant queue.Valid() && fresh(set n | n in queue.nodes)
        invariant queue.contents == seq(i, k => k)
        invariant cl.Length == n && forall k | 0 <= k < n :: cl[k] == 0
      {
        cl[i] := 0;
        queue.Enqueue(i);
        i := i + 1;
      }
      this.queue, this.cl := queue, cl;
    }

    /** main's section: dequeue an id and write the connection into that worker's `cl`. In every
        reachable state the id is a worker's, and the worker is free. */
    method HandOver(conn: nat, ghost s: System) returns (id: int)
      requires Valid() && Shows(s) && Inv(s) && s.main == Dequeuing(conn)
      modifies queue, cl
      ensures Valid()
      ensures Enabled(s, Dequeue) && Enabled(After(s, Dequeue), Assign)
      ensures var s' := After(After(s, Dequeue), Assign); Shows(s') && s'.main == Signalling(id)
      ensures s.cl[id] == 0
    {
      hide Queue.Valid, Inv, After, Enabled;
      HandingOver(s);
      id := queue.Dequeue();
      cl[id] := conn;
    }

    /** The worker's second section. */
    method Requeue(i: nat, ghost s: System)
      requires Valid() && Shows(s) && Inv(s) && Enabled(s, EnqueueSelf(i))
      modifies queue, queue.nodes
      ensures Valid() && Shows(After(s, EnqueueSelf(i)))
      ensures queue.contents == old(queue.contents) + [i]
    {
      hide Queue.Valid, Inv, After, Enabled;
      Requeuing(s, i);
      queue.Enqueue(i);
    }
  }
}
