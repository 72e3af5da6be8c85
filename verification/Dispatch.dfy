/** The hand-over of connections from main's accept loop to the worker threads, as a machine whose
    steps are the atomic actions of rpcmain.cpp and server_start, interleaved in any order. */
module Dispatch {
  import opened WorkerQueue

  /** Where main is. Connections are numbered from 1 in the order of accept; the server never closes
      a descriptor, so the number stands for the descriptor, and 0 for none. */
  datatype MainPc =
    | Accepting
    | Waiting(conn: nat)               // sem_wait
    | Locking(conn: nat)
    | Dequeuing(conn: nat)
    | Assigning(conn: nat, id: int)    // thread->cl = connfd
    | Signalling(id: int)
    | Unlocking

  datatype WorkerPc =
    | ToLock
    | Checking                         // while (thread->cl == 0)
    | Parked                           // in pthread_cond_wait, mutex released
    | Woken                            // in pthread_cond_wait, taking the mutex again
    | ToUnlock
    | Serving
    | Clearing                         // thread->cl = 0, without the mutex
    | ToLockAgain
    | Enqueuing
    | ToUnlockAgain
    | Posting                          // sem_post

  datatype Holder = Nobody | MainThread | Worker(id: nat)

  /** The last three fields only record history: which worker a connection was handed to, which
      connections are through, and which worker read which connection out of its `cl` to serve it. */
  datatype System = System(
    sem: nat,
    queue: seq<int>,
    holder: Holder,
    main: MainPc,
    pc: seq<WorkerPc>,
    cl: seq<nat>,
    accepted: nat,
    handed: map<nat, nat>,
    finished: set<nat>,
    served: set<(nat, nat)>)

  datatype Step =
    | Accept | SemWait | MainLock | Dequeue | Assign | Signal | MainUnlock
    | Lock(i: nat) | Check(i: nat) | SpuriousWake(i: nat) | Relock(i: nat) | Unlock(i: nat)
    | ServeRequest(i: nat) | HangUp(i: nat) | ClearCl(i: nat)
    | LockAgain(i: nat) | EnqueueSelf(i: nat) | UnlockAgain(i: nat) | Post(i: nat)

  predicate IsWorkerStep(step: Step) {
    !(step.Accept? || step.SemWait? || step.MainLock? || step.Dequeue? || step.Assign? || step.Signal? || step.MainUnlock?)
  }

  predicate Enabled(s: System, step: Step) {
    if IsWorkerStep(step) then
      step.i < |s.pc| && step.i < |s.cl| &&
      var pc := s.pc[step.i];
      match step
      case Lock(_) => pc == ToLock && s.holder == Nobody
      case Check(_) => pc == Checking
      case SpuriousWake(_) => pc == Parked
      case Relock(_) => pc == Woken && s.holder == Nobody
      case Unlock(_) => pc == ToUnlock
      case ServeRequest(_) => pc == Serving
      case HangUp(_) => pc == Serving
      case ClearCl(_) => pc == Clearing
      case LockAgain(_) => pc == ToLockAgain && s.holder == Nobody
      case EnqueueSelf(_) => pc == Enqueuing
      case UnlockAgain(_) => pc == ToUnlockAgain
      case Post(_) => pc == Posting
    else
      match step
      case Accept => s.main == Accepting
      case SemWait => s.main.Waiting? && s.sem > 0
      case MainLock => s.main.Locking? && s.holder == Nobody
      case Dequeue => s.main.Dequeuing?
      // threads[i] with i = -1 would be outside the array
      case Assign => s.main.Assigning? && 0 <= s.main.id < |s.cl|
      case Signal => s.main.Signalling? && 0 <= s.main.id < |s.pc|
      case MainUnlock => s.main.Unlocking?
  }

  function Goto(s: System, i: nat, pc: WorkerPc): System
    requires i < |s.pc|
  {
    s.(pc := s.pc[i := pc])
  }

  function After(s: System, step: Step): System
    requires Enabled(s, step)
  {
    match step
    case Accept => s.(main := Waiting(s.accepted + 1), accepted := s.accepted + 1)
    case SemWait => s.(sem := s.sem - 1, main := Locking(s.main.conn))
    case MainLock => s.(holder := MainThread, main := Dequeuing(s.main.conn))
    case Dequeue =>
      if s.queue == [] then s.(main := Assigning(s.main.conn, -1))
      else s.(queue := s.queue[1..], main := Assigning(s.main.conn, s.queue[0]))
    case Assign => s.(cl := s.cl[s.main.id := s.main.conn], handed := s.handed[s.main.conn := s.main.id],
                      main := Signalling(s.main.id))
    case Signal =>
      // the signal wakes the worker if it is parked, and is lost otherwise
      var s' := s.(main := Unlocking);
      if s.pc[s.main.id] == Parked then Goto(s', s.main.id, Woken) else s'
    case MainUnlock => s.(holder := Nobody, main := Accepting)
    case Lock(i) => Goto(s.(holder := Worker(i)), i, Checking)
    case Check(i) =>
      if s.cl[i] == 0 then Goto(s.(holder := Nobody), i, Parked) else Goto(s, i, ToUnlock)
    case SpuriousWake(i) => Goto(s, i, Woken)
    case Relock(i) => Goto(s.(holder := Worker(i)), i, Checking)
    case Unlock(i) => Goto(s.(holder := Nobody), i, Serving)
    case ServeRequest(i) => s.(served := s.served + {(i, s.cl[i])})
    case HangUp(i) => Goto(s, i, Clearing)
    case ClearCl(i) => Goto(s.(cl := s.cl[i := 0], finished := s.finished + {s.cl[i]}), i, ToLockAgain)
    case LockAgain(i) => Goto(s.(holder := Worker(i)), i, Enqueuing)
    case EnqueueSelf(i) => Goto(s.(queue := Enqueued(s.queue, i)), i, ToUnlockAgain)
    case UnlockAgain(i) => Goto(s.(holder := Nobody), i, Posting)
    case Post(i) => Goto(s.(sem := s.sem + 1), i, ToLock)
  }

  /** After initialisation: all ids queued, as many permits, every worker at the top of its loop. */
  function Initial(n: nat): System {
    System(n, seq(n, i => i), Nobody, Accepting, seq(n, _ => ToLock), seq(n, _ => 0), 0, map[], {}, {})
  }

  // ---------- Sums over the workers ----------

  function Total(f: WorkerPc -> nat, pc: seq<WorkerPc>): nat {
    if pc == [] then 0 else f(pc[0]) + Total(f, pc[1..])
  }

  lemma {:induction false} TotalUpdate(f: WorkerPc -> nat, pc: seq<WorkerPc>, i: nat, x: WorkerPc)
    requires i < |pc|
    ensures Total(f, pc[i := x]) + f(pc[i]) == Total(f, pc) + f(x)
    decreases |pc|
  {
    if i == 0 {
      assert pc[0 := x][1..] == pc[1..];
    } else {
      assert pc[i := x][1..] == pc[1..][i - 1 := x];
      TotalUpdate(f, pc[1..], i - 1, x);
    }
  }

  lemma {:induction false} TotalBound(f: WorkerPc -> nat, pc: seq<WorkerPc>, bound: nat)
    requires forall x: WorkerPc :: f(x) <= bound
    ensures Total(f, pc) <= bound * |pc|
  {
    if pc != [] {
      TotalBound(f, pc[1..], bound);
    }
  }

  lemma {:induction false} TotalZero(f: WorkerPc -> nat, pc: seq<WorkerPc>)
    ensures Total(f, pc) == 0 <==> forall i | 0 <= i < |pc| :: f(pc[i]) == 0
  {
    if pc != [] {
      TotalZero(f, pc[1..]);
      assert forall i | 1 <= i < |pc| :: pc[i] == pc[1..][i - 1];
    }
  }

  /** Queued, but not yet counted by the semaphore. */
  const UNPOSTED: WorkerPc -> nat := (pc: WorkerPc) => if pc == ToUnlockAgain || pc == Posting then 1 else 0

  // ---------- The invariant ----------

  predicate MainHolds(main: MainPc) {
    main.Dequeuing? || main.Assigning? || main.Signalling? || main.Unlocking?
  }

  predicate WorkerHolds(pc: WorkerPc) {
    pc == Checking || pc == ToUnlock || pc == Enqueuing || pc == ToUnlockAgain
  }

  /** The mutex excludes. */
  ghost predicate Exclusion(s: System) {
    && (s.holder == MainThread <==> MainHolds(s.main))
    && (forall i | 0 <= i < |s.pc| :: s.holder == Worker(i) <==> WorkerHolds(s.pc[i]))
    && (s.holder.Worker? ==> s.holder.id < |s.pc|)
  }

  /** Taken off the queue by main, and its `cl` not written yet. */
  predicate Chosen(s: System, i: nat) {
    s.main.Assigning? && s.main.id == i
  }

  /** Idle workers may be in the upper half of the loop or about to get there. */
  predicate Restful(pc: WorkerPc) {
    pc == ToLock || pc == Checking || pc == Parked || pc == Woken || pc == Posting
  }

  predicate WorkerFits(s: System, i: nat)
    requires i < |s.pc| && i < |s.cl|
  {
    var pc := s.pc[i];
    if i in s.queue then s.cl[i] == 0 && (Restful(pc) || pc == ToUnlockAgain)
    else if Chosen(s, i) then s.cl[i] == 0 && Restful(pc)
    else if s.cl[i] == 0 then pc == ToLockAgain || pc == Enqueuing
    else (Restful(pc) && (pc == Parked ==> s.main == Signalling(i))) || pc == ToUnlock || pc == Serving || pc == Clearing
  }

  ghost predicate Workers(s: System) {
    |s.pc| == |s.cl| && forall i: nat | i < |s.pc| :: WorkerFits(s, i)
  }

  /** The queue holds different workers, and not the one main has taken off it. */
  ghost predicate Ids(s: System) {
    && NoDuplicates(s.queue)
    && (forall q | q in s.queue :: 0 <= q < |s.pc|)
    && (s.main.Assigning? ==> 0 <= s.main.id < |s.pc| && s.main.id !in s.queue)
    && (s.main.Signalling? ==> 0 <= s.main.id < |s.pc|)
  }

  /** A permit taken by sem_wait and not yet used by dequeue. */
  function HeldPermit(main: MainPc): nat {
    if main.Locking? || main.Dequeuing? then 1 else 0
  }

  /** The idle queue is as long as the semaphore, main's permit and the unposted workers say. */
  predicate Counted(s: System) {
    |s.queue| == s.sem + HeldPermit(s.main) + Total(UNPOSTED, s.pc)
  }

  predicate HasConn(main: MainPc) {
    main.Waiting? || main.Locking? || main.Dequeuing? || main.Assigning?
  }

  /** Every accepted connection is main's, or was handed to one worker whose `cl` still holds it
      until that worker is through with it. */
  ghost predicate Connections(s: System)
    requires |s.pc| == |s.cl|
  {
    && (HasConn(s.main) ==> s.main.conn == s.accepted > 0)
    && (forall c: nat :: c in s.handed <==> 0 < c <= s.accepted && !(HasConn(s.main) && c == s.accepted))
    && s.finished <= s.handed.Keys
    && (forall i: nat | i < |s.cl| && s.cl[i] != 0 :: s.cl[i] in s.handed && s.handed[s.cl[i]] == i && s.cl[i] !in s.finished)
    && (forall c | c in s.handed && c !in s.finished :: s.handed[c] < |s.cl| && s.cl[s.handed[c]] == c)
    && (forall p | p in s.served :: p.1 in s.handed && s.handed[p.1] == p.0)
  }

  ghost predicate Inv(s: System) {
    Exclusion(s) && Ids(s) && Workers(s) && Counted(s) && Connections(s)
  }

  lemma InitialInv(n: nat)
    ensures Inv(Initial(n))
  {
    TotalZero(UNPOSTED, Initial(n).pc);
    forall i: nat | i < n
      ensures WorkerFits(Initial(n), i)
    {
      assert Initial(n).queue[i] == i;
    }
  }

  lemma ExclusionAfterWorker(s: System, step: Step)
    requires Exclusion(s) && |s.pc| == |s.cl| && Enabled(s, step) && IsWorkerStep(step)
    ensures Exclusion(After(s, step))
  {
    hide Enqueued;
    var i, s' := step.i, After(s, step);
    assert s'.pc == s.pc[i := s'.pc[i]];
  }

  lemma ExclusionAfterMain(s: System, step: Step)
    requires Exclusion(s) && Enabled(s, step) && !IsWorkerStep(step)
    ensures Exclusion(After(s, step))
  {
    if step.Signal? && s.pc[s.main.id] == Parked {
      assert After(s, step).pc == s.pc[s.main.id := Woken];
    }
  }

  lemma ExclusionStep(s: System, step: Step)
    requires Inv(s) && Enabled(s, step)
    ensures Exclusion(After(s, step))
  {
    hide Connections, Counted, Ids, WorkerFits, Exclusion, After, Enabled;
    if IsWorkerStep(step) {
      ExclusionAfterWorker(s, step);
    } else {
      ExclusionAfterMain(s, step);
    }
  }

  /** A worker about to enqueue itself is neither in the queue nor just taken off it. */
  lemma EnqueuingIsAbsent(s: System, i: nat)
    requires Workers(s) && i < |s.pc| && s.pc[i] == Enqueuing
    ensures i !in s.queue && !Chosen(s, i)
  {
    assert WorkerFits(s, i);
  }

  lemma CountedAfterWorker(s: System, step: Step)
    requires Counted(s) && Enabled(s, step) && IsWorkerStep(step) && (step.EnqueueSelf? ==> step.i !in s.queue)
    ensures Counted(After(s, step))
  {
    hide Total;
    var i, s' := step.i, After(s, step);
    assert s'.pc == s.pc[i := s'.pc[i]];
    TotalUpdate(UNPOSTED, s.pc, i, s'.pc[i]);
  }

  lemma CountedAfterMain(s: System, step: Step)
    requires Counted(s) && Enabled(s, step) && !IsWorkerStep(step)
    ensures Counted(After(s, step))
  {
    hide Total;
    if step.Signal? {
      TotalUpdate(UNPOSTED, s.pc, s.main.id, Woken);
    } else if step.Dequeue? {
      DequeueFinds(s);
    }
  }

  lemma CountedStep(s: System, step: Step)
    requires Inv(s) && Enabled(s, step)
    ensures Counted(After(s, step))
  {
    hide Connections, Exclusion, Ids, Counted, After, Workers;
    if IsWorkerStep(step) {
      if step.EnqueueSelf? {
        EnqueuingIsAbsent(s, step.i);
      }
      CountedAfterWorker(s, step);
    } else {
      CountedAfterMain(s, step);
    }
  }

  /** With a permit in hand, main finds a worker in the queue: dequeue never answers -1. */
  lemma DequeueFinds(s: System)
    requires Counted(s) && s.main.Dequeuing?
    ensures s.queue != []
  {
  }

  lemma IdsAfterMain(s: System, step: Step)
    requires Ids(s) && Counted(s) && |s.pc| == |s.cl| && Enabled(s, step) && !IsWorkerStep(step)
    ensures Ids(After(s, step))
  {
    if step.Dequeue? {
      DequeueFinds(s);
      assert forall q | q in s.queue[1..] :: q in s.queue;
      assert s.queue[0] in s.queue;
    }
  }

  lemma IdsAfterWorker(s: System, step: Step)
    requires Ids(s) && Enabled(s, step) && IsWorkerStep(step)
    requires step.EnqueueSelf? ==> step.i !in s.queue && !Chosen(s, step.i)
    ensures Ids(After(s, step))
  {
  }

  lemma IdsStep(s: System, step: Step)
    requires Inv(s) && Enabled(s, step)
    ensures Ids(After(s, step))
  {
    hide Connections, Exclusion, WorkerFits, Counted, Ids, After;
    if IsWorkerStep(step) {
      if step.EnqueueSelf? {
        EnqueuingIsAbsent(s, step.i);
      }
      IdsAfterWorker(s, step);
    } else {
      IdsAfterMain(s, step);
    }
  }

  lemma ConnIsPositive(s: System)
    requires |s.pc| == |s.cl| && Connections(s)
    ensures HasConn(s.main) ==> s.main.conn > 0
  {
  }

  lemma FitsAfterMain(s: System, step: Step, i: nat)
    requires Inv(s) && Enabled(s, step) && !IsWorkerStep(step) && i < |s.pc|
    ensures i < |After(s, step).pc| && i < |After(s, step).cl| && WorkerFits(After(s, step), i)
  {
    ConnIsPositive(s);
    hide Connections, Exclusion, Counted;
    assert WorkerFits(s, i);
    if step.Dequeue? {
      DequeueFinds(s);
      assert s.queue == [s.queue[0]] + s.queue[1..];
    }
  }

  lemma FitsAfterOther(s: System, step: Step, i: nat)
    requires Workers(s) && Enabled(s, step) && IsWorkerStep(step) && i < |s.pc| && i != step.i
    ensures i < |After(s, step).pc| && i < |After(s, step).cl| && WorkerFits(After(s, step), i)
  {
    assert WorkerFits(s, i);
  }

  lemma FitsAfterOwn(s: System, step: Step)
    requires Workers(s) && Enabled(s, step) && IsWorkerStep(step)
    ensures step.i < |After(s, step).cl| && WorkerFits(After(s, step), step.i)
  {
    assert WorkerFits(s, step.i);
  }

  lemma WorkersStep(s: System, step: Step)
    requires Inv(s) && Enabled(s, step)
    ensures Workers(After(s, step))
  {
    hide Connections, Exclusion, Counted, Ids, WorkerFits;
    forall i: nat | i < |s.pc|
      ensures i < |After(s, step).pc| && i < |After(s, step).cl| && WorkerFits(After(s, step), i)
    {
      hide After;
      if !IsWorkerStep(step) {
        FitsAfterMain(s, step, i);
      } else if i == step.i {
        FitsAfterOwn(s, step);
      } else {
        FitsAfterOther(s, step, i);
      }
    }
  }

  lemma ConnectionsAfterMain(s: System, step: Step)
    requires Inv(s) && Enabled(s, step) && !IsWorkerStep(step)
    ensures Connections(After(s, step))
  {
    hide Exclusion, Counted, Ids;
    if step.Assign? {
      assert WorkerFits(s, s.main.id);
    }
  }

  lemma ConnectionsAfterWorker(s: System, step: Step)
    requires Inv(s) && Enabled(s, step) && IsWorkerStep(step)
    ensures Connections(After(s, step))
  {
    hide Counted, Ids, Exclusion;
    if step.ClearCl? || step.ServeRequest? {
      assert WorkerFits(s, step.i);
    }
  }

  lemma InvStep(s: System, step: Step)
    requires Inv(s) && Enabled(s, step)
    ensures Inv(After(s, step)) && |After(s, step).pc| == |s.pc|
  {
    hide Exclusion, Ids, Workers, Counted;
    ExclusionStep(s, step);
    CountedStep(s, step);
    IdsStep(s, step);
    WorkersStep(s, step);
    if IsWorkerStep(step) {
      ConnectionsAfterWorker(s, step);
    } else {
      ConnectionsAfterMain(s, step);
    }
  }

  /** What main's section does in a reachable state: an id comes off the queue, it is a worker's, the
      worker is free, and its `cl` gets the connection. */
  lemma HandingOver(s: System)
    requires Inv(s) && s.main.Dequeuing?
    ensures |s.pc| == |s.cl| && s.queue != [] && 0 <= s.queue[0] < |s.cl| && s.cl[s.queue[0]] == 0
    ensures Enabled(s, Dequeue) && Enabled(After(s, Dequeue), Assign)
    ensures var s' := After(After(s, Dequeue), Assign);
            && s'.queue == s.queue[1..] && s'.cl == s.cl[s.queue[0] := s.main.conn] && s'.main == Signalling(s.queue[0])
  {
    hide Exclusion, Connections, NoDuplicates;
    DequeueFinds(s);
    assert s.queue[0] in s.queue;
    assert WorkerFits(s, s.queue[0]);
  }

  /** What the worker's second section does: its id goes to the end of the queue. */
  lemma Requeuing(s: System, i: nat)
    requires Inv(s) && Enabled(s, EnqueueSelf(i))
    ensures i !in s.queue
    ensures After(s, EnqueueSelf(i)).queue == s.queue + [i] && After(s, EnqueueSelf(i)).cl == s.cl
  {
    hide Exclusion, Connections, Ids, Counted;
    EnqueuingIsAbsent(s, i);
  }

  // ---------- Runs ----------

  ghost predicate Follows(states: seq<System>, steps: seq<Step>) {
    && |states| == |steps| + 1
    && forall i | 0 <= i < |steps| :: Enabled(states[i], steps[i]) && states[i + 1] == After(states[i], steps[i])
  }

  ghost predicate Run(n: nat, states: seq<System>, steps: seq<Step>) {
    Follows(states, steps) && states[0] == Initial(n)
  }

  lemma {:induction false} InvAlong(states: seq<System>, steps: seq<Step>, i: nat)
    requires Follows(states, steps) && Inv(states[0]) && i < |states|
    ensures Inv(states[i]) && |states[i].pc| == |states[0].pc|
  {
    hide Inv, Enabled;
    if i > 0 {
      InvAlong(states, steps, i - 1);
      InvStep(states[i - 1], steps[i - 1]);
    }
  }

  /** Dispatch is safe for any number of workers and any interleaving: the queue is as long as the
      permits say; dequeue finds a worker, and the one it finds is idle; a connection is served by
      the worker it was handed to and no other; and that worker's `cl` holds it until it is through,
      so the unlocked `cl = 0` never wipes out a new hand-over. */
  lemma DispatchSafety(n: nat, states: seq<System>, steps: seq<Step>, i: nat)
    requires Run(n, states, steps) && i < |states|
    ensures var s := states[i];
            && |s.pc| == |s.cl| == n
            && |s.queue| == s.sem + HeldPermit(s.main) + Total(UNPOSTED, s.pc)
            && (s.main.Dequeuing? ==> s.queue != [])
            && (s.main.Assigning? ==> 0 <= s.main.id < n && s.cl[s.main.id] == 0)
            && (forall c: nat :: c in s.handed <==> 0 < c <= s.accepted && !(HasConn(s.main) && c == s.accepted))
            && (forall c | c in s.handed && c !in s.finished :: s.handed[c] < n && s.cl[s.handed[c]] == c)
            && (forall p, q | p in s.served && q in s.served && p.1 == q.1 :: p.0 == q.0)
  {
    InitialInv(n);
    InvAlong(states, steps, i);
    var s := states[i];
    if s.main.Dequeuing? {
      DequeueFinds(s);
    }
    if s.main.Assigning? {
      assert WorkerFits(s, s.main.id);
    }
  }

  /** Once handed over, a connection is never handed to another worker. */
  lemma {:induction false} HandedOnce(n: nat, states: seq<System>, steps: seq<Step>, i: nat, j: nat, c: nat)
    requires Run(n, states, steps) && i <= j < |states| && c in states[i].handed
    ensures c in states[j].handed && states[j].handed[c] == states[i].handed[c]
    decreases j - i
  {
    hide Inv, Initial;
    if i < j {
      HandedOnce(n, states, steps, i, j - 1, c);
      InitialInv(n);
      InvAlong(states, steps, j - 1);
      HandedStays(states[j - 1], steps[j - 1], c);
    }
  }

  lemma HandedStays(s: System, step: Step, c: nat)
    requires Inv(s) && Enabled(s, step) && c in s.handed
    ensures c in After(s, step).handed && After(s, step).handed[c] == s.handed[c]
  {
    hide Exclusion, Counted, Ids, WorkerFits;
  }

  /** No wake-up is lost: a parked worker has no connection and is in the queue, except while main
      holds the mutex between taking it off the queue and signalling it. And main does not wait for
      a permit while all workers are parked. */
  lemma NoLostWakeUp(n: nat, states: seq<System>, steps: seq<Step>, i: nat)
    requires Run(n, states, steps) && i < |states| && n > 0
    ensures var s := states[i];
            && |s.pc| == |s.cl| == n
            && (forall w: nat | w < n && s.pc[w] == Parked ::
                  (s.cl[w] == 0 && w in s.queue) || Chosen(s, w) || s.main == Signalling(w))
            && !(s.main.Waiting? && s.sem == 0 && forall w | 0 <= w < n :: s.pc[w] == Parked)
  {
    InitialInv(n);
    InvAlong(states, steps, i);
    var s := states[i];
    forall w: nat | w < n && s.pc[w] == Parked
      ensures (s.cl[w] == 0 && w in s.queue) || Chosen(s, w) || s.main == Signalling(w)
    {
      assert WorkerFits(s, w);
    }
    TotalZero(UNPOSTED, s.pc);
    assert s.pc[0] == Parked && s.main.Waiting? ==> |s.queue| > 0;
  }

  // ---------- Progress ----------

  /** Steps the threads take by themselves: neither a client's doing nor a spurious wake-up. */
  predicate Internal(step: Step) {
    !(step.Accept? || step.SpuriousWake? || step.ServeRequest? || step.HangUp?)
  }

  /** Nothing is left to do: main waits for a client or a permit, each worker is parked or serving. */
  ghost predicate Settled(s: System) {
    && (s.main == Accepting || (s.main.Waiting? && s.sem == 0))
    && forall i | 0 <= i < |s.pc| :: s.pc[i] == Parked || s.pc[i] == Serving
  }

  function WorkerStep(pc: WorkerPc, i: nat): Step {
    match pc
    case ToLock => Lock(i)
    case Checking => Check(i)
    case Parked => SpuriousWake(i)
    case Woken => Relock(i)
    case ToUnlock => Unlock(i)
    case Serving => HangUp(i)
    case Clearing => ClearCl(i)
    case ToLockAgain => LockAgain(i)
    case Enqueuing => EnqueueSelf(i)
    case ToUnlockAgain => UnlockAgain(i)
    case Posting => Post(i)
  }

  function MainStep(main: MainPc): Step {
    match main
    case Accepting => Accept
    case Waiting(_) => SemWait
    case Locking(_) => MainLock
    case Dequeuing(_) => Dequeue
    case Assigning(_, _) => Assign
    case Signalling(_) => Signal
    case Unlocking => MainUnlock
  }

  lemma HoldingMainCanGoOn(s: System)
    requires Exclusion(s) && Ids(s) && |s.pc| == |s.cl| && s.holder == MainThread
    ensures Internal(MainStep(s.main)) && Enabled(s, MainStep(s.main))
  {
  }

  lemma HoldingWorkerCanGoOn(s: System, i: nat)
    requires Exclusion(s) && |s.pc| == |s.cl| && s.holder == Worker(i)
    ensures i < |s.pc| && Internal(WorkerStep(s.pc[i], i)) && Enabled(s, WorkerStep(s.pc[i], i))
  {
  }

  lemma FreeWorkerCanGoOn(s: System, i: nat)
    requires Exclusion(s) && |s.pc| == |s.cl| && s.holder == Nobody
    requires i < |s.pc| && s.pc[i] != Parked && s.pc[i] != Serving
    ensures Internal(WorkerStep(s.pc[i], i)) && Enabled(s, WorkerStep(s.pc[i], i))
  {
    assert !WorkerHolds(s.pc[i]);
  }

  lemma FreeMainCanGoOn(s: System)
    requires Exclusion(s) && s.holder == Nobody && s.main != Accepting && !(s.main.Waiting? && s.sem == 0)
    ensures Internal(MainStep(s.main)) && Enabled(s, MainStep(s.main))
  {
  }

  /** There is no deadlock: some thread can go on, or the server has settled. */
  lemma SomeThreadCanGoOn(s: System) returns (step: Step)
    requires Inv(s)
    ensures Settled(s) || (Internal(step) && Enabled(s, step))
  {
    hide Exclusion, Ids, Counted, Connections, WorkerFits, Enabled, Internal;
    step := MainStep(s.main);
    match s.holder
    case MainThread => HoldingMainCanGoOn(s);
    case Worker(i) =>
      HoldingWorkerCanGoOn(s, i);
      step := WorkerStep(s.pc[i], i);
    case Nobody =>
      if i: nat :| i < |s.pc| && s.pc[i] != Parked && s.pc[i] != Serving {
        FreeWorkerCanGoOn(s, i);
        step := WorkerStep(s.pc[i], i);
      } else if s.main != Accepting && !(s.main.Waiting? && s.sem == 0) {
        FreeMainCanGoOn(s);
      }
  }

  const WORKER_RANK: WorkerPc -> nat := (pc: WorkerPc) =>
    match pc
    case Parked => 0
    case Serving => 0
    case ToUnlock => 1
    case Checking => 2
    case ToLock => 3
    case Woken => 3
    case Posting => 4
    case ToUnlockAgain => 5
    case Enqueuing => 6
    case ToLockAgain => 7
    case Clearing => 8

  function MainRank(main: MainPc): nat {
    match main
    case Accepting => 0
    case Unlocking => 1
    case Signalling(_) => 2
    case Assigning(_, _) => 3
    case Dequeuing(_) => 4
    case Locking(_) => 5
    case Waiting(_) => 6
  }

  function Rank(s: System): nat {
    4 * MainRank(s.main) + Total(WORKER_RANK, s.pc)
  }

  lemma InternalStepsRunOut(s: System, step: Step)
    requires Enabled(s, step) && Internal(step)
    ensures Rank(After(s, step)) < Rank(s)
  {
    hide Total;
    if IsWorkerStep(step) {
      var i, s' := step.i, After(s, step);
      assert s'.pc == s.pc[i := s'.pc[i]];
      TotalUpdate(WORKER_RANK, s.pc, i, s'.pc[i]);
    } else if step.Signal? {
      TotalUpdate(WORKER_RANK, s.pc, s.main.id, Woken);
    }
  }

  /** However the threads are scheduled, they settle: without clients and spurious wake-ups there
      are at most 8n + 24 more steps. */
  lemma {:induction false} Settling(states: seq<System>, steps: seq<Step>)
    requires Follows(states, steps) && Inv(states[0])
    requires forall i | 0 <= i < |steps| :: Internal(steps[i])
    ensures |steps| <= Rank(states[0]) <= 8 * |states[0].pc| + 24
    decreases |steps|
  {
    TotalBound(WORKER_RANK, states[0].pc, 8);
    if steps != [] {
      assert states[1] == After(states[0], steps[0]);
      InvStep(states[0], steps[0]);
      InternalStepsRunOut(states[0], steps[0]);
      var states', steps' := states[1..], steps[1..];
      forall i | 0 <= i < |steps'|
        ensures Enabled(states'[i], steps'[i]) && states'[i + 1] == After(states'[i], steps'[i])
      {
        assert states[(i + 1) + 1] == After(states[i + 1], steps[i + 1]);
      }
      Settling(states', steps');
    }
  }

  /** What a settled server looks like: each connection handed over and not finished is being
      served, the parked workers are queued, and main waits for a permit only because all workers
      are serving. */
  lemma SettledServer(s: System)
    requires Inv(s) && Settled(s)
    ensures forall c | c in s.handed && c !in s.finished ::
              s.handed[c] < |s.pc| && s.pc[s.handed[c]] == Serving && s.cl[s.handed[c]] == c
    ensures forall w: nat | w < |s.pc| && s.pc[w] == Parked :: w in s.queue && s.cl[w] == 0
    ensures s.main.Waiting? ==> forall w: nat | w < |s.pc| :: s.pc[w] == Serving
  {
    forall w: nat | w < |s.pc|
      ensures s.pc[w] == Parked ==> w in s.queue && s.cl[w] == 0
    {
      assert WorkerFits(s, w);
    }
    TotalZero(UNPOSTED, s.pc);
  }
}
