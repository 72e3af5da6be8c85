/** Threads running their sections under kvs_mutex, interleaved step by step: every execution amounts
    to running the sections one after another in the order of lock acquisition. */
module Serialisation {
  import opened Requests
  import opened Durability
  import opened Sections

  /** `order` records the acquisitions. */
  datatype Machine = Machine(life: Life, locked: bool, threads: seq<Stage>, order: seq<nat>)

  datatype Move = Acquire(i: nat) | Go(i: nat) | Release(i: nat)

  /** A step inside a section does not look at the mutex; only acquiring does. */
  ghost predicate Enabled(s: Machine, e: Move, jobs: seq<Job>) {
    && e.i < |s.threads| == |jobs|
    && Acceptable(jobs[e.i])
    && var st := s.threads[e.i];
       match e
       case Acquire(_) => st.Before? && !s.locked
       case Go(_) => Within(st) && !AtRelease(st) && Belongs(jobs[e.i], st)
       case Release(_) => AtRelease(st) && Belongs(jobs[e.i], st)
  }

  ghost function After(s: Machine, e: Move, jobs: seq<Job>, limit: nat): Machine
    requires Enabled(s, e, jobs)
  {
    var i, st := e.i, s.threads[e.i];
    match e
    case Acquire(_) => s.(locked := true, threads := s.threads[i := EntryStage(jobs[i])], order := s.order + [i])
    case Go(_) =>
      var (life, st') := Act(s.life, jobs[i], st, limit);
      s.(life := life, threads := s.threads[i := st'])
    case Release(_) => s.(locked := false, threads := s.threads[i := Gone(ReplyAt(jobs[i], st))])
  }

  function Start(life: Life, n: nat): Machine {
    Machine(life, false, seq(n, _ => Before), [])
  }

  // ---------- One section after another ----------

  predicate Indices(order: seq<nat>, n: nat) {
    forall p | 0 <= p < |order| :: order[p] < n
  }

  function Serial(life: Life, jobs: seq<Job>, order: seq<nat>, limit: nat): Life
    requires Indices(order, |jobs|)
  {
    if order == [] then life
    else
      var last := |order| - 1;
      Effect(Serial(life, jobs, order[..last], limit), jobs[order[last]], limit).0
  }

  function SerialReply(life: Life, jobs: seq<Job>, order: seq<nat>, limit: nat, p: nat): Reply
    requires Indices(order, |jobs|) && p < |order|
  {
    Effect(Serial(life, jobs, order[..p], limit), jobs[order[p]], limit).1
  }

  // ---------- The invariant ----------

  ghost predicate Orderly(s: Machine, jobs: seq<Job>) {
    && |s.threads| == |jobs|
    && Indices(s.order, |jobs|)
    && (forall p, q | 0 <= p < q < |s.order| :: s.order[p] != s.order[q])
    && (forall i: nat | i < |s.threads| :: s.threads[i].Before? <==> i !in s.order)
    // mutual exclusion: the one thread inside is the last that acquired
    && (s.locked ==> s.order != [])
    && (forall i: nat | i < |s.threads| && Within(s.threads[i]) :: s.locked && i == s.order[|s.order| - 1])
    && (s.locked ==> Within(s.threads[s.order[|s.order| - 1]]))
  }

  /** What the thread inside will have done at the end of its section is the effect of its section,
      behind the sections before it. */
  ghost predicate OnTrack(s: Machine, life: Life, jobs: seq<Job>, limit: nat)
    requires Orderly(s, jobs)
  {
    if s.locked then
      var last := |s.order| - 1;
      var i := s.order[last];
      && Belongs(jobs[i], s.threads[i])
      && ToEnd(s.life, jobs[i], s.threads[i], limit) == Effect(Serial(life, jobs, s.order[..last], limit), jobs[i], limit)
    else
      s.life == Serial(life, jobs, s.order, limit)
  }

  ghost predicate Answered(s: Machine, life: Life, jobs: seq<Job>, limit: nat)
    requires Orderly(s, jobs)
  {
    forall p: nat | p < |s.order| && s.threads[s.order[p]].Gone? ::
      s.threads[s.order[p]].reply == SerialReply(life, jobs, s.order, limit, p)
  }

  ghost predicate Inv(s: Machine, life: Life, jobs: seq<Job>, limit: nat) {
    Orderly(s, jobs) && OnTrack(s, life, jobs, limit) && Answered(s, life, jobs, limit)
  }

  lemma OrderlyStep(s: Machine, e: Move, jobs: seq<Job>, limit: nat)
    requires Orderly(s, jobs) && Enabled(s, e, jobs)
    ensures Orderly(After(s, e, jobs, limit), jobs)
  {
    hide Acceptable, EntryStage, Act, Belongs, ReplyAt;
    var s' := After(s, e, jobs, limit);
    match e
    case Acquire(i) =>
      EntryBelongs(jobs[i]);
      assert forall j | j in s'.order :: j in s.order || j == i;
      assert s'.order[|s.order|] == i;
    case Go(i) => ActAdvances(s.life, jobs[i], s.threads[i], limit);
    case Release(i) => assert Within(s.threads[i]);
  }

  lemma OnTrackStep(s: Machine, e: Move, life: Life, jobs: seq<Job>, limit: nat)
    requires Orderly(s, jobs) && OnTrack(s, life, jobs, limit) && Enabled(s, e, jobs)
    requires Orderly(After(s, e, jobs, limit), jobs)
    ensures OnTrack(After(s, e, jobs, limit), life, jobs, limit)
  {
    hide Acceptable, EntryStage, Act, Belongs, ReplyAt, Effect;
    assert Within(s.threads[e.i]) || e.Acquire?;
    var s' := After(s, e, jobs, limit);
    match e
    case Acquire(i) =>
      SectionIsEffect(s.life, jobs[i], limit);
      assert s'.order[..|s.order|] == s.order;
    case Go(i) => ActAdvances(s.life, jobs[i], s.threads[i], limit);
    case Release(i) =>
  }

  lemma AnsweredAfterAcquire(s: Machine, i: nat, life: Life, jobs: seq<Job>, limit: nat)
    requires Orderly(s, jobs) && Answered(s, life, jobs, limit) && Enabled(s, Acquire(i), jobs)
    requires Orderly(After(s, Acquire(i), jobs, limit), jobs)
    ensures Answered(After(s, Acquire(i), jobs, limit), life, jobs, limit)
  {
    hide Acceptable, EntryStage, Effect, Serial, Belongs;
    EntryBelongs(jobs[i]);
    var s' := After(s, Acquire(i), jobs, limit);
    forall p: nat | p < |s'.order| && s'.threads[s'.order[p]].Gone?
      ensures s'.threads[s'.order[p]].reply == SerialReply(life, jobs, s'.order, limit, p)
    {
      assert p < |s.order| && s'.order[..p] == s.order[..p];
    }
  }

  lemma AnsweredAfterOther(s: Machine, e: Move, life: Life, jobs: seq<Job>, limit: nat)
    requires Inv(s, life, jobs, limit) && Enabled(s, e, jobs) && !e.Acquire?
    requires Orderly(After(s, e, jobs, limit), jobs)
    ensures Answered(After(s, e, jobs, limit), life, jobs, limit)
  {
    hide Acceptable, Act, Belongs, ReplyAt, Effect;
    assert Within(s.threads[e.i]);
    if e.Go? {
      ActAdvances(s.life, jobs[e.i], s.threads[e.i], limit);
    }
  }

  lemma InvStep(s: Machine, e: Move, life: Life, jobs: seq<Job>, limit: nat)
    requires Inv(s, life, jobs, limit) && Enabled(s, e, jobs)
    ensures Inv(After(s, e, jobs, limit), life, jobs, limit)
  {
    hide Orderly, OnTrack, Answered, Enabled, After;
    OrderlyStep(s, e, jobs, limit);
    OnTrackStep(s, e, life, jobs, limit);
    if e.Acquire? {
      AnsweredAfterAcquire(s, e.i, life, jobs, limit);
    } else {
      AnsweredAfterOther(s, e, life, jobs, limit);
    }
  }

  ghost predicate Interleaving(states: seq<Machine>, moves: seq<Move>, life: Life, jobs: seq<Job>, limit: nat) {
    && |states| == |moves| + 1
    && states[0] == Start(life, |jobs|)
    && forall k | 0 <= k < |moves| ::
         Enabled(states[k], moves[k], jobs) && states[k + 1] == After(states[k], moves[k], jobs, limit)
  }

  lemma MoveOf(states: seq<Machine>, moves: seq<Move>, life: Life, jobs: seq<Job>, limit: nat, k: nat)
    requires Interleaving(states, moves, life, jobs, limit) && k < |moves|
    ensures k + 1 < |states|
    ensures Enabled(states[k], moves[k], jobs) && states[k + 1] == After(states[k], moves[k], jobs, limit)
  {
    hide Enabled, After;
  }

  lemma StartInv(life: Life, jobs: seq<Job>, limit: nat)
    ensures Inv(Start(life, |jobs|), life, jobs, limit)
  {
  }

  lemma {:induction false} InvAlong(states: seq<Machine>, moves: seq<Move>, life: Life, jobs: seq<Job>, limit: nat, k: nat)
    requires Interleaving(states, moves, life, jobs, limit) && k < |states|
    ensures Inv(states[k], life, jobs, limit)
  {
    hide Inv, Enabled, After;
    if k == 0 {
      StartInv(life, jobs, limit);
    } else {
      InvAlong(states, moves, life, jobs, limit, k - 1);
      MoveOf(states, moves, life, jobs, limit, k - 1);
      InvStep(states[k - 1], moves[k - 1], life, jobs, limit);
    }
  }

  /** Critical sections serialise: whenever the mutex is free, variables and log are what running
      the sections in acquisition order gives, each section having run at most once; and each reply
      given so far is the one of that serial execution. */
  lemma SectionsSerialise(states: seq<Machine>, moves: seq<Move>, life: Life, jobs: seq<Job>, limit: nat, k: nat)
    requires Interleaving(states, moves, life, jobs, limit) && k < |states|
    ensures var s := states[k];
            && |s.threads| == |jobs| && Indices(s.order, |jobs|)
            && (forall p, q | 0 <= p < q < |s.order| :: s.order[p] != s.order[q])
            && (forall i: nat, j: nat | i < j < |s.threads| :: !(Within(s.threads[i]) && Within(s.threads[j])))
            && (!s.locked ==> s.life == Serial(life, jobs, s.order, limit))
            && (forall p: nat | p < |s.order| && s.threads[s.order[p]].Gone? ::
                  s.threads[s.order[p]].reply == SerialReply(life, jobs, s.order, limit, p))
  {
    InvAlong(states, moves, life, jobs, limit, k);
  }
}
