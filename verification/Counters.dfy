/** Concurrent increments of one variable, x := x + i, as test.sh sends them: none is lost. */
module Counters {
  import opened Types
  import CheckedMath
  import opened Requests
  import opened Durability
  import opened Sections
  import opened Serialisation

  function Increment(x: Text, amount: int64, recursive: bool): Request {
    Arithmetic(CheckedMath.Add, Variable(Some(x)), Immediate(amount), Keep(Some(x)), recursive)
  }

  predicate IsIncrement(job: Job, x: Text, amount: int64) {
    job.Ask? && job.request.Arithmetic? && job.request == Increment(x, amount, job.request.recursive)
  }

  ghost predicate AllIncrements(x: Text, jobs: seq<Job>, amounts: seq<int64>) {
    && ValidName(x)
    && |jobs| == |amounts|
    && forall i | 0 <= i < |jobs| :: IsIncrement(jobs[i], x, amounts[i])
  }

  predicate HoldsNumber(s: Life, x: Text) {
    x in s.vars && s.vars[x].Num?
  }

  /** The amounts of the requests that a serial execution answers with a number. */
  function Gained(s: Life, jobs: seq<Job>, amounts: seq<int64>, order: seq<nat>, limit: nat): int
    requires |jobs| == |amounts| && Indices(order, |jobs|)
  {
    if order == [] then 0
    else
      var last := |order| - 1;
      Gained(s, jobs, amounts, order[..last], limit)
      + if SerialReply(s, jobs, order, limit, last).Number? then amounts[order[last]] else 0
  }

  /** One increment adds its amount, or fails with EOVERFLOW and adds nothing. */
  lemma OneIncrement(s: Life, x: Text, job: Job, amount: int64, limit: nat)
    requires ValidName(x) && HoldsNumber(s, x) && IsIncrement(job, x, amount)
    ensures var (s', reply) := Effect(s, job, limit);
            var sum := s.vars[x].n + amount;
            && HoldsNumber(s', x)
            && (if Fits(sum) then s'.vars[x] == Num(sum) && reply == Number(sum)
                else s'.vars == s.vars && reply == Failed(EOVERFLOW))
  {
  }

  lemma {:induction false} SerialCounter(s: Life, x: Text, jobs: seq<Job>, amounts: seq<int64>, order: seq<nat>, limit: nat)
    requires AllIncrements(x, jobs, amounts) && Indices(order, |jobs|) && HoldsNumber(s, x)
    ensures var vars := Serial(s, jobs, order, limit).vars;
            x in vars && vars[x].Num? && vars[x].n == s.vars[x].n + Gained(s, jobs, amounts, order, limit)
    decreases |order|
  {
    hide Effect, IsIncrement;
    if order != [] {
      var last := |order| - 1;
      SerialCounter(s, x, jobs, amounts, order[..last], limit);
      OneIncrement(Serial(s, jobs, order[..last], limit), x, jobs[order[last]], amounts[order[last]], limit);
    }
  }

  // ---------- Sums over duplicate-free orders ----------

  function SumOver(amounts: seq<int>, order: seq<nat>): int
    requires Indices(order, |amounts|)
  {
    if order == [] then 0 else SumOver(amounts, order[..|order| - 1]) + amounts[order[|order| - 1]]
  }

  function Sum(amounts: seq<int>): int {
    if amounts == [] then 0 else Sum(amounts[..|amounts| - 1]) + amounts[|amounts| - 1]
  }

  ghost predicate Distinct(order: seq<nat>) {
    forall p, q | 0 <= p < q < |order| :: order[p] != order[q]
  }

  lemma {:induction false} SumWithout(amounts: seq<int>, order: seq<nat>, p: nat)
    requires Indices(order, |amounts|) && p < |order|
    ensures Indices(order[..p] + order[p + 1..], |amounts|)
    ensures SumOver(amounts, order) == SumOver(amounts, order[..p] + order[p + 1..]) + amounts[order[p]]
    decreases |order|
  {
    var rest := order[..p] + order[p + 1..];
    var last := |order| - 1;
    if p == last {
      assert rest == order[..last];
    } else {
      SumWithout(amounts, order[..last], p);
      assert order[..last][..p] + order[..last][p + 1..] == rest[..|rest| - 1];
    }
  }

  lemma {:induction false} SumShorter(amounts: seq<int>, order: seq<nat>)
    requires amounts != [] && Indices(order, |amounts| - 1)
    ensures SumOver(amounts, order) == SumOver(amounts[..|amounts| - 1], order)
    decreases |order|
  {
    if order != [] {
      SumShorter(amounts, order[..|order| - 1]);
    }
  }

  /** A duplicate-free choice of non-negative amounts sums to no more than all of them. */
  lemma {:induction false} SumOfSome(amounts: seq<int>, order: seq<nat>)
    requires Indices(order, |amounts|) && Distinct(order)
    requires forall i | 0 <= i < |amounts| :: amounts[i] >= 0
    ensures 0 <= SumOver(amounts, order) <= Sum(amounts)
    decreases |amounts|
  {
    if amounts != [] {
      var top := |amounts| - 1;
      if p: nat :| p < |order| && order[p] == top {
        SumWithout(amounts, order, p);
        var rest := order[..p] + order[p + 1..];
        assert Indices(rest, top);
        SumShorter(amounts, rest);
        SumOfSome(amounts[..top], rest);
      } else {
        SumShorter(amounts, order);
        SumOfSome(amounts[..top], order);
      }
    }
  }

  lemma WithoutTop(order: seq<nat>, top: nat, p: nat)
    requires Indices(order, top + 1) && Distinct(order) && p < |order| && order[p] == top
    requires forall i: nat | i <= top :: i in order
    ensures var rest := order[..p] + order[p + 1..];
            Indices(rest, top) && Distinct(rest) && forall i: nat | i < top :: i in rest
  {
    var rest := order[..p] + order[p + 1..];
    forall i: nat | i < top
      ensures i in rest
    {
      assert i in order;
      var q :| 0 <= q < |order| && order[q] == i;
      assert rest[if q < p then q else q - 1] == i;
    }
  }

  /** An order that visits every index once sums all amounts. */
  lemma {:induction false} SumOfAll(amounts: seq<int>, order: seq<nat>)
    requires Indices(order, |amounts|) && Distinct(order)
    requires forall i: nat | i < |amounts| :: i in order
    ensures SumOver(amounts, order) == Sum(amounts)
    decreases |amounts|
  {
    hide SumOver;
    if amounts == [] {
      NothingToSum(amounts, order);
    } else {
      var top := |amounts| - 1;
      assert top in order;
      var p: nat :| p < |order| && order[p] == top;
      SumWithout(amounts, order, p);
      WithoutTop(order, top, p);
      var rest := order[..p] + order[p + 1..];
      SumShorter(amounts, rest);
      SumOfAll(amounts[..top], rest);
    }
  }

  lemma NothingToSum(amounts: seq<int>, order: seq<nat>)
    requires Indices(order, |amounts|)
    ensures amounts == [] ==> SumOver(amounts, order) == 0
  {
    if order != [] {
      assert order[0] < |amounts|;
    }
  }

  function Ups(amounts: seq<int>): seq<int> {
    seq(|amounts|, i requires 0 <= i < |amounts| => if amounts[i] > 0 then amounts[i] else 0)
  }

  function Downs(amounts: seq<int>): seq<int> {
    seq(|amounts|, i requires 0 <= i < |amounts| => if amounts[i] < 0 then -amounts[i] else 0)
  }

  lemma {:induction false} SumSplits(amounts: seq<int>, order: seq<nat>)
    requires Indices(order, |amounts|)
    ensures SumOver(amounts, order) == SumOver(Ups(amounts), order) - SumOver(Downs(amounts), order)
    decreases |order|
  {
    if order != [] {
      SumSplits(amounts, order[..|order| - 1]);
    }
  }

  predicate HasRoom(start: int64, amounts: seq<int>) {
    start + Sum(Ups(amounts)) <= INT64_MAX && start - Sum(Downs(amounts)) >= INT64_MIN
  }

  lemma RoomForSome(start: int64, amounts: seq<int>, order: seq<nat>)
    requires HasRoom(start, amounts) && Indices(order, |amounts|) && Distinct(order)
    ensures Fits(start + SumOver(amounts, order))
  {
    SumSplits(amounts, order);
    SumOfSome(Ups(amounts), order);
    SumOfSome(Downs(amounts), order);
  }

  /** Room for all increments and for all decrements: no order of the requests can overflow. */
  lemma {:induction false} RoomForAll(s: Life, x: Text, jobs: seq<Job>, amounts: seq<int64>, order: seq<nat>, limit: nat)
    requires AllIncrements(x, jobs, amounts) && Indices(order, |jobs|) && Distinct(order)
    requires HoldsNumber(s, x) && HasRoom(s.vars[x].n, amounts)
    ensures Gained(s, jobs, amounts, order, limit) == SumOver(amounts, order)
    ensures order != [] ==> SerialReply(s, jobs, order, limit, |order| - 1).Number?
    decreases |order|
  {
    hide Effect, HasRoom, IsIncrement;
    if order != [] {
      var last := |order| - 1;
      var before := order[..last];
      RoomForAll(s, x, jobs, amounts, before, limit);
      SerialCounter(s, x, jobs, amounts, before, limit);
      OneIncrement(Serial(s, jobs, before, limit), x, jobs[order[last]], amounts[order[last]], limit);
      RoomForSome(s.vars[x].n, amounts, order);
    }
  }

  lemma EachSucceeds(s: Life, x: Text, jobs: seq<Job>, amounts: seq<int64>, order: seq<nat>, limit: nat, p: nat)
    requires AllIncrements(x, jobs, amounts) && Indices(order, |jobs|) && Distinct(order) && p < |order|
    requires HoldsNumber(s, x) && HasRoom(s.vars[x].n, amounts)
    ensures SerialReply(s, jobs, order, limit, p).Number?
  {
    hide Effect, HasRoom, IsIncrement, Serial;
    RoomForAll(s, x, jobs, amounts, order[..p + 1], limit);
    assert order[..p + 1][..p] == order[..p];
  }

  /** A serial execution that answers all requests with numbers adds up all their amounts. */
  lemma {:induction false} AllAnsweredSerially(s: Life, jobs: seq<Job>, amounts: seq<int64>, order: seq<nat>, limit: nat)
    requires |jobs| == |amounts| && Indices(order, |jobs|)
    requires forall p: nat | p < |order| :: SerialReply(s, jobs, order, limit, p).Number?
    ensures Gained(s, jobs, amounts, order, limit) == SumOver(amounts, order)
    decreases |order|
  {
    hide Effect, Serial;
    if order != [] {
      var before := order[..|order| - 1];
      forall p: nat | p < |before|
        ensures SerialReply(s, jobs, before, limit, p) == SerialReply(s, jobs, order, limit, p)
      {
        assert before[..p] == order[..p];
      }
      AllAnsweredSerially(s, jobs, amounts, before, limit);
    }
  }

  // ---------- The room is exact ----------

  predicate Signed(amount: int, up: bool) {
    if up then amount > 0 else amount < 0
  }

  /** The indices of the amounts with the sign asked for. */
  function Chosen(amounts: seq<int>, up: bool): (order: seq<nat>)
    ensures Indices(order, |amounts|) && Distinct(order)
  {
    if amounts == [] then []
    else
      var top := |amounts| - 1;
      Chosen(amounts[..top], up) + if Signed(amounts[top], up) then [top] else []
  }

  /** The sum of the increments, or of the decrements. */
  function Extreme(amounts: seq<int>, up: bool): int {
    if up then Sum(Ups(amounts)) else -Sum(Downs(amounts))
  }

  lemma ExtremeStep(amounts: seq<int>, up: bool)
    requires amounts != []
    ensures var top := |amounts| - 1;
            Extreme(amounts, up) == Extreme(amounts[..top], up) + if Signed(amounts[top], up) then amounts[top] else 0
  {
    var top := |amounts| - 1;
    assert Ups(amounts)[..top] == Ups(amounts[..top]) && Downs(amounts)[..top] == Downs(amounts[..top]);
  }

  lemma {:induction false} ChosenSum(amounts: seq<int>, up: bool)
    ensures SumOver(amounts, Chosen(amounts, up)) == Extreme(amounts, up)
    decreases |amounts|
  {
    hide Extreme, Signed;
    if amounts == [] {
      NothingToSum(amounts, Chosen(amounts, up));
      ExtremeOfNone(up);
    } else {
      var top := |amounts| - 1;
      var fewer := Chosen(amounts[..top], up);
      ChosenSum(amounts[..top], up);
      SumShorter(amounts, fewer);
      ExtremeStep(amounts, up);
      if Signed(amounts[top], up) {
        assert (fewer + [top])[..|fewer|] == fewer;
      } else {
        assert fewer + [] == fewer;
      }
    }
  }

  lemma ExtremeOfNone(up: bool)
    ensures Extreme([], up) == 0
  {
  }

  /** An order that leaves the range is not answered with numbers only. */
  lemma TooMuch(s: Life, x: Text, jobs: seq<Job>, amounts: seq<int64>, order: seq<nat>, limit: nat)
    requires AllIncrements(x, jobs, amounts) && Indices(order, |jobs|) && HoldsNumber(s, x)
    requires !Fits(s.vars[x].n + SumOver(amounts, order))
    ensures exists p: nat :: p < |order| && !SerialReply(s, jobs, order, limit, p).Number?
  {
    hide Effect, Serial, IsIncrement;
    if forall p: nat | p < |order| :: SerialReply(s, jobs, order, limit, p).Number? {
      AllAnsweredSerially(s, jobs, amounts, order, limit);
      SerialCounter(s, x, jobs, amounts, order, limit);
      assert false;
    }
  }

  /** Room for all is exactly what it takes for every order to answer every request with a number. */
  lemma RoomIsExact(s: Life, x: Text, jobs: seq<Job>, amounts: seq<int64>, limit: nat)
    requires AllIncrements(x, jobs, amounts) && HoldsNumber(s, x)
    ensures HasRoom(s.vars[x].n, amounts) <==>
            forall order: seq<nat>, p: nat | Indices(order, |jobs|) && Distinct(order) && p < |order| ::
              SerialReply(s, jobs, order, limit, p).Number?
  {
    hide Effect, Serial, IsIncrement, SerialReply;
    if HasRoom(s.vars[x].n, amounts) {
      forall order: seq<nat>, p: nat | Indices(order, |jobs|) && Distinct(order) && p < |order|
        ensures SerialReply(s, jobs, order, limit, p).Number?
      {
        EachSucceeds(s, x, jobs, amounts, order, limit, p);
      }
    } else {
      var up := s.vars[x].n + Sum(Ups(amounts)) > INT64_MAX;
      ChosenSum(amounts, up);
      TooMuch(s, x, jobs, amounts, Chosen(amounts, up), limit);
    }
  }

  // ---------- Interleaved runs ----------

  /** No increment is lost: however the threads interleave, whenever the mutex is free, x has grown by
      the amounts of exactly the requests that were answered with a number. */
  lemma NoLostIncrements(states: seq<Machine>, moves: seq<Move>, s: Life, x: Text, jobs: seq<Job>,
                         amounts: seq<int64>, limit: nat, k: nat)
    requires AllIncrements(x, jobs, amounts) && HoldsNumber(s, x)
    requires Interleaving(states, moves, s, jobs, limit) && k < |states| && !states[k].locked
    ensures Indices(states[k].order, |jobs|)
    ensures var vars := states[k].life.vars;
            && x in vars && vars[x].Num?
            && vars[x].n == s.vars[x].n + Gained(s, jobs, amounts, states[k].order, limit)
  {
    hide Effect, IsIncrement, Interleaving, Serial;
    SectionsSerialise(states, moves, s, jobs, limit, k);
    SerialCounter(s, x, jobs, amounts, states[k].order, limit);
  }

  ghost predicate AllThrough(m: Machine, jobs: seq<Job>) {
    |m.threads| == |jobs| && forall i | 0 <= i < |jobs| :: m.threads[i].Gone?
  }

  /** Once all threads are through, the mutex is free and every request has run once. */
  lemma AllRan(states: seq<Machine>, moves: seq<Move>, s: Life, jobs: seq<Job>, limit: nat, k: nat)
    requires Interleaving(states, moves, s, jobs, limit) && k < |states| && AllThrough(states[k], jobs)
    ensures var m := states[k];
            && !m.locked && Indices(m.order, |jobs|) && Distinct(m.order)
            && (forall i: nat | i < |jobs| :: i in m.order)
            && forall p: nat | p < |m.order| ::
                 m.threads[m.order[p]].reply == SerialReply(s, jobs, m.order, limit, p)
  {
    hide Effect, Interleaving, Belongs;
    InvAlong(states, moves, s, jobs, limit, k);
  }

  /** If every request has been answered with a number, x ends at its old value plus the sum of all
      amounts. */
  lemma AnsweredAddUp(states: seq<Machine>, moves: seq<Move>, s: Life, x: Text, jobs: seq<Job>,
                      amounts: seq<int64>, limit: nat, k: nat)
    requires AllIncrements(x, jobs, amounts) && HoldsNumber(s, x)
    requires Interleaving(states, moves, s, jobs, limit) && k < |states| && AllThrough(states[k], jobs)
    requires forall i | 0 <= i < |jobs| :: states[k].threads[i].reply.Number?
    ensures var vars := states[k].life.vars;
            x in vars && vars[x].Num? && vars[x].n == s.vars[x].n + Sum(amounts)
  {
    hide Effect, IsIncrement, Interleaving, Serial, SerialReply;
    AllRan(states, moves, s, jobs, limit, k);
    NoLostIncrements(states, moves, s, x, jobs, amounts, limit, k);
    AllAnsweredSerially(s, jobs, amounts, states[k].order, limit);
    SumOfAll(amounts, states[k].order);
  }

  /** With room for all increments and all decrements that is what happens. */
  lemma CounterEndsAtSum(states: seq<Machine>, moves: seq<Move>, s: Life, x: Text, jobs: seq<Job>,
                         amounts: seq<int64>, limit: nat, k: nat)
    requires AllIncrements(x, jobs, amounts) && HoldsNumber(s, x) && HasRoom(s.vars[x].n, amounts)
    requires Interleaving(states, moves, s, jobs, limit) && k < |states| && AllThrough(states[k], jobs)
    ensures forall i | 0 <= i < |jobs| :: states[k].threads[i].reply.Number?
    ensures var vars := states[k].life.vars;
            x in vars && vars[x].Num? && vars[x].n == s.vars[x].n + Sum(amounts)
  {
    hide Effect, IsIncrement, Interleaving, Serial, SerialReply, HasRoom;
    AllRan(states, moves, s, jobs, limit, k);
    var m := states[k];
    forall i | 0 <= i < |jobs|
      ensures m.threads[i].reply.Number?
    {
      assert i in m.order;
      var p: nat :| p < |m.order| && m.order[p] == i;
      EachSucceeds(s, x, jobs, amounts, m.order, limit, p);
    }
    AnsweredAddUp(states, moves, s, x, jobs, amounts, limit, k);
  }
}
