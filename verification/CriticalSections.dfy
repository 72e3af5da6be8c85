/** The critical sections under kvs_mutex, one call of the store or the log per step, and the proof
    that a section run by itself is one request of Requests. */
module CriticalSections {
  import opened Types
  import opened CheckedMath
  import opened LogText
  import opened Resolution
  import opened Requests
  import StoreCalls

  datatype Pc =
    | ToAcquire
    | CheckKey | ReadFlag | ReadValue     // an operand
    | Follow | ReadEnd | CheckEnd         // the do/while loop over names, and the lookup behind it
    | Operate | Insert | Append | Reread
    | InsertName | AppendName
    | CheckDelete | DeleteKey | AppendDelete
    | ToRelease
    | Finished

  /** The locals of server_run; `second` tells which operand is being looked up. */
  datatype Local = Local(
    pc: Pc, second: bool, status: byte, valA: int64, valB: int64,
    current: Option<Text>, temp: Option<Text>, iterations: nat, result: int64)

  predicate Inside(l: Local) {
    l.pc != ToAcquire && l.pc != Finished
  }

  /** Requests that run under the mutex. Reading a variable's name is not among them: its reply is
      made after the mutex is released. */
  predicate TakesLock(r: Request) {
    NamesAccepted(r) &&
    match r
    case Arithmetic(_, a, b, target, _) => a.Variable? || b.Variable? || target.Keep?
    case GetName(_) => false
    case SetName(_, _) => true
    case Delete(_) => true
  }

  function Fresh(r: Request): Local {
    var a := if r.Arithmetic? && r.a.Immediate? then r.a.v else 0;
    var b := if r.Arithmetic? && r.b.Immediate? then r.b.v else 0;
    Local(ToAcquire, false, OK, a, b, None, None, 0, 0)
  }

  /** The first step inside. */
  function Entry(r: Request, l: Local): Local
    requires TakesLock(r)
  {
    match r
    case Arithmetic(_, a, b, _, _) =>
      if a.Variable? then l.(pc := CheckKey, second := false)
      else if b.Variable? then l.(pc := CheckKey, second := true)
      else l.(pc := Operate, second := true)
    case SetName(_, _) => l.(pc := InsertName)
    case Delete(_) => l.(pc := CheckDelete)
  }

  lemma EntryIsInside(r: Request, l: Local)
    requires TakesLock(r)
    ensures Inside(Entry(r, l)) && Suits(r, Entry(r, l))
  {
  }

  function OperandName(r: Request, second: bool): Option<Text>
    requires r.Arithmetic?
  {
    var o := if second then r.b else r.a;
    if o.Variable? then o.name else None
  }

  function SetVal(l: Local, v: int64): Local {
    if l.second then l.(valB := v) else l.(valA := v)
  }

  /** Where the section goes on after an operand. */
  function NextOperand(r: Request, l: Local): Local
    requires r.Arithmetic?
  {
    if !l.second && r.b.Variable? && l.status == OK then l.(pc := CheckKey, second := true)
    else l.(pc := Operate, second := true)
  }

  function Line(key: Option<Text>, v: Value): Text {
    if key.None? then [] else PrintRecord(Put(key.value, v))
  }

  predicate Suits(r: Request, l: Local) {
    match l.pc
    case ToAcquire => true
    case Finished => true
    case ToRelease => true
    case InsertName => r.SetName?
    case AppendName => r.SetName?
    case CheckDelete => r.Delete?
    case DeleteKey => r.Delete? && r.key.Some?
    case AppendDelete => r.Delete? && r.key.Some?
    case Append => r.Arithmetic? && r.target.Keep?
    case Insert => r.Arithmetic? && r.target.Keep?
    case Reread => r.Arithmetic? && r.target.Keep?
    case _ => r.Arithmetic?
  }

  /** One atomic action inside the section. */
  function Micro(sh: Shared, r: Request, l: Local, limit: nat): (Shared, Local)
    requires Inside(l) && l.pc != ToRelease && Suits(r, l)
  {
    var m := sh.vars;
    match l.pc
    case CheckKey =>
      var status := StoreCalls.KeyCheck(m, OperandName(r, l.second));
      if status == OK then (sh, l.(status := status, pc := ReadFlag))
      else (sh, NextOperand(r, l.(status := status)))
    case ReadFlag =>
      var name := OperandName(r, l.second);
      var flag := StoreCalls.FlagLookup(m, name);
      if flag == 0 then (sh, l.(pc := ReadValue))
      else if flag == 1 then
        if r.recursive then (sh, l.(pc := Follow, iterations := 0, temp := name))
        else (sh, NextOperand(r, l.(status := EFAULT)))
      else (sh, NextOperand(r, l))
    case ReadValue => (sh, NextOperand(r, SetVal(l, StoreCalls.ValueLookup(m, OperandName(r, l.second)))))
    case Follow =>
      var temp := StoreCalls.NameLookup(m, l.temp);
      var l' := l.(current := l.temp, temp := temp, iterations := l.iterations + 1);
      if temp.Some? && l'.iterations < limit then (sh, l')
      else if l'.iterations < limit then (sh, l'.(pc := ReadEnd))
      else (sh, NextOperand(r, l'.(status := ELOOP)))
    case ReadEnd =>
      var v := StoreCalls.ValueLookup(m, l.current);
      if v == ENOENT then (sh, SetVal(l, v).(pc := CheckEnd)) else (sh, NextOperand(r, SetVal(l, v)))
    case CheckEnd => (sh, NextOperand(r, l.(status := StoreCalls.KeyCheck(m, l.current))))
    case Operate =>
      var result := Checked(r.op, l.valA, l.valB);
      var status := Recheck(r.op, l.valA, l.valB, result, l.status);
      var l' := l.(result := result, status := status);
      (sh, l'.(pc := if r.target.Keep? && status == OK then Insert else ToRelease))
    case Insert =>
      var vars := if r.target.name.Some? then m[r.target.name.value := Num(l.result)] else m;
      (sh.(vars := vars), l.(pc := Append))
    case Append => (sh.(log := sh.log + Line(r.target.name, Num(l.result))), l.(pc := Reread))
    case Reread => (sh, l.(result := StoreCalls.ValueLookup(m, r.target.name), pc := ToRelease))
    case InsertName =>
      var vars := if r.key.Some? then m[r.key.value := Ref(r.name)] else m;
      (sh.(vars := vars), l.(status := if r.key.Some? then OK else ENOENT, pc := AppendName))
    case AppendName => (sh.(log := sh.log + Line(r.key, Ref(r.name))), l.(pc := ToRelease))
    case CheckDelete =>
      var status := StoreCalls.KeyCheck(m, r.key);
      (sh, l.(status := status, pc := if status == OK then DeleteKey else ToRelease))
    case DeleteKey =>
      var status := StoreCalls.KeyCheck(m, r.key);
      (sh.(vars := m - {r.key.value}), l.(status := status, pc := if status == OK then AppendDelete else ToRelease))
    case AppendDelete => (sh.(log := sh.log + PrintRecord(Drop(r.key.value))), l.(pc := ToRelease))
  }

  function Rank(l: Local): nat {
    (if l.second then 0 else 20) +
    match l.pc
    case CheckKey => 10
    case ReadFlag => 9
    case ReadValue => 8
    case Follow => 8
    case ReadEnd => 7
    case CheckEnd => 6
    case Operate => 5
    case Insert => 4
    case Append => 3
    case Reread => 2
    case InsertName => 4
    case AppendName => 3
    case CheckDelete => 5
    case DeleteKey => 4
    case AppendDelete => 3
    case _ => 0
  }

  lemma MicroAdvances(sh: Shared, r: Request, l: Local, limit: nat)
    requires Inside(l) && l.pc != ToRelease && Suits(r, l)
    ensures var (_, l') := Micro(sh, r, l, limit);
            && Inside(l') && Suits(r, l')
            && (Rank(l') < Rank(l) || (Rank(l') == Rank(l) && limit - l'.iterations < limit - l.iterations && l'.iterations < limit))
  {
  }

  /** Running the section on its own from here to its end. */
  function RunToEnd(sh: Shared, r: Request, l: Local, limit: nat): (Shared, Local)
    requires Inside(l) && Suits(r, l)
    decreases Rank(l), limit - l.iterations
  {
    if l.pc == ToRelease then (sh, l)
    else
      MicroAdvances(sh, r, l, limit);
      var (sh', l') := Micro(sh, r, l, limit);
      RunToEnd(sh', r, l', limit)
  }

  function ReplyOf(r: Request, l: Local): Reply {
    if l.status != OK then Failed(l.status)
    else if r.Arithmetic? then Number(l.result)
    else Done
  }

  // ---------- A section run by itself is the request ----------

  lemma OneStep(sh: Shared, r: Request, l: Local, limit: nat) returns (l': Local)
    requires Inside(l) && l.pc != ToRelease && Suits(r, l) && Micro(sh, r, l, limit).0 == sh
    ensures l' == Micro(sh, r, l, limit).1 && Inside(l') && Suits(r, l')
    ensures RunToEnd(sh, r, l, limit) == RunToEnd(sh, r, l', limit)
  {
    MicroAdvances(sh, r, l, limit);
    l' := Micro(sh, r, l, limit).1;
  }

  /** The outcome of an operand lookup as the section's locals hold it. */
  predicate Holds(l: Local, l': Local, outcome: Outcome) {
    && (if l.second then l'.valA == l.valA else l'.valB == l.valB)
    && var val := if l.second then l'.valB else l'.valA;
       match outcome
       case Good(v) => l'.status == OK && val == v
       case Bad(e) => l'.status == e && e != OK && val in {0, ENOENT}
  }

  /** The section goes on behind the operand. */
  predicate Behind(r: Request, l: Local, l': Local)
    requires r.Arithmetic?
  {
    && l'.second
    && l'.pc == if !l.second && r.b.Variable? && l'.status == OK then CheckKey else Operate
  }

  lemma {:induction false} FollowRuns(sh: Shared, r: Request, l: Local, limit: nat) returns (l': Local)
    requires r.Arithmetic? && l.pc == Follow && l.temp.Some? && l.status == OK
    requires (if l.second then l.valB else l.valA) == 0
    ensures Inside(l') && Suits(r, l') && Behind(r, l, l')
    ensures Holds(l, l', Resolve(sh.vars, l.temp.value, l.iterations, limit))
    ensures RunToEnd(sh, r, l, limit) == RunToEnd(sh, r, l', limit)
    decreases limit - l.iterations
  {
    hide RunToEnd;
    var l1 := OneStep(sh, r, l, limit);
    l' := l1;
    if l1.pc == Follow {
      l' := FollowRuns(sh, r, l1, limit);
    } else if l1.pc == ReadEnd {
      l' := OneStep(sh, r, l1, limit);
      if l'.pc == CheckEnd {
        l' := OneStep(sh, r, l', limit);
      }
    }
  }

  lemma OperandRuns(sh: Shared, r: Request, l: Local, limit: nat) returns (l': Local)
    requires r.Arithmetic? && l.pc == CheckKey && l.status == OK
    requires (if l.second then l.valB else l.valA) == 0
    ensures Inside(l') && Suits(r, l') && Behind(r, l, l')
    ensures Holds(l, l', EvalName(sh.vars, OperandName(r, l.second), r.recursive, limit))
    ensures RunToEnd(sh, r, l, limit) == RunToEnd(sh, r, l', limit)
  {
    var l1 := OneStep(sh, r, l, limit);
    l' := l1;
    if l1.status == OK {
      var l2 := OneStep(sh, r, l1, limit);
      l' := l2;
      if l2.pc == Follow {
        l' := FollowRuns(sh, r, l2, limit);
      } else if l2.pc == ReadValue {
        l' := OneStep(sh, r, l2, limit);
      }
    }
  }

  /** From the operation on: the re-check, then store, log line and re-read. */
  lemma OperateRuns(sh: Shared, r: Request, l: Local, limit: nat)
    requires r.Arithmetic? && l.pc == Operate
    ensures var result := Checked(r.op, l.valA, l.valB);
            var status := Recheck(r.op, l.valA, l.valB, result, l.status);
            var (sh', l') := RunToEnd(sh, r, l, limit);
            if status != OK then sh' == sh && ReplyOf(r, l') == Failed(status)
            else (sh', ReplyOf(r, l')) == StoreResult(sh, r.target, result)
  {
    MicroAdvances(sh, r, l, limit);
    var (_, l1) := Micro(sh, r, l, limit);
    if l1.pc == Insert {
      var (sh2, l2) := Micro(sh, r, l1, limit);
      var (sh3, l3) := Micro(sh2, r, l2, limit);
      var (sh4, l4) := Micro(sh3, r, l3, limit);
      assert RunToEnd(sh3, r, l3, limit) == (sh4, l4);
      assert RunToEnd(sh2, r, l2, limit) == (sh4, l4);
      assert RunToEnd(sh, r, l1, limit) == (sh4, l4);
      if r.target.name.None? {
        assert sh.log + [] == sh.log;
      }
    }
  }

  lemma ArithmeticRuns(sh: Shared, r: Request, limit: nat)
    requires r.Arithmetic? && TakesLock(r)
    ensures var (sh', l') := RunToEnd(sh, r, Entry(r, Fresh(r)), limit);
            (sh', ReplyOf(r, l')) == Execute(sh, r, limit)
  {
    var l := Entry(r, Fresh(r));
    var l1 := l;
    if l.pc == CheckKey && !l.second {
      l1 := OperandRuns(sh, r, l, limit);
    }
    var l2 := l1;
    if l1.pc == CheckKey {
      l2 := OperandRuns(sh, r, l1, limit);
    }
    OperateRuns(sh, r, l2, limit);
    RecheckAfterLookups(r.op, l2.valA, l2.valB, l2.status);
  }

  lemma NameSectionRuns(sh: Shared, r: Request, limit: nat)
    requires (r.SetName? || r.Delete?) && TakesLock(r)
    ensures var (sh', l') := RunToEnd(sh, r, Entry(r, Fresh(r)), limit);
            (sh', ReplyOf(r, l')) == Execute(sh, r, limit)
  {
    var l := Entry(r, Fresh(r));
    var (sh1, l1) := Micro(sh, r, l, limit);
    if l1.pc != ToRelease {
      var (sh2, l2) := Micro(sh1, r, l1, limit);
      if l2.pc != ToRelease {
        var (sh3, l3) := Micro(sh2, r, l2, limit);
        assert RunToEnd(sh2, r, l2, limit) == (sh3, l3);
      }
      assert RunToEnd(sh1, r, l1, limit) == RunToEnd(sh2, r, l2, limit);
    }
    assert RunToEnd(sh, r, l, limit) == RunToEnd(sh1, r, l1, limit);
    if r.key.None? {
      assert sh.log + [] == sh.log;
    }
  }

  /** Refinement: the error-number-laden steps of a section, run without interruption, are exactly
      one evaluation of the request - store, log and reply. */
  lemma SectionIsRequest(sh: Shared, r: Request, limit: nat)
    requires TakesLock(r)
    ensures var (sh', l') := RunToEnd(sh, r, Entry(r, Fresh(r)), limit);
            (sh', ReplyOf(r, l')) == Execute(sh, r, limit)
  {
    if r.Arithmetic? {
      ArithmeticRuns(sh, r, limit);
    } else {
      NameSectionRuns(sh, r, limit);
    }
  }
}
