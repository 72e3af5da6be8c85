/** What each request on variables means: a pure evaluator over the map of variables and the text
    of the log, free of error numbers inside values. */
module Requests {
  import opened Types
  import opened CheckedMath
  import opened LogText
  import opened Resolution
  import StoreCalls

  /** An operand is a number or a variable; a name of length 0 reaches the store as NULL. */
  datatype Operand = Immediate(v: int64) | Variable(name: Option<Text>)

  datatype Target = Discard | Keep(name: Option<Text>)

  datatype Request =
    | Arithmetic(op: Op, a: Operand, b: Operand, target: Target, recursive: bool)
    | GetName(key: Option<Text>)
    | SetName(key: Option<Text>, name: Text)
    | Delete(key: Option<Text>)

  /** A failure carries its status; the others answer with status 0. */
  datatype Reply = Failed(status: byte) | Number(v: int64) | NameIs(name: Text) | Done

  /** The two things kvs_mutex protects. */
  datatype Shared = Shared(vars: Variables, log: Text)

  predicate NameAccepted(name: Option<Text>) {
    name.Some? ==> ValidName(name.value)
  }

  /** The character checks made while a request is read off the wire. */
  predicate NamesAccepted(r: Request) {
    match r
    case Arithmetic(_, a, b, target, _) =>
      && (a.Variable? ==> NameAccepted(a.name))
      && (b.Variable? ==> NameAccepted(b.name))
      && (target.Keep? ==> NameAccepted(target.name))
    case GetName(key) => NameAccepted(key)
    case SetName(key, name) => NameAccepted(key) && ValidName(name)
    case Delete(key) => NameAccepted(key)
  }

  function EvalName(m: Variables, name: Option<Text>, recursive: bool, limit: nat): Outcome {
    if name.None? || name.value !in m then Bad(ENOENT)
    else match m[name.value]
      case Num(n) => Good(n)
      case Ref(_) => if recursive then Resolve(m, name.value, 0, limit) else Bad(EFAULT)
  }

  function EvalOperand(m: Variables, o: Operand, recursive: bool, limit: nat): Outcome {
    match o
    case Immediate(v) => Good(v)
    case Variable(name) => EvalName(m, name, recursive, limit)
  }

  /** Operand a, then operand b, then the operation: the first error is the outcome. */
  function Evaluate(m: Variables, op: Op, a: Operand, b: Operand, recursive: bool, limit: nat): Outcome {
    match EvalOperand(m, a, recursive, limit)
    case Bad(e) => Bad(e)
    case Good(va) =>
      match EvalOperand(m, b, recursive, limit)
      case Bad(e) => Bad(e)
      case Good(vb) => Apply(op, va, vb)
  }

  /** A record applied and logged. */
  function WithRecord(sh: Shared, r: Record): Shared {
    Shared(ApplyRecord(sh.vars, r), sh.log + PrintRecord(r))
  }

  /** Storing the result. A NULL result name stores nothing, and the re-read of the result then
      answers ENOENT as if it were the value. */
  function StoreResult(sh: Shared, target: Target, v: int64): (Shared, Reply) {
    match target
    case Discard => (sh, Number(v))
    case Keep(None) => (sh, Number(ENOENT))
    case Keep(Some(key)) => (WithRecord(sh, Put(key, Num(v))), Number(v))
  }

  function Execute(sh: Shared, r: Request, limit: nat): (Shared, Reply) {
    if !NamesAccepted(r) then (sh, Failed(EINVAL))
    else
      match r
      case Arithmetic(op, a, b, target, recursive) => (
        match Evaluate(sh.vars, op, a, b, recursive, limit)
        case Bad(e) => (sh, Failed(e))
        case Good(v) => StoreResult(sh, target, v)
      )
      case GetName(key) =>
        if key.None? || key.value !in sh.vars then (sh, Failed(ENOENT))
        else if sh.vars[key.value].Num? then (sh, Failed(EFAULT))
        else (sh, NameIs(sh.vars[key.value].target))
      case SetName(key, name) =>
        if key.None? then (sh, Failed(ENOENT)) else (WithRecord(sh, Put(key.value, Ref(name))), Done)
      case Delete(key) =>
        if key.None? || key.value !in sh.vars then (sh, Failed(ENOENT))
        else (WithRecord(sh, Drop(key.value)), Done)
  }

  lemma ErrorsAreErrors(m: Variables, o: Operand, recursive: bool, limit: nat)
    ensures EvalOperand(m, o, recursive, limit).Bad? ==>
              EvalOperand(m, o, recursive, limit).error in {ENOENT, EFAULT, ELOOP}
  {
    if o.Variable? && o.name.Some? {
      ResolveErrors(m, o.name.value, 0, limit);
    }
  }

  lemma {:induction false} ResolveErrors(m: Variables, key: Text, i: nat, limit: nat)
    ensures Resolve(m, key, i, limit).Bad? ==> Resolve(m, key, i, limit).error in {ENOENT, ELOOP}
    decreases limit - i
  {
    var temp := StoreCalls.NameLookup(m, Some(key));
    if temp.Some? && i + 1 < limit {
      ResolveErrors(m, temp.value, i + 1, limit);
    }
  }

  /** A request writes at most one line, and the map follows the line: it either changes nothing,
      or applies and logs the same valid record. A failed request changes nothing. */
  lemma ExecuteLogsWhatItDoes(sh: Shared, r: Request, limit: nat) returns (records: seq<Record>)
    ensures var (after, reply) := Execute(sh, r, limit);
            && |records| <= 1
            && (forall i | 0 <= i < |records| :: ValidRecord(records[i]))
            && after.vars == ApplyAll(sh.vars, records)
            && after.log == sh.log + Print(records)
            && (reply.Failed? ==> records == [] && after == sh && reply.status != OK)
  {
    hide Resolve, Evaluate, Apply, Field;
    var (after, reply) := Execute(sh, r, limit);
    records := [];
    if NamesAccepted(r) {
      match r
      case Arithmetic(op, a, b, target, recursive) =>
        EvaluateErrors(sh.vars, op, a, b, recursive, limit);
        if target.Keep? && target.name.Some? && reply.Number? {
          records := [Put(target.name.value, Num(reply.v))];
        }
      case GetName(key) =>
      case SetName(key, name) =>
        if key.Some? {
          records := [Put(key.value, Ref(name))];
        }
      case Delete(key) =>
        if reply.Done? {
          records := [Drop(key.value)];
        }
    }
    if records != [] {
      OneRecord(sh, records[0]);
    }
  }

  lemma OneRecord(sh: Shared, r: Record)
    ensures Print([r]) == PrintRecord(r) && ApplyAll(sh.vars, [r]) == ApplyRecord(sh.vars, r)
  {
  }

  lemma EvaluateErrors(m: Variables, op: Op, a: Operand, b: Operand, recursive: bool, limit: nat)
    ensures var value := Evaluate(m, op, a, b, recursive, limit);
            value.Bad? ==> value.error != OK
  {
    ErrorsAreErrors(m, a, recursive, limit);
    ErrorsAreErrors(m, b, recursive, limit);
  }

  /** An arithmetic reply is the evaluator's value exactly when the result has somewhere to go: with
      a result name of length 0 the client is told 2, whatever the operands are. */
  lemma ArithmeticReply(sh: Shared, op: Op, a: Operand, b: Operand, target: Target, recursive: bool, limit: nat)
    requires NamesAccepted(Arithmetic(op, a, b, target, recursive))
    ensures var value := Evaluate(sh.vars, op, a, b, recursive, limit);
            var reply := Execute(sh, Arithmetic(op, a, b, target, recursive), limit).1;
            && (value.Bad? <==> reply.Failed?)
            && (value.Bad? ==> reply.status == value.error)
            && (value.Good? ==> (reply == Number(value.value) <==> target != Keep(None) || value.value == ENOENT))
  {
  }
}
