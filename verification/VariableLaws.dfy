/** Requests on variables as a client sees them: the bytes of the answer, and what later requests and a
    restart find. Status bytes are written as the numbers of <cerrno>. */
module VariableLaws {
  import opened Types
  import opened CheckedMath
  import opened LogText
  import opened Requests
  import opened RequestLaws
  import opened Durability
  import opened Wire
  import opened Framing
  import opened Session

  /** What a request does to variables, files and log, attached or not, and its reply before encoding. */
  lemma StepOfRequest(w: World, id: nat, r: Request, status: byte, t: Text, w': World, reply: Text, limit: nat)
    requires CommandStep(w, OnVariables(id, r, status), t, w', reply, limit)
    ensures var (sh, answer) := Execute(Shared(w.life.vars, w.life.log), r, limit);
            && w'.files == w.files && w'.life.attached == w.life.attached && w'.life.vars == sh.vars
            && w'.life.log == (if w.life.attached then sh.log else w.life.log)
            && (answer.Failed? ==> reply == BigEndian(id, 4) + [answer.status])
            && (answer.Done? ==> reply == BigEndian(id, 4) + [0])
            && (answer.Number? ==> exists u: nat :: TwosComplement(answer.v, u) && reply == BigEndian(id, 4) + [0] + BigEndian(u, 8))
            && (answer.NameIs? && |answer.name| < 256 ==> reply == BigEndian(id, 4) + [0] + [|answer.name|] + answer.name)
  {
    hide BigEndian, Execute;
    var (sh, answer) := Execute(Shared(w.life.vars, w.life.log), r, limit);
    if answer.Number? {
      assert TwosComplement(answer.v, Unsigned64(answer.v));
    }
  }

  /** u is the 64-bit pattern of v. */
  predicate TwosComplement(v: int, u: nat) {
    u < 0x1_0000_0000_0000_0000 && (u == v || u == v + 0x1_0000_0000_0000_0000)
  }

  /** Nothing has happened but an answer of 5 bytes. */
  predicate OnlyStatus(w: World, id: nat, status: byte, w': World, reply: Text) {
    w' == w && reply == BigEndian(id, 4) + [status]
  }

  // ---------- Arithmetic ----------

  /** An arithmetic request on operands that stand for numbers, in bytes. */
  lemma ArithmeticReplied(w: World, id: nat, op: Op, a: Operand, b: Operand, target: Target, recursive: bool, t: Text,
                          w': World, reply: Text, limit: nat, va: int64, vb: int64)
    requires NamesValid(Arithmetic(op, a, b, target, recursive))
    requires StandsFor(w.life.vars, a, recursive, limit, va) && StandsFor(w.life.vars, b, recursive, limit, vb)
    requires CommandStep(w, OnVariables(id, Arithmetic(op, a, b, target, recursive), OK), t, w', reply, limit)
    ensures forall e | RefusedFor(op, va, vb, e) :: OnlyStatus(w, id, e, w', reply)
    ensures (exists e :: RefusedFor(op, va, vb, e)) || exists v: int64, u: nat ::
              && Gives(op, va, vb, v) && TwosComplement(if target == Keep(None) then 2 else v, u)
              && reply == BigEndian(id, 4) + [0] + BigEndian(u, 8)
              && w'.life.vars == if target.Keep? && target.name.Some? then w.life.vars[target.name.value := Num(v)] else w.life.vars
  {
    hide BigEndian, Execute, CommandStep, StandsFor, Gives, RefusedFor, NamesValid, TwosComplement, NumberLogged;
    var r := Arithmetic(op, a, b, target, recursive);
    StepOfRequest(w, id, r, OK, t, w', reply, limit);
    ArithmeticAnswered(Shared(w.life.vars, w.life.log), op, a, b, target, recursive, limit, va, vb);
    var (sh, answer) := Execute(Shared(w.life.vars, w.life.log), r, limit);
    if !exists e :: RefusedFor(op, va, vb, e) {
      var v: int64 :| Gives(op, va, vb, v);
      assert answer.Number?;
      var u: nat :| TwosComplement(answer.v, u) && reply == BigEndian(id, 4) + [0] + BigEndian(u, 8);
    }
  }

  lemma RefusedInBytes(w: World, id: nat, r: Request, status: byte, e: byte, t: Text, w': World, reply: Text, limit: nat)
    requires CommandStep(w, OnVariables(id, r, status), t, w', reply, limit)
    requires Execute(Shared(w.life.vars, w.life.log), r, limit) == (Shared(w.life.vars, w.life.log), Failed(e))
    ensures OnlyStatus(w, id, e, w', reply)
  {
    hide BigEndian, Execute;
    StepOfRequest(w, id, r, status, t, w', reply, limit);
  }

  // ---------- Names ----------

  /** A get, for each thing its key can be. */
  lemma GetReplied(w: World, id: nat, key: Option<Text>, t: Text, w': World, reply: Text, limit: nat)
    requires (key.Some? ==> ValidName(key.value)) && ValidVariables(w.life.vars)
    requires CommandStep(w, OnVariables(id, GetName(key), OK), t, w', reply, limit)
    ensures w' == w
    ensures key.None? || key.value !in w.life.vars ==> reply == BigEndian(id, 4) + [2]
    ensures key.Some? && key.value in w.life.vars ==>
              match w.life.vars[key.value]
              case Num(_) => reply == BigEndian(id, 4) + [14]
              case Ref(name) => 1 <= |name| <= 31 && reply == BigEndian(id, 4) + [0] + [|name|] + name
  {
    hide BigEndian, Execute, CommandStep;
    StepOfRequest(w, id, GetName(key), OK, t, w', reply, limit);
    GetAnswered(Shared(w.life.vars, w.life.log), if key.Some? then key.value else [97], limit);
    if key.Some? && key.value in w.life.vars && w.life.vars[key.value].Ref? {
      assert ValidValue(w.life.vars[key.value]);
    }
  }

  lemma SetReplied(w: World, id: nat, x: Text, y: Text, t: Text, w': World, reply: Text, limit: nat)
    requires ValidName(x) && ValidName(y)
    requires CommandStep(w, OnVariables(id, SetName(Some(x), y), OK), t, w', reply, limit)
    ensures w'.life.vars == w.life.vars[x := Ref(y)] && w'.files == w.files && w'.life.attached == w.life.attached
    ensures w'.life.log == if w.life.attached then w.life.log + (x + [61] + y + [10]) else w.life.log
    ensures reply == BigEndian(id, 4) + [0]
  {
    hide BigEndian, Execute, CommandStep;
    StepOfRequest(w, id, SetName(Some(x), y), OK, t, w', reply, limit);
    SetAnswered(Shared(w.life.vars, w.life.log), x, y, limit);
  }

  /** A name that is set is answered, byte by byte. */
  lemma SetThenGet(w: World, id: nat, x: Text, y: Text, t: Text, w1: World, r1: Text, w2: World, r2: Text, limit: nat)
    requires ValidName(x) && ValidName(y) && ValidVariables(w.life.vars)
    requires CommandStep(w, OnVariables(id, SetName(Some(x), y), OK), t, w1, r1, limit)
    requires CommandStep(w1, OnVariables(id, GetName(Some(x)), OK), t, w2, r2, limit)
    ensures r1 == BigEndian(id, 4) + [0] && w2 == w1
    ensures r2 == BigEndian(id, 4) + [0] + [|y|] + y
  {
    hide BigEndian, CommandStep;
    SetReplied(w, id, x, y, t, w1, r1, limit);
    GetReplied(w1, id, Some(x), t, w2, r2, limit);
  }

  // ---------- Deletes ----------

  lemma DeleteReplied(w: World, id: nat, k: Text, t: Text, w': World, reply: Text, limit: nat)
    requires ValidName(k) && CommandStep(w, OnVariables(id, Delete(Some(k)), OK), t, w', reply, limit)
    ensures k !in w.life.vars ==> OnlyStatus(w, id, 2, w', reply)
    ensures k in w.life.vars ==>
              && reply == BigEndian(id, 4) + [0]
              && w'.life.vars == w.life.vars - {k} && w'.files == w.files && w'.life.attached == w.life.attached
              && w'.life.log == if w.life.attached then w.life.log + (k + [61, 126, 10]) else w.life.log
  {
    hide BigEndian, Execute, CommandStep;
    StepOfRequest(w, id, Delete(Some(k)), OK, t, w', reply, limit);
    DeleteAnswered(Shared(w.life.vars, w.life.log), k, limit);
  }

  /** A name of length 0 is no variable to any request that needs one. */
  lemma NullReplied(w: World, id: nat, r: Request, t: Text, w': World, reply: Text, limit: nat)
    requires r == Delete(None) || r == GetName(None)
    requires CommandStep(w, OnVariables(id, r, OK), t, w', reply, limit)
    ensures OnlyStatus(w, id, 2, w', reply)
  {
    hide BigEndian, Execute;
    DeleteAnswered(Shared(w.life.vars, w.life.log), [97], limit);
    GetAnswered(Shared(w.life.vars, w.life.log), [97], limit);
    RefusedInBytes(w, id, r, OK, 2, t, w', reply, limit);
  }

  /** A request with a name that is not accepted. */
  lemma BadNameReplied(w: World, id: nat, r: Request, t: Text, w': World, reply: Text, limit: nat)
    requires !NamesValid(r) && CommandStep(w, OnVariables(id, r, EINVAL), t, w', reply, limit)
    ensures OnlyStatus(w, id, 22, w', reply)
  {
    hide BigEndian, Execute, NamesValid;
    BadNameRefused(Shared(w.life.vars, w.life.log), r, limit);
    RefusedInBytes(w, id, r, EINVAL, 22, t, w', reply, limit);
  }

  /** After a delete that is answered with success the name is not there, for a get and for a get behind a
      restart of an attached server. */
  lemma DeletedIsGone(w: World, id: nat, k: Text, t: Text, w1: World, r1: Text, w2: World, r2: Text,
                      key: Text, word: Text, w3: World, r3: Text, limit: nat)
    requires ValidName(k) && Logged(w.life) && w.life.attached
    requires CommandStep(w, OnVariables(id, Delete(Some(k)), OK), t, w1, r1, limit)
    requires r1 == BigEndian(id, 4) + [0]
    requires CommandStep(w1, OnVariables(id, GetName(Some(k)), OK), t, w2, r2, limit)
    requires Load(w1.life.log, key, word, map[]) != Overrun
    requires CommandStep(World(Restarted(w1.life.log, key, word), w1.files), OnVariables(id, GetName(Some(k)), OK), t, w3, r3, limit)
    ensures k in w.life.vars && r2 == BigEndian(id, 4) + [2]
    ensures w3.life == w1.life && r3 == BigEndian(id, 4) + [2]
  {
    hide BigEndian, CommandStep, Load;
    DeleteReplied(w, id, k, t, w1, r1, limit);
    assert r1[4] == 0;
    StaysLogged(w, id, Delete(Some(k)), t, w1, r1, limit);
    GetReplied(w1, id, Some(k), t, w2, r2, limit);
    RestartKeepsLogged(w1.life, Restart(key, word), Restarted(w1.life.log, key, word), limit);
    GetReplied(World(Restarted(w1.life.log, key, word), w1.files), id, Some(k), t, w3, r3, limit);
  }

  lemma StaysLogged(w: World, id: nat, r: Request, t: Text, w': World, reply: Text, limit: nat)
    requires Logged(w.life) && CommandStep(w, OnVariables(id, r, OK), t, w', reply, limit)
    ensures Logged(w'.life) && ValidVariables(w'.life.vars)
  {
    hide ServeOne;
    ServeKeepsLogged(w.life, r, limit);
  }
}
