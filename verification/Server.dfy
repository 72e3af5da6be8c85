/** The parts of server_run that work on variables, on the real store and with error numbers
    in-band, against the evaluator of Requests. */
module Server {
  import opened Types
  import opened CheckedMath
  import opened LogText
  import opened Listing
  import opened Resolution
  import opened Requests
  import opened Durability
  import opened DumpFiles
  import StoreCalls
  import KV = KeyValueStore

  const CLEAR_MAGIC: nat := 0x0bad_bad0

  class Server {
    const store: KV.Store
    const limit: nat
    /** The text of log.txt, and whether the log descriptor still refers to that file. */
    var log: Text
    var attached: bool

    ghost predicate Valid()
      reads this, store, store.Repr
    {
      store.Valid() && this !in store.Repr
    }

    ghost function Snapshot(): Life
      reads this, store
    {
      Life(store.contents, log, attached)
    }

    /** Start-up: an empty store, into which the log found on disk is replayed. */
    constructor Start(size: nat, bucket: Text -> nat, limit: nat, log: Text, key: Text, word: Text)
      requires size > 0 && forall k: Text :: bucket(k) < size
      requires Load(log, key, word, map[]) != Overrun
      ensures Valid() && this.limit == limit && fresh(store) && fresh(store.Repr)
      ensures Snapshot() == Restarted(log, key, word)
    {
      hide KV.Store.Valid, Read;
      var store := new KV.Store(size, bucket);
      this.store, this.limit, this.log, this.attached := store, limit, log, true;
      new;
      var _ := store.Load(log, key, word);
    }

    /** The block that finds the value of an operand. A failed lookup leaves the value at 0, or at
        the error number the last in-band lookup returned. */
    method LookUp(name: Option<Text>, recursive: bool) returns (status: byte, val: int64)
      requires Valid()
      ensures match EvalName(store.contents, name, recursive, limit)
              case Good(v) => status == OK && val == v
              case Bad(e) => status == e && status != OK && val in {0, ENOENT}
    {
      hide KV.Store.Valid, Resolve;
      val := 0;
      status := store.KeyCheck(name);
      if status == OK {
        var flag := store.FlagLookup(name);
        if flag == 0 {
          val := store.ValueLookup(name);
        } else if flag == 1 {
          if recursive {
            status, val := Chase(name);
          } else {
            status := EFAULT;
          }
        }
      }
    }

    /** The do/while loop over names. */
    method Chase(name: Option<Text>) returns (status: byte, val: int64)
      requires Valid() && name.Some?
      ensures match Resolve(store.contents, name.value, 0, limit)
              case Good(v) => status == OK && val == v
              case Bad(e) => status == e && status != OK && val in {0, ENOENT}
    {
      hide KV.Store.Valid;
      status, val := OK, 0;
      var iterations := 0;
      var temp := name;
      var current := temp;
      while true
        invariant temp.Some? && (iterations == 0 || iterations < limit)
        invariant Resolve(store.contents, temp.value, iterations, limit) == Resolve(store.contents, name.value, 0, limit)
        decreases limit - iterations
      {
        current := temp;
        temp := store.NameLookup(temp);
        iterations := iterations + 1;
        if !(temp.Some? && iterations < limit) {
          break;
        }
      }
      if iterations < limit {
        if temp.None? {
          val := store.ValueLookup(current);
          if val == ENOENT {
            status := store.KeyCheck(current);
          }
        }
      } else {
        status := ELOOP;
      }
    }

    /** The arithmetic block, once for the five operations. */
    method Compute(op: Op, a: Operand, b: Operand, target: Target, recursive: bool, parseStatus: byte) returns (reply: Reply)
      requires Valid()
      requires parseStatus == if NamesAccepted(Arithmetic(op, a, b, target, recursive)) then OK else EINVAL
      modifies this`log, store.Repr
      ensures Valid() && fresh(store.Repr - old(store.Repr))
      ensures (Snapshot(), reply) == ServeOne(old(Snapshot()), Arithmetic(op, a, b, target, recursive), limit)
    {
      hide KV.Store.Valid, Resolve, Recheck, Checked, Apply, EvalName, ValidName;
      var status := parseStatus;
      var valA: int64 := if a.Immediate? then a.v else 0;
      var valB: int64 := if b.Immediate? then b.v else 0;
      var result: int64 := 0;
      if status == OK {
        if a.Variable? || b.Variable? || target.Keep? {
          if a.Variable? {
            status, valA := LookUp(a.name, recursive);
          }
          if b.Variable? && status == OK {
            status, valB := LookUp(b.name, recursive);
          }
          result := Checked(op, valA, valB);
          RecheckAfterLookups(op, valA, valB, status);
          status := Recheck(op, valA, valB, result, status);
          assert match Evaluate(store.contents, op, a, b, recursive, limit)
                 case Good(v) => status == OK && result == v
                 case Bad(e) => status == e && status != OK;
          if target.Keep? && status == OK {
            result := KeepResult(target.name, result);
          }
        } else {
          RecheckExact(op, valA, valB);
          result := Checked(op, valA, valB);
          status := Recheck(op, valA, valB, result, status);
        }
      }
      reply := if status == OK then Number(result) else Failed(status);
    }

    /** Store the result, log it, and read it back. */
    method KeepResult(name: Option<Text>, value: int64) returns (result: int64)
      requires Valid()
      modifies this`log, store.Repr
      ensures Valid() && fresh(store.Repr - old(store.Repr))
      ensures attached == old(attached)
      ensures (Shared(store.contents, log), Number(result)) ==
              var (sh, reply) := StoreResult(Shared(old(store.contents), old(log)), Keep(name), value);
              (if attached then sh else sh.(log := old(log)), reply)
    {
      hide KV.Store.Valid, PrintRecord;
      var _ := store.InsertValue(name, value);
      LogInsert(name, Num(value));
      result := store.ValueLookup(name);
    }

    /** A write through the log descriptor. */
    method Append(text: Text)
      modifies this`log
      ensures log == if attached then old(log) + text else old(log)
    {
      if attached {
        log := log + text;
      }
    }

    /** log_insert_key: a line at the end of the log. */
    method LogInsert(key: Option<Text>, value: Value)
      modifies this`log
      ensures log == if key.Some? && attached then old(log) + PrintRecord(Put(key.value, value)) else old(log)
    {
      if key.None? {
        return;
      }
      Append(PrintRecord(Put(key.value, value)));
    }

    method GetVariable(key: Option<Text>, parseStatus: byte) returns (reply: Reply)
      requires Valid()
      requires parseStatus == if NamesAccepted(GetName(key)) then OK else EINVAL
      ensures (Snapshot(), reply) == ServeOne(Snapshot(), GetName(key), limit)
    {
      hide KV.Store.Valid;
      var status, name := parseStatus, None;
      if status == OK {
        status := store.KeyCheck(key);
        if status == OK {
          var flag := store.FlagLookup(key);
          if flag == 1 {
            name := store.NameLookup(key);
          } else if flag == 0 {
            status := EFAULT;
          }
        }
      }
      reply := if status == OK then NameIs(name.value) else Failed(status);
    }

    method SetVariable(key: Option<Text>, name: Text, parseStatus: byte) returns (reply: Reply)
      requires Valid()
      requires parseStatus == if NamesAccepted(SetName(key, name)) then OK else EINVAL
      modifies this`log, store.Repr
      ensures Valid() && fresh(store.Repr - old(store.Repr))
      ensures (Snapshot(), reply) == ServeOne(old(Snapshot()), SetName(key, name), limit)
    {
      hide KV.Store.Valid;
      var status := parseStatus;
      if status == OK {
        status := store.InsertName(key, name);
        LogInsert(key, Ref(name));
      }
      reply := if status == OK then Done else Failed(status);
    }

    method DeleteVariable(key: Option<Text>, parseStatus: byte) returns (reply: Reply)
      requires Valid()
      requires parseStatus == if NamesAccepted(Delete(key)) then OK else EINVAL
      modifies this`log, store.Repr
      ensures Valid() && fresh(store.Repr - old(store.Repr))
      ensures (Snapshot(), reply) == ServeOne(old(Snapshot()), Delete(key), limit)
    {
      hide KV.Store.Valid;
      var status := parseStatus;
      if status == OK {
        status := store.KeyCheck(key);
        if status == OK {
          status := store.DeleteKey(key);
        }
        if status == OK {
          Append(PrintRecord(Drop(key.value)));
        }
      }
      reply := if status == OK then Done else Failed(status);
    }

    /** A load request: the file into the store, then a dump of the store into the log. */
    method LoadVariables(text: Text, key: Text, word: Text) returns (reply: Reply)
      requires Valid()
      requires Read(text, key, word).stop != AtOverrun
      modifies this`log, store.Repr
      ensures Valid() && fresh(store.Repr - old(store.Repr))
      ensures LoadStep(old(Snapshot()), LoadFile(text, key, word), Snapshot())
      ensures reply == if Load(text, key, word, old(store.contents)).Complete? then Done else Failed(EINVAL)
    {
      hide KV.Store.Valid;
      var status := store.Load(text, key, word);
      if status == OK {
        var dump := store.Dump();
        Append(dump);
      }
      reply := if status == OK then Done else Failed(status);
    }

    /** A dump request, over a file with this prior content. */
    method DumpVariables(prior: Text) returns (file: Text)
      requires Valid()
      ensures exists dump :: IsDump(dump, store.contents) && file == WriteOver(prior, dump)
    {
      hide KV.Store.Valid;
      var text := store.Dump();
      file := WriteOver(prior, text);
    }

    /** A clear request. A wrong magic number is refused and changes nothing. */
    method ServeClear(magic: nat) returns (reply: Reply)
      requires Valid()
      modifies this, store.Repr
      ensures Valid() && fresh(store.Repr - old(store.Repr))
      ensures magic == CLEAR_MAGIC ==> reply == Done && Step(old(Snapshot()), Clear, Snapshot(), limit)
      ensures magic != CLEAR_MAGIC ==> reply == Failed(EINVAL) && Snapshot() == old(Snapshot())
    {
      hide KV.Store.Valid;
      if magic == CLEAR_MAGIC {
        ClearVariables();
        reply := Done;
      } else {
        reply := Failed(EINVAL);
      }
    }

    /** A clear request with the right magic number: the store is emptied and log.txt replaced by an
        empty file, which the log descriptor does not follow. */
    method ClearVariables()
      requires Valid()
      modifies this, store.Repr
      ensures Valid() && fresh(store.Repr - old(store.Repr))
      ensures Step(old(Snapshot()), Clear, Snapshot(), limit)
    {
      hide KV.Store.Valid;
      store.Clear();
      log, attached := [], false;
    }
  }
}
