/** What a client can rely on over a whole connection. */
module SessionLaws {
  import opened Types
  import opened LogText
  import opened Listing
  import opened Requests
  import opened Durability
  import opened DumpFiles
  import opened Wire
  import opened Receive
  import opened FileTransfer
  import opened Framing
  import opened Encoding
  import opened Session
  import S = Server

  // ---------- The requests of a connection ----------

  /** They are the ones its stream is cut into. */
  lemma {:induction false} TraceCommands(moments: seq<Moment>, replies: seq<Text>, limit: nat, i: nat)
    requires Trace(moments, replies, limit) && i <= |replies| && |moments[|replies|].stream| < 6
    ensures forall j | i <= j < |replies| :: |moments[j].stream| >= 6
    ensures var commands := CommandsIn(moments[i].stream, moments[i].world.files.Keys);
            && |commands| == |replies| - i
            && forall j | 0 <= j < |replies| - i :: commands[j] == First(moments[i + j].stream)
    decreases |replies| - i
  {
    hide First, Data, AfterData, CommandStep, ExistingAfter;
    if i < |replies| {
      var m, m' := moments[i], moments[i + 1];
      assert Onward(m, m', replies[i], limit);
      StepKeeps(m.world, First(m.stream), Data(m.stream), m'.world, replies[i], limit);
      TraceCommands(moments, replies, limit, i + 1);
      var commands := CommandsIn(m.stream, m.world.files.Keys);
      var more := CommandsIn(m'.stream, m'.world.files.Keys);
      assert commands == [First(m.stream)] + more;
      forall j | 0 <= j < |replies| - i
        ensures commands[j] == First(moments[i + j].stream)
      {
        if j > 0 {
          assert more[j - 1] == First(moments[(i + 1) + (j - 1)].stream);
        }
      }
    }
  }

  /** Encoded requests in step arrive one by one. */
  lemma {:induction false} PacketsArrive(ps: seq<Packet>, moments: seq<Moment>, replies: seq<Text>, limit: nat, i: nat)
    requires Trace(moments, replies, limit) && |moments[|replies|].stream| < 6 && i <= |ps|
    requires forall j | 0 <= j < |ps| :: WellFormed(ps[j])
    requires moments[0].stream == EncodeAll(ps) && AllInStep(ps, moments[0].world.files.Keys)
    ensures i <= |replies|
    ensures moments[i].stream == EncodeAll(ps[i..]) && AllInStep(ps[i..], moments[i].world.files.Keys)
  {
    hide First, Data, AfterData, CommandStep, ExistingAfter, WellFormed, Encode, InStep;
    if i == 0 {
      assert ps[0..] == ps;
    } else {
      PacketsArrive(ps, moments, replies, limit, i - 1);
      var m, todo := moments[i - 1], ps[i - 1..];
      assert todo[0] == ps[i - 1] && todo[1..] == ps[i..];
      FirstOfEncoded(todo[0], EncodeAll(todo[1..]));
      assert Onward(m, moments[i], replies[i - 1], limit);
      StepKeeps(m.world, First(m.stream), Data(m.stream), moments[i].world, replies[i - 1], limit);
      DataFront(todo[0], EncodeAll(todo[1..]), m.world.files.Keys);
    }
  }

  /** A client that sends well-formed packets in step gets each of them served, in order, with the data
      it has sent, and nothing else. */
  lemma PacketsServed(ps: seq<Packet>, moments: seq<Moment>, replies: seq<Text>, limit: nat)
    requires Trace(moments, replies, limit) && |moments[|replies|].stream| < 6
    requires forall j | 0 <= j < |ps| :: WellFormed(ps[j])
    requires moments[0].stream == EncodeAll(ps) && AllInStep(ps, moments[0].world.files.Keys)
    ensures |replies| == |ps|
    ensures forall i | 0 <= i < |ps| ::
              CommandStep(moments[i].world, ps[i].command, ps[i].payload + EncodeAll(ps[i + 1..]),
                          moments[i + 1].world, replies[i], limit)
  {
    hide First, Data, AfterData, CommandStep, WellFormed, Encode, AllInStep;
    PacketsArrive(ps, moments, replies, limit, |ps|);
    TraceCommands(moments, replies, limit, 0);
    assert ps[|ps|..] == [];
    forall i | 0 <= i < |ps|
      ensures CommandStep(moments[i].world, ps[i].command, ps[i].payload + EncodeAll(ps[i + 1..]),
                          moments[i + 1].world, replies[i], limit)
    {
      PacketsArrive(ps, moments, replies, limit, i);
      assert ps[i..][0] == ps[i] && ps[i..][1..] == ps[i + 1..];
      FirstOfEncoded(ps[i], EncodeAll(ps[i + 1..]));
      assert Onward(moments[i], moments[i + 1], replies[i], limit);
    }
  }

  /** A well-formed packet is supported unless it reads or loads the wrong file. */
  lemma PacketSupported(w: World, p: Packet)
    requires WellFormed(p)
    requires p.command.ReadFile? ==> !Stuck(w.files, p.command.name, p.command.offset, p.command.size)
    requires p.command.LoadFrom? && p.command.name in w.files ==> PlainText(w.files[p.command.name])
    ensures Supported(w, p.command)
  {
    hide NamesAccepted, Stuck;
    if p.command.LoadFrom? && p.command.name in w.files {
      forall key: Text, word: Text
        ensures Read(w.files[p.command.name], key, word).stop == AtEnd
      {
        PlainTextReads(w.files[p.command.name], key, word);
      }
    }
  }

  // ---------- Files ----------

  /** A write in step loses its last chunk at most: that chunk can begin behind the largest offset. */
  ghost predicate WriteStep(files: map<Text, Text>, p: Packet, files': map<Text, Text>, status: byte)
    requires p.command.WriteFile?
  {
    var name, offset, last := p.command.name, p.command.offset, LastChunk(|p.payload|);
    if name !in files then files' == files && status == ENOENT
    else if offset + last <= INT64_MAX then files' == Written(files, name, offset, p.payload) && status == OK
    else files' == Written(files, name, offset, p.payload[..last]) && status == EINVAL
  }

  lemma PayloadWritten(w: World, p: Packet, rest: Text, w': World, reply: Text, limit: nat)
    requires WellFormed(p) && p.command.WriteFile? && InStep(p, w.files.Keys)
    requires CommandStep(w, p.command, p.payload + rest, w', reply, limit)
    ensures w'.life == w.life
    ensures exists status :: WriteStep(w.files, p, w'.files, status) && reply == HeaderBytes(p.command.id, status)
  {
    hide Splice, HeaderBytes;
    var c, t := p.command, p.payload + rest;
    var status := WriteStatus(c.name in w.files, c.offset, c.size, |t|);
    if c.name in w.files {
      var last := LastChunk(c.size);
      SeekableAt(c.offset, last);
      if c.size > BUFFER_SIZE {
        SeekableAt(c.offset, last - BUFFER_SIZE);
      }
      var reached := WriteReaches(true, c.offset, c.size, |t|);
      assert reached == if c.offset + last <= INT64_MAX then c.size else last;
      assert Next(t, reached) == p.payload[..reached];
      assert p.payload[..c.size] == p.payload;
    }
    assert WriteStep(w.files, p, w'.files, status);
  }

  /** What a client writes to a file it reads back, in whatever number of chunks. */
  lemma WriteThenRead(w: World, write: Packet, rest: Text, w1: World, r1: Text, id: nat, t: Text, w2: World, r2: Text, limit: nat)
    requires WellFormed(write) && write.command.WriteFile? && write.command.name in w.files
    requires write.payload != [] && write.command.offset + |write.payload| <= INT64_MAX
    requires CommandStep(w, write.command, write.payload + rest, w1, r1, limit)
    requires CommandStep(w1, ReadFile(id, write.command.name, write.command.offset, |write.payload|), t, w2, r2, limit)
    ensures r1 == HeaderBytes(write.command.id, OK)
    ensures r2 == HeaderBytes(id, OK) + BigEndian(|write.payload|, 2) + write.payload && w2 == w1
  {
    hide HeaderBytes, BigEndian, Splice, CommandStep, AfterWrite;
    var c, data := write.command, write.payload;
    WriteEffect(w, c, data, rest, w1, r1, limit);
    SpliceHolds(w.files[c.name], c.offset, data);
    ReadEffect(w1, id, c.name, c.offset, data, t, w2, r2, limit);
  }

  lemma WriteEffect(w: World, c: Command, data: Text, rest: Text, w': World, reply: Text, limit: nat)
    requires c.WriteFile? && c.name in w.files && |data| == c.size > 0 && c.offset + |data| <= INT64_MAX
    requires CommandStep(w, c, data + rest, w', reply, limit)
    ensures reply == HeaderBytes(c.id, OK) && w' == World(w.life, Written(w.files, c.name, c.offset, data))
  {
    hide HeaderBytes, Splice, WriteTakes, WriteStatus, AfterWrite;
    FullWrite(w.files, c.name, c.offset, data, rest);
  }

  lemma ReadEffect(w: World, id: nat, name: Text, offset: nat, data: Text, t: Text, w': World, reply: Text, limit: nat)
    requires name in w.files && offset + |data| <= |w.files[name]| && w.files[name][offset..offset + |data|] == data
    requires CommandStep(w, ReadFile(id, name, offset, |data|), t, w', reply, limit)
    ensures reply == HeaderBytes(id, OK) + BigEndian(|data|, 2) + data && w' == w
  {
    hide HeaderBytes, BigEndian;
  }

  lemma SpliceHolds(file: Text, offset: nat, data: Text)
    requires data != []
    ensures var after := Splice(file, offset, data);
            |after| >= offset + |data| && after[offset..offset + |data|] == data
  {
  }

  // ---------- Variables and the log ----------

  predicate Clears(c: Command) {
    c.ClearAll? && c.magic == S.CLEAR_MAGIC
  }

  /** Loading the file now keeps an attached server durable, whatever the scan buffers hold. */
  ghost predicate LoadsSafely(w: World, c: Command) {
    c.LoadFrom? && c.name in w.files && w.life.attached ==>
      forall key: Text, word: Text | |key| <= 31 && |word| <= 31 ::
        LoadSafe(w.life, LoadFile(w.files[c.name], key, word))
  }

  lemma CommandKeepsLogged(w: World, c: Command, t: Text, w': World, reply: Text, limit: nat)
    requires Logged(w.life) && CommandStep(w, c, t, w', reply, limit) && LoadsSafely(w, c)
    ensures Logged(w'.life)
    ensures w'.life.attached <==> w.life.attached && !Clears(c)
  {
    hide Logged, LoadSafe, LoadStep, ServeOne, Read, HeaderBytes, ReplyBytes, IsDump, WriteOver, FileStep;
    match c
    case OnVariables(_, request, _) => StepKeepsLogged(w.life, Serve(request), w'.life, limit);
    case LoadFrom(id, name) =>
      var status :| LoadFromStep(w, name, w', status) && reply == HeaderBytes(id, status);
      if name in w.files {
        var key, word :| |key| <= 31 && |word| <= 31 && LoadStep(w.life, LoadFile(w.files[name], key, word), w'.life);
        StepKeepsLogged(w.life, LoadFile(w.files[name], key, word), w'.life, limit);
      }
    case ClearAll(_, _) => ClearedIsLogged();
    case _ =>
  }

  ghost predicate NothingCleared(moments: seq<Moment>, i: nat)
    requires i <= |moments|
  {
    forall j | 0 <= j < i && |moments[j].stream| >= 6 :: !Clears(First(moments[j].stream))
  }

  /** Durability over a connection: after each request, a restart would find the variables exactly when
      nothing has been cleared or there is nothing to lose. */
  lemma {:induction false} SessionDurability(moments: seq<Moment>, replies: seq<Text>, limit: nat, i: nat)
    requires Trace(moments, replies, limit) && i <= |replies|
    requires Logged(moments[0].world.life) && moments[0].world.life.attached
    requires forall j | 0 <= j < i && |moments[j].stream| >= 6 :: LoadsSafely(moments[j].world, First(moments[j].stream))
    ensures Logged(moments[i].world.life)
    ensures moments[i].world.life.attached <==> NothingCleared(moments, i)
    ensures Durable(moments[i].world.life) <==> NothingCleared(moments, i) || moments[i].world.life.vars == map[]
  {
    hide CommandStep, LoadsSafely, Logged, Clears, Durable, First, Data, AfterData;
    if i > 0 {
      SessionDurability(moments, replies, limit, i - 1);
      var m := moments[i - 1];
      assert Onward(m, moments[i], replies[i - 1], limit);
      CommandKeepsLogged(m.world, First(m.stream), Data(m.stream), moments[i].world, replies[i - 1], limit);
    }
    LoggedIsDurable(moments[i].world.life);
  }

  ghost predicate PlainFiles(files: map<Text, Text>) {
    forall name | name in files :: PlainText(files[name])
  }

  /** Dumps to new files and no writes: files stay as they are, or are empty, or are dumps. */
  predicate Tidy(files: set<Text>, c: Command) {
    !c.WriteFile? && (c.DumpTo? ==> c.name !in files)
  }

  lemma TidyKeepsPlain(w: World, c: Command, t: Text, w': World, reply: Text, limit: nat)
    requires ValidVariables(w.life.vars) && PlainFiles(w.files)
    requires CommandStep(w, c, t, w', reply, limit) && Tidy(w.files.Keys, c)
    ensures PlainFiles(w'.files)
  {
    hide PlainText, ServeOne, ReplyBytes, HeaderBytes, SizeReply, ReadAnswer, ReadSupported, LoadFromStep, IsDump;
    match c
    case DumpTo(id, name) =>
      var status :| DumpStep(w, name, w', status) && reply == HeaderBytes(id, status);
      if name != [] {
        var dump :| IsDump(dump, w.life.vars) && w' == w.(files := w.files[name := WriteOver([], dump)]);
        DumpIsPlain(dump, w.life.vars);
      }
    case CreateFile(_, _) => EmptyIsPlain();
    case LoadFrom(id, name) =>
      var status :| LoadFromStep(w, name, w', status) && reply == HeaderBytes(id, status);
      LoadFromKeeps(w, name, w', status);
    case _ =>
  }

  /** With plain files at first, and no file written or dumped over, nothing is asked of the variables:
      whatever is loaded, the connection is durable. */
  lemma {:induction false} TidySessionDurability(moments: seq<Moment>, replies: seq<Text>, limit: nat, i: nat)
    requires Trace(moments, replies, limit) && i <= |replies|
    requires Logged(moments[0].world.life) && moments[0].world.life.attached && PlainFiles(moments[0].world.files)
    requires forall j | 0 <= j < i && |moments[j].stream| >= 6 :: Tidy(moments[j].world.files.Keys, First(moments[j].stream))
    ensures PlainFiles(moments[i].world.files)
    ensures forall j | 0 <= j < i && |moments[j].stream| >= 6 :: LoadsSafely(moments[j].world, First(moments[j].stream))
    ensures Durable(moments[i].world.life) <==> NothingCleared(moments, i) || moments[i].world.life.vars == map[]
  {
    hide CommandStep, LoadsSafely, Logged, Clears, Durable, First, Data, AfterData, PlainFiles, Tidy, NothingCleared;
    if i > 0 {
      TidySessionDurability(moments, replies, limit, i - 1);
      SessionDurability(moments, replies, limit, i - 1);
      var m := moments[i - 1];
      assert Onward(m, moments[i], replies[i - 1], limit);
      LoggedNames(m.world.life);
      TidyKeepsPlain(m.world, First(m.stream), Data(m.stream), moments[i].world, replies[i - 1], limit);
      PlainLoadsSafely(m.world, First(m.stream));
    }
    SessionDurability(moments, replies, limit, i);
  }

  lemma LoggedNames(s: Life)
    requires Logged(s)
    ensures ValidVariables(s.vars)
  {
  }

  lemma PlainLoadsSafely(w: World, c: Command)
    requires PlainFiles(w.files)
    ensures LoadsSafely(w, c)
  {
    hide PlainText, LoadSafe;
    if c.LoadFrom? && c.name in w.files {
      forall key: Text, word: Text | |key| <= 31 && |word| <= 31
        ensures LoadSafe(w.life, LoadFile(w.files[c.name], key, word))
      {
        PlainTextIsSafe(w.life, LoadFile(w.files[c.name], key, word));
      }
    }
  }

  /** A name set, the store cleared, the name asked for: it is not there. */
  lemma ClearedNameIsGone(w: World, key: Text, name: Text, w1: World, r1: Text, w2: World, r2: Text, w3: World, r3: Text,
                          id: nat, t: Text, limit: nat)
    requires ValidName(key) && ValidName(name)
    requires CommandStep(w, OnVariables(id, SetName(Some(key), name), OK), t, w1, r1, limit)
    requires CommandStep(w1, ClearAll(id, S.CLEAR_MAGIC), t, w2, r2, limit)
    requires CommandStep(w2, OnVariables(id, GetName(Some(key)), OK), t, w3, r3, limit)
    ensures w1.life.vars == w.life.vars[key := Ref(name)] && r1 == HeaderBytes(id, OK)
    ensures w3 == w2 && w3.life.vars == map[] && r3 == HeaderBytes(id, ENOENT)
  {
  }

  /** The file after a dump to a new name, and what loading it gives. */
  lemma DumpedFile(w: World, name: Text, id: nat, t: Text, w1: World, r1: Text, limit: nat) returns (dump: Text)
    requires ValidVariables(w.life.vars) && name != [] && name !in w.files
    requires CommandStep(w, DumpTo(id, name), t, w1, r1, limit)
    ensures r1 == HeaderBytes(id, OK) && w1 == World(w.life, w.files[name := dump]) && PlainText(dump)
    ensures forall key, word, m :: Load(dump, key, word, m) == Complete(m + w.life.vars)
  {
    hide HeaderBytes, IsListing, AsMap, Read, PlainText;
    dump :| IsDump(dump, w.life.vars) && w1 == w.(files := w.files[name := WriteOver([], dump)]);
    DumpIsPlain(dump, w.life.vars);
    var records :| IsListing(records) && AsMap(records) == w.life.vars && dump == Print(records);
    forall key, word, m
      ensures Load(dump, key, word, m) == Complete(m + w.life.vars)
    {
      DumpThenLoad(w.life.vars, records, [], m, key, word);
    }
  }

  /** Variables dumped to a new file and loaded again are the variables there were, and the server stays
      durable. */
  lemma DumpAndReload(w: World, name: Text, w1: World, r1: Text, w2: World, r2: Text, id: nat, t: Text, limit: nat)
    requires Logged(w.life) && w.life.attached && name != [] && name !in w.files
    requires CommandStep(w, DumpTo(id, name), t, w1, r1, limit)
    requires CommandStep(w1, LoadFrom(id, name), t, w2, r2, limit)
    ensures w2.life.vars == w.life.vars && r2 == HeaderBytes(id, OK)
    ensures w2.life.attached && Durable(w2.life)
  {
    hide HeaderBytes, Load, LoadStep, Logged, Durable, PlainText, DumpStep;
    LoggedNames(w.life);
    var dump := DumpedFile(w, name, id, t, w1, r1, limit);
    var status :| LoadFromStep(w1, name, w2, status) && r2 == HeaderBytes(id, status);
    var key, word :| LoadStep(w.life, LoadFile(dump, key, word), w2.life)
                     && status == if Load(dump, key, word, w.life.vars).Complete? then OK else EINVAL;
    assert w.life.vars + w.life.vars == w.life.vars;
    CompleteLoad(w.life, LoadFile(dump, key, word), w2.life, w.life.vars);
    PlainTextIsSafe(w.life, LoadFile(dump, key, word));
    LoadDurability(w.life, LoadFile(dump, key, word), w2.life);
  }

  lemma CompleteLoad(s: Life, e: Event, s': Life, vars: Variables)
    requires e.LoadFile? && LoadStep(s, e, s') && Load(e.text, e.key, e.word, s.vars) == Complete(vars)
    ensures s'.vars == vars && s'.attached == s.attached
  {
    hide Read;
  }

  /** Variables dumped to a new file, cleared and loaded again are the variables there were; but the
      clear has detached the log, so that the next restart loses them. */
  lemma BackupAndRestore(w: World, name: Text, w1: World, r1: Text, w2: World, r2: Text, w3: World, r3: Text,
                         id: nat, t: Text, limit: nat)
    requires ValidVariables(w.life.vars) && name != [] && name !in w.files
    requires CommandStep(w, DumpTo(id, name), t, w1, r1, limit)
    requires CommandStep(w1, ClearAll(id, S.CLEAR_MAGIC), t, w2, r2, limit)
    requires CommandStep(w2, LoadFrom(id, name), t, w3, r3, limit)
    ensures w3.life.vars == w.life.vars && r3 == HeaderBytes(id, OK)
    ensures Durable(w3.life) <==> w.life.vars == map[]
  {
    hide HeaderBytes, Load, LoadStep, Logged, Durable, PlainText, DumpStep;
    var dump := DumpedFile(w, name, id, t, w1, r1, limit);
    var status :| LoadFromStep(w2, name, w3, status) && r3 == HeaderBytes(id, status);
    var key, word :| LoadStep(w2.life, LoadFile(dump, key, word), w3.life)
                     && status == if Load(dump, key, word, map[]).Complete? then OK else EINVAL;
    assert map[] + w.life.vars == w.life.vars;
    CompleteLoad(w2.life, LoadFile(dump, key, word), w3.life, w.life.vars);
    ClearedIsLogged();
    DetachedLoadKeepsLogged(w2.life, LoadFile(dump, key, word), w3.life);
    LoggedIsDurable(w3.life);
  }
}
