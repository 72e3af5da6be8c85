/** One client's connection from end to end: the client's bytes in, cut into requests and performed on
    the variables, the log and the files, replies out. */
module Session {
  import opened Types
  import opened LogText
  import opened Listing
  import opened Requests
  import opened Durability
  import opened DumpFiles
  import opened Wire
  import opened Receive
  import opened FileTransfer
  import opened Framing
  import S = Server

  /** What clients can see and change: variables, log and files. */
  datatype World = World(life: Life, files: map<Text, Text>)

  // ---------- What a request does, and the bytes that answer it ----------

  /** The bytes of a reply to a request on variables. */
  function ReplyBytes(id: nat, reply: Reply): Text {
    match reply
    case Failed(status) => HeaderBytes(id, status)
    case Done => HeaderBytes(id, OK)
    case Number(v) => AnswerBytes(id, OK, v)
    case NameIs(name) => HeaderBytes(id, OK) + [|name| % 256] + name
  }

  /** 13 bytes, whether the file is there or not. */
  function SizeReply(files: map<Text, Text>, id: nat, name: Text): Text {
    if name in files then HeaderBytes(id, OK) + BigEndian(|files[name]|, 8) else HeaderBytes(id, ENOENT) + Zeros(8)
  }

  ghost predicate DumpStep(w: World, name: Text, w': World, status: byte) {
    if name == [] then w' == w && status == EEXIST
    else
      && status == OK
      && exists dump ::
           && IsDump(dump, w.life.vars)
           && w' == w.(files := w.files[name := WriteOver(if name in w.files then w.files[name] else [], dump)])
  }

  /** The scan buffers of a load are not initialised. */
  ghost predicate LoadFromStep(w: World, name: Text, w': World, status: byte) {
    if name !in w.files then w' == w && status == EINVAL
    else
      && w'.files == w.files
      && exists key: Text, word: Text | |key| <= 31 && |word| <= 31 ::
           && LoadStep(w.life, LoadFile(w.files[name], key, word), w'.life)
           && status == if Load(w.files[name], key, word, w.life.vars).Complete? then OK else EINVAL
  }

  /** A request on files; t is the stream behind its fields. Only a read that gives send a negative
      length leaves open what is sent. */
  ghost predicate FileStep(files: map<Text, Text>, c: Command, t: Text, files': map<Text, Text>, reply: Text)
    requires c.ReadFile? || c.WriteFile? || c.CreateFile? || c.SizeOfFile?
  {
    match c
    case ReadFile(id, name, offset, size) =>
      && files' == files && size < 0x1_0000
      && (ReadSupported(files, name, offset, size) ==> reply == ReadAnswer(files, id, name, offset, size))
    case WriteFile(id, name, offset, size) =>
      && files' == AfterWrite(files, name, offset, size, t)
      && reply == HeaderBytes(id, WriteStatus(name in files, offset, size, |t|))
    case CreateFile(id, name) =>
      var status := CreateStatus(files, name);
      files' == (if status == OK then files[name := []] else files) && reply == HeaderBytes(id, status)
    case SizeOfFile(id, name) =>
      files' == files && reply == SizeReply(files, id, name)
  }

  /** One request: the world before and after it, and the bytes sent. */
  ghost predicate CommandStep(w: World, c: Command, t: Text, w': World, reply: Text, limit: nat) {
    match c
    case OnVariables(id, request, _) =>
      var (life, r) := ServeOne(w.life, request, limit);
      w' == World(life, w.files) && reply == ReplyBytes(id, r)
    case DumpTo(id, name) =>
      exists status :: DumpStep(w, name, w', status) && reply == HeaderBytes(id, status)
    case LoadFrom(id, name) =>
      exists status :: LoadFromStep(w, name, w', status) && reply == HeaderBytes(id, status)
    case ClearAll(id, magic) =>
      if magic == S.CLEAR_MAGIC then w' == World(Life(map[], [], false), w.files) && reply == HeaderBytes(id, OK)
      else w' == w && reply == HeaderBytes(id, EINVAL)
    case Other(_, _) => w' == w && reply == []
    case _ => w'.life == w.life && FileStep(w.files, c, t, w'.files, reply)
  }

  // ---------- Connections ----------

  /** Between two requests: the world, and what is still to come of the client's bytes. */
  datatype Moment = Moment(world: World, stream: Text)

  /** From one request to the next. */
  ghost predicate Onward(m: Moment, m': Moment, reply: Text, limit: nat) {
    && |m.stream| >= 6
    && CommandStep(m.world, First(m.stream), Data(m.stream), m'.world, reply, limit)
    && m'.stream == AfterData(First(m.stream), Data(m.stream), m.world.files.Keys)
  }

  ghost predicate Trace(moments: seq<Moment>, replies: seq<Text>, limit: nat) {
    && |moments| == |replies| + 1
    && forall i | 0 <= i < |replies| :: Onward(moments[i], moments[i + 1], replies[i], limit)
  }

  function Concat(replies: seq<Text>): Text {
    if replies == [] then [] else Concat(replies[..|replies| - 1]) + replies[|replies| - 1]
  }

  /** The code ends and has a defined meaning: no read that is stuck, no load with a field that
      overruns its buffer, no name that begins with a zero byte, no name set to NULL. */
  ghost predicate Supported(w: World, c: Command) {
    match c
    case OnVariables(_, r, status) => status == if NamesAccepted(r) then OK else EINVAL
    case ReadFile(_, name, offset, size) => !Stuck(w.files, name, offset, size)
    case LoadFrom(_, name) =>
      name in w.files ==>
        forall key: Text, word: Text | |key| <= 31 && |word| <= 31 :: Read(w.files[name], key, word).stop != AtOverrun
    case Other(_, opcode) => opcode / 256 == 1 ==> opcode % 16 != 9
    case _ => true
  }

  /** Every request is supported in every world in which the server can come to it. */
  ghost predicate AllSupported(m: Moment, limit: nat)
    decreases |m.stream|
  {
    |m.stream| >= 6 ==>
      && Supported(m.world, First(m.stream))
      && forall m', reply | Onward(m, m', reply, limit) :: AllSupported(m', limit)
  }

  /** What a connection is served from: variables with valid names, and no file of the empty name. */
  ghost predicate Servable(m: Moment, limit: nat) {
    ValidVariables(m.world.life.vars) && [] !in m.world.files && AllSupported(m, limit)
  }

  // ---------- The code ----------

  /** Calls the part of server_run the request selects. */
  method Perform(server: S.Server, request: Request, status: byte) returns (reply: Reply)
    requires server.Valid()
    requires status == if NamesAccepted(request) then OK else EINVAL
    modifies server`log, server.store.Repr
    ensures server.Valid() && fresh(server.store.Repr - old(server.store.Repr))
    ensures (server.Snapshot(), reply) == ServeOne(old(server.Snapshot()), request, server.limit)
  {
    hide S.Server.Valid;
    match request
    case Arithmetic(op, a, b, target, recursive) => reply := server.Compute(op, a, b, target, recursive, status);
    case GetName(key) => reply := server.GetVariable(key, status);
    case SetName(key, name) => reply := server.SetVariable(key, name, status);
    case Delete(key) => reply := server.DeleteVariable(key, status);
  }

  method SendStatus(conn: Connection, buffer: array<byte>, id: nat, status: byte)
    requires buffer.Length == BUFFER_SIZE
    modifies conn`outgoing, buffer
    ensures conn.outgoing == old(conn.outgoing) + HeaderBytes(id, status)
  {
    hide BigEndian;
    SetHeader(buffer, id, status);
    assert buffer[..5] == HeaderBytes(id, status);
    conn.Send(buffer[..5]);
  }

  method SendReply(conn: Connection, buffer: array<byte>, id: nat, reply: Reply)
    requires buffer.Length == BUFFER_SIZE
    requires reply.NameIs? ==> 1 <= |reply.name| <= 31
    modifies conn`outgoing, buffer
    ensures conn.outgoing == old(conn.outgoing) + ReplyBytes(id, reply)
  {
    hide BigEndian;
    match reply
    case Failed(status) => SendStatus(conn, buffer, id, status);
    case Done => SendStatus(conn, buffer, id, OK);
    case Number(v) =>
      var sent := Answer(buffer, id, OK, v);
      conn.Send(sent);
    case NameIs(name) =>
      SetHeader(buffer, id, OK);
      var length := |name| % 256;
      Uint8ToWire(buffer, 5, length);
      assert buffer[..6] == HeaderBytes(id, OK) + [length];
      conn.Send(buffer[..6]);
      var characters := new byte[|name|](i requires 0 <= i < |name| => name[i]);
      SendData(conn, buffer, characters, |name|);
      assert characters[..|name|] == name;
  }

  /** The file size request: without a size, zeros are sent in its place. */
  method ServeSize(conn: Connection, files: Files, buffer: array<byte>, id: nat, name: Text)
    requires buffer.Length == BUFFER_SIZE
    modifies conn`outgoing, buffer
    ensures conn.outgoing == old(conn.outgoing) + SizeReply(files.content, id, name)
  {
    hide BigEndian;
    var size := files.FileSize(name);
    var status := if size < 0 then -size else OK;
    forall i | 0 <= i < buffer.Length {
      buffer[i] := 0;
    }
    SetHeader(buffer, id, status);
    if status == OK {
      UintToWire(buffer, 5, 12, size, 8);
    }
    assert buffer[..13] == SizeReply(files.content, id, name);
    conn.Send(buffer[..13]);
  }

  /** The requests on files, behind their fields. */
  method ServeOnFiles(conn: Connection, files: Files, buffer: array<byte>, last: nat, c: Command) returns (ghost reply: Text)
    requires buffer.Length == BUFFER_SIZE && (c.ReadFile? || c.WriteFile? || c.CreateFile? || c.SizeOfFile?)
    requires c.ReadFile? || c.WriteFile? ==> c.size < 0x1_0000
    requires c.ReadFile? ==> !Stuck(files.content, c.name, c.offset, c.size)
    requires c.ReadFile? && c.name in files.content && c.size > 0 ==> last > 0
    modifies conn, files, buffer
    ensures conn.incoming == AfterData(c, old(conn.incoming), old(files.content.Keys))
    ensures conn.outgoing == old(conn.outgoing) + reply
    ensures FileStep(old(files.content), c, old(conn.incoming), files.content, reply)
  {
    hide BigEndian, ReadAnswer, ReadSupported, Stuck, SizeReply, HeaderBytes, CreateStatus, AfterWrite, WriteStatus, WriteTakes;
    match c
    case ReadFile(id, name, offset, size) =>
      ServeRead(conn, files, buffer, Download(id, name, offset, size), last);
      reply := conn.outgoing[|old(conn.outgoing)|..];
    case WriteFile(id, name, offset, size) =>
      var status := ServeWrite(conn, files, name, offset, size);
      SendStatus(conn, buffer, id, status);
      reply := HeaderBytes(id, status);
    case CreateFile(id, name) =>
      var status := files.Create(name);
      SendStatus(conn, buffer, id, status);
      reply := HeaderBytes(id, status);
    case SizeOfFile(id, name) =>
      ServeSize(conn, files, buffer, id, name);
      reply := SizeReply(files.content, id, name);
  }

  /** A dump request, up to its status. */
  method ServeDump(server: S.Server, files: Files, name: Text) returns (status: byte)
    requires server.Valid() && files !in server.store.Repr
    modifies files
    ensures DumpStep(World(server.Snapshot(), old(files.content)), name, World(server.Snapshot(), files.content), status)
  {
    hide S.Server.Valid, IsDump, WriteOver;
    var ok := files.OpenToWrite(name);
    status := if ok then OK else EEXIST;
    if ok {
      var text := server.DumpVariables(files.content[name]);
      files.content := files.content[name := text];
    }
  }

  /** A load request, up to its status. `key` and `word` are what it finds in its scan buffers. */
  method ServeLoad(server: S.Server, files: Files, key: Text, word: Text, name: Text) returns (status: byte)
    requires server.Valid() && files !in server.store.Repr && |key| <= 31 && |word| <= 31
    requires name in files.content ==> Read(files.content[name], key, word).stop != AtOverrun
    modifies server, server.store.Repr
    ensures server.Valid() && fresh(server.store.Repr - old(server.store.Repr))
    ensures LoadFromStep(World(old(server.Snapshot()), files.content), name, World(server.Snapshot(), files.content), status)
  {
    hide S.Server.Valid, Read, LoadStep, Load;
    status := EINVAL;
    if name in files.content {
      var result := server.LoadVariables(files.content[name], key, word);
      status := if result.Failed? then result.status else OK;
    }
  }

  /** The requests on the whole store, behind their fields. */
  method ServeOnStore(server: S.Server, conn: Connection, files: Files, buffer: array<byte>, key: Text, word: Text, c: Command)
    returns (ghost reply: Text)
    requires server.Valid() && buffer.Length == BUFFER_SIZE
    requires conn !in server.store.Repr && files !in server.store.Repr && buffer !in server.store.Repr
    requires c.DumpTo? || c.LoadFrom? || c.ClearAll?
    requires |key| <= 31 && |word| <= 31 && Supported(World(server.Snapshot(), files.content), c)
    modifies conn`outgoing, files, buffer, server, server.store.Repr
    ensures server.Valid() && fresh(server.store.Repr - old(server.store.Repr))
    ensures conn.outgoing == old(conn.outgoing) + reply
    ensures forall t :: CommandStep(World(old(server.Snapshot()), old(files.content)), c, t,
                                    World(server.Snapshot(), files.content), reply, server.limit)
  {
    hide S.Server.Valid, HeaderBytes, Read, DumpStep, LoadFromStep;
    var status;
    match c {
      case DumpTo(_, name) => status := ServeDump(server, files, name);
      case LoadFrom(_, name) => status := ServeLoad(server, files, key, word, name);
      case ClearAll(_, magic) =>
        var result := server.ServeClear(magic);
        status := if result.Failed? then result.status else OK;
    }
    SendStatus(conn, buffer, c.id, status);
    reply := HeaderBytes(c.id, status);
  }

  /** One round of the worker's loop, the header being in the buffer. */
  method ServeNext(server: S.Server, conn: Connection, files: Files, buffer: array<byte>, key: Text, word: Text, ghost t: Text)
    returns (ghost reply: Text)
    requires server.Valid() && buffer.Length == BUFFER_SIZE && ValidVariables(server.store.contents) && [] !in files.content
    requires conn !in server.store.Repr && files !in server.store.Repr && buffer !in server.store.Repr
    requires |t| >= 6 && conn.incoming == Rest(t, 6) && buffer[..6] == t[..6]
    requires |key| <= 31 && |word| <= 31 && Supported(World(server.Snapshot(), files.content), First(t))
    modifies conn, files, buffer, server, server.store.Repr
    ensures server.Valid() && fresh(server.store.Repr - old(server.store.Repr))
    ensures conn.incoming == AfterData(First(t), Data(t), old(files.content.Keys)) && conn.outgoing == old(conn.outgoing) + reply
    ensures CommandStep(World(old(server.Snapshot()), old(files.content)), First(t), Data(t),
                        World(server.Snapshot(), files.content), reply, server.limit)
  {
    hide S.Server.Valid, ReplyBytes, ServeOne, CommandIn, AfterFields, Stuck, FileStep, DumpStep, LoadFromStep, HeaderBytes,
         OpcodeIn, IdIn, Rest, FromBytes, NamesAccepted;
    HeaderBytesAre(buffer[..], t);
    SizeFits(IdIn(t), OpcodeIn(t), Rest(t, 6));
    var c, last := RecvCommand(conn, buffer);
    match c
    case OnVariables(id, request, status) =>
      ServeKeepsNames(server.Snapshot(), request, server.limit);
      var r := Perform(server, request, status);
      SendReply(conn, buffer, id, r);
      reply := ReplyBytes(id, r);
    case DumpTo(_, _) => reply := ServeOnStore(server, conn, files, buffer, key, word, c);
    case LoadFrom(_, _) => reply := ServeOnStore(server, conn, files, buffer, key, word, c);
    case ClearAll(_, _) => reply := ServeOnStore(server, conn, files, buffer, key, word, c);
    case Other(_, _) => reply := [];
    case _ => reply := ServeOnFiles(conn, files, buffer, last, c);
  }

  /** The worker's loop on any stream of bytes. However recv cuts the stream, variables, log, files and
      the bytes sent are those of the requests in it served one after another. `junk` gives what each
      load finds in its scan buffers. */
  method ServeClient(server: S.Server, conn: Connection, files: Files, buffer: array<byte>, junk: nat -> (Text, Text))
    returns (ghost moments: seq<Moment>, ghost replies: seq<Text>)
    requires server.Valid() && buffer.Length == BUFFER_SIZE
    requires conn !in server.store.Repr && files !in server.store.Repr && buffer !in server.store.Repr
    requires forall i: nat :: |junk(i).0| <= 31 && |junk(i).1| <= 31
    requires Servable(Moment(World(server.Snapshot(), files.content), conn.incoming), server.limit)
    modifies conn, files, buffer, server, server.store.Repr
    ensures server.Valid()
    ensures Trace(moments, replies, server.limit)
    ensures moments[0] == Moment(World(old(server.Snapshot()), old(files.content)), old(conn.incoming))
    ensures moments[|replies|].world == World(server.Snapshot(), files.content) && |moments[|replies|].stream| < 6
    ensures conn.outgoing == old(conn.outgoing) + Concat(replies)
  {
    hide S.Server.Valid, CommandStep, Supported, Servable, Onward, Trace, AllSupported, First, Data, AfterData, ValidVariables,
         Rest;
    ghost var now := Moment(World(server.Snapshot(), files.content), conn.incoming);
    ghost var start := now;
    var n := 0;
    moments, replies := [now], [];
    TraceStarts(now, server.limit);
    var total := RecvHeader(conn, buffer);
    while total == 6
      invariant server.Valid() && fresh(server.store.Repr - old(server.store.Repr))
      invariant conn !in server.store.Repr && files !in server.store.Repr && buffer !in server.store.Repr
      invariant now.world == World(server.Snapshot(), files.content)
      invariant Servable(now, server.limit) && Trace(moments, replies, server.limit)
      invariant |moments| == |replies| + 1 && moments[0] == start && moments[|replies|] == now
      invariant conn.outgoing == old(conn.outgoing) + Concat(replies)
      invariant (total == 6 <==> |now.stream| >= 6) && conn.incoming == Rest(now.stream, 6)
      invariant total == 6 ==> buffer[..6] == now.stream[..6]
      decreases |now.stream|
    {
      ServableFirst(now, server.limit);
      var (key, word) := junk(n);
      ghost var reply := ServeNext(server, conn, files, buffer, key, word, now.stream);
      ghost var next := Moment(World(server.Snapshot(), files.content), conn.incoming);
      ServableRest(now, next, reply, server.limit);
      TraceGrows(moments, replies, next, reply, server.limit);
      moments, replies, now := moments + [next], replies + [reply], next;
      n := n + 1;
      total := RecvHeader(conn, buffer);
    }
  }

  lemma TraceStarts(m: Moment, limit: nat)
    ensures Trace([m], [], limit)
  {
  }

  lemma TraceGrows(moments: seq<Moment>, replies: seq<Text>, m: Moment, reply: Text, limit: nat)
    requires Trace(moments, replies, limit) && Onward(moments[|replies|], m, reply, limit)
    ensures Trace(moments + [m], replies + [reply], limit)
    ensures Concat(replies + [reply]) == Concat(replies) + reply
  {
    hide Onward;
    assert (replies + [reply])[..|replies|] == replies;
  }

  lemma LoadFromKeeps(w: World, name: Text, w': World, status: byte)
    requires LoadFromStep(w, name, w', status)
    ensures ValidVariables(w.life.vars) ==> ValidVariables(w'.life.vars)
    ensures w'.files == w.files
  {
    hide LoadStep, Read, Load;
    if name in w.files {
      var key, word :| LoadStep(w.life, LoadFile(w.files[name], key, word), w'.life);
      LoadChanges(w.life, LoadFile(w.files[name], key, word), w'.life);
    }
  }

  /** Names stay valid, and exactly create and dump add a file. */
  lemma StepKeeps(w: World, c: Command, t: Text, w': World, reply: Text, limit: nat)
    requires CommandStep(w, c, t, w', reply, limit)
    ensures ValidVariables(w.life.vars) ==> ValidVariables(w'.life.vars)
    ensures w'.files.Keys == ExistingAfter(c, w.files.Keys)
  {
    hide LoadFromStep, ReadAnswer, ReplyBytes, SizeReply, HeaderBytes, IsDump, WriteOver, ServeOne, WriteReaches, WriteStatus;
    match c
    case OnVariables(_, request, _) => ServeKeepsNames(w.life, request, limit);
    case LoadFrom(id, name) =>
      var status :| LoadFromStep(w, name, w', status) && reply == HeaderBytes(id, status);
      LoadFromKeeps(w, name, w', status);
    case _ =>
  }

  lemma ServableFirst(m: Moment, limit: nat)
    requires |m.stream| >= 6 && Servable(m, limit)
    ensures ValidVariables(m.world.life.vars) && [] !in m.world.files && Supported(m.world, First(m.stream))
  {
  }

  lemma ServableRest(m: Moment, m': Moment, reply: Text, limit: nat)
    requires Servable(m, limit) && |m.stream| >= 6
    requires CommandStep(m.world, First(m.stream), Data(m.stream), m'.world, reply, limit)
    requires m'.stream == AfterData(First(m.stream), Data(m.stream), m.world.files.Keys)
    ensures Onward(m, m', reply, limit) && Servable(m', limit) && |m'.stream| < |m.stream|
  {
    hide CommandStep, ValidVariables;
    StepKeeps(m.world, First(m.stream), Data(m.stream), m'.world, reply, limit);
  }

  lemma ServeKeepsNames(s: Life, r: Request, limit: nat)
    ensures var (s', reply) := ServeOne(s, r, limit);
            ValidVariables(s.vars) ==> ValidVariables(s'.vars) && (reply.NameIs? ==> 1 <= |reply.name| <= 31)
  {
  }
}
