/** How server_run and server_start cut a connection's byte stream into requests, and the encoding
    that this undoes. */
module Framing {
  import opened Types
  import opened CheckedMath
  import opened LogText
  import opened Requests
  import opened Wire
  import opened Receive
  import opened FileTransfer

  /** A request as read. `status` is what the character checks of names left; a write is followed by
      `size` bytes of data. */
  datatype Command =
    | OnVariables(id: nat, request: Request, status: byte)
    | ReadFile(id: nat, name: Text, offset: nat, size: nat)
    | WriteFile(id: nat, name: Text, offset: nat, size: nat)
    | CreateFile(id: nat, name: Text)
    | SizeOfFile(id: nat, name: Text)
    | DumpTo(id: nat, name: Text)
    | LoadFrom(id: nat, name: Text)
    | ClearAll(id: nat, magic: nat)
    | Other(id: nat, opcode: nat)

  // ---------- Reading, over a stream of bytes ----------

  predicate Bit(x: nat, power: nat)
    requires power > 0
  {
    (x / power) % 2 == 1
  }

  /** Which arguments follow an opcode 0x1XX with low byte `low`. */
  predicate HasNameA(low: nat) {
    Bit(low, 8) || Bit(low, 16) || low == 0xF
  }

  predicate HasNameB(low: nat) {
    Bit(low, 32) || low == 0x9
  }

  predicate HasNumberB(low: nat) {
    !HasNameB(low) && low != 0x8 && low != 0xF
  }

  /** A letter first, then letters, digits and underscores; nothing is asked of an empty string. */
  predicate NameCharacters(s: Text) {
    forall i | 0 <= i < |s| :: if i == 0 then IsAlpha(s[i]) else IsNameByte(s[i])
  }

  method CheckCharacters(s: Text) returns (ok: bool)
    ensures ok == NameCharacters(s)
  {
    ok := true;
    var i := 0;
    while i < |s|
      invariant 0 <= i <= |s|
      invariant ok == NameCharacters(s[..i])
    {
      if i == 0 {
        if IsDigit(s[i]) {
          ok := false;
        }
        if !IsAlpha(s[i]) {
          ok := false;
        }
      } else {
        if !IsDigit(s[i]) {
          if !IsAlpha(s[i]) {
            if s[i] != UNDERSCORE {
              ok := false;
            }
          }
        }
      }
      assert s[..i + 1] == s[..i] + [s[i]];
      i := i + 1;
    }
    assert s[..i] == s;
  }

  /** A length byte and, for a length of 1 to 31, that many bytes of a C string. */
  function NameIn(t: Text): Option<Text> {
    var length := Next(t, 1)[0];
    if 1 <= length <= 31 then Some(CString(Next(Rest(t, 1), length))) else None
  }

  function AfterName(t: Text): (rest: Text)
    ensures |rest| <= |t|
  {
    var length := Next(t, 1)[0];
    if 1 <= length <= 31 then Rest(Rest(t, 1), length) else Rest(t, 1)
  }

  method RecvName(conn: Connection) returns (name: Option<Text>)
    modifies conn`incoming
    ensures name == NameIn(old(conn.incoming)) && conn.incoming == AfterName(old(conn.incoming))
  {
    var length := RecvUint8(conn);
    if 1 <= length <= 31 {
      var buffer := new byte[length + 1](_ => 0);
      var _ := RecvString(conn, buffer, length, true);
      name := Some(CString(buffer[..]));
      CStringEnds(Next(Rest(old(conn.incoming), 1), length));
      assert buffer[..] == Next(Rest(old(conn.incoming), 1), length) + [0];
    } else {
      name := None;
    }
  }

  lemma {:induction false} CStringEnds(s: Text)
    ensures CString(s + [0]) == CString(s)
  {
    if s != [] {
      assert (s + [0])[1..] == s[1..] + [0];
      CStringEnds(s[1..]);
    }
  }

  function NumberIn(t: Text): int64 {
    Powers();
    FromBytesBound(Next(t, 8));
    Signed64(FromBytes(Next(t, 8)))
  }

  function OperandIn(named: bool, t: Text): Operand {
    if named then Variable(NameIn(t)) else Immediate(NumberIn(t))
  }

  function AfterOperand(named: bool, t: Text): (rest: Text)
    ensures |rest| <= |t|
  {
    if named then AfterName(t) else Rest(t, 8)
  }

  predicate OperandAccepted(o: Operand) {
    o.Variable? && o.name.Some? ==> NameCharacters(o.name.value)
  }

  method RecvOperand(conn: Connection, named: bool) returns (o: Operand, ok: bool)
    modifies conn`incoming
    ensures o == OperandIn(named, old(conn.incoming)) && conn.incoming == AfterOperand(named, old(conn.incoming))
    ensures ok == OperandAccepted(o)
  {
    ok := true;
    if named {
      var name := RecvName(conn);
      if name.Some? {
        ok := CheckCharacters(name.value);
      }
      o := Variable(name);
    } else {
      var v := RecvUint64(conn);
      Powers();
      o := Immediate(Signed64(v));
    }
  }

  /** The arguments of a request on variables. */
  datatype Arguments = Arguments(a: Operand, b: Operand, target: Target, status: byte)

  function StreamAtB(low: nat, t: Text): Text {
    AfterOperand(HasNameA(low), t)
  }

  function StreamAtTarget(low: nat, t: Text): Text {
    if HasNameB(low) || HasNumberB(low) then AfterOperand(HasNameB(low), StreamAtB(low, t)) else StreamAtB(low, t)
  }

  function AfterArguments(low: nat, t: Text): (rest: Text)
    ensures |rest| <= |t|
  {
    if Bit(low, 64) then AfterName(StreamAtTarget(low, t)) else StreamAtTarget(low, t)
  }

  function ArgumentsIn(low: nat, t: Text): Arguments {
    var a := OperandIn(HasNameA(low), t);
    var b := if HasNameB(low) || HasNumberB(low) then OperandIn(HasNameB(low), StreamAtB(low, t)) else Immediate(0);
    var target := if Bit(low, 64) then Keep(NameIn(StreamAtTarget(low, t))) else Discard;
    var ok := OperandAccepted(a) && OperandAccepted(b)
              && (target.Keep? && target.name.Some? ==> !NumberText(target.name.value) && NameCharacters(target.name.value));
    Arguments(a, b, target, if ok then OK else EINVAL)
  }

  method RecvArguments(conn: Connection, low: nat) returns (args: Arguments)
    modifies conn`incoming
    ensures args == ArgumentsIn(low, old(conn.incoming)) && conn.incoming == AfterArguments(low, old(conn.incoming))
  {
    hide OperandIn, AfterOperand, NameIn, AfterName, OperandAccepted, Bit;
    var status := OK;
    var a, ok := RecvOperand(conn, HasNameA(low));
    if !ok {
      status := EINVAL;
    }
    var b := Immediate(0);
    if HasNameB(low) || HasNumberB(low) {
      b, ok := RecvOperand(conn, HasNameB(low));
      if !ok {
        status := EINVAL;
      }
    } else {
      NumberAccepted(0);
    }
    var target := Discard;
    if Bit(low, 64) {
      var name := RecvName(conn);
      if name.Some? {
        var number := IsNumber(name.value);
        ok := CheckCharacters(name.value);
        if number || !ok {
          status := EINVAL;
        }
      }
      target := Keep(name);
    }
    args := Arguments(a, b, target, status);
  }

  lemma NumberAccepted(v: int64)
    ensures OperandAccepted(Immediate(v))
  {
  }

  function OpOf(nibble: nat): Option<Op> {
    if nibble == 1 then Some(CheckedMath.Add) else if nibble == 2 then Some(CheckedMath.Sub)
    else if nibble == 3 then Some(CheckedMath.Mul) else if nibble == 4 then Some(CheckedMath.Div)
    else if nibble == 5 then Some(CheckedMath.Mod) else None
  }

  /** Which request the function code selects: the opcode without its four flag bits. */
  function Select(id: nat, opcode: nat, args: Arguments): Command {
    var nibble := opcode % 16;
    if opcode / 256 != 1 then Other(id, opcode)
    else if OpOf(nibble).Some? then
      OnVariables(id, Arithmetic(OpOf(nibble).value, args.a, args.b, args.target, Bit(opcode, 128)), args.status)
    else if nibble == 0x8 && args.a.Variable? then OnVariables(id, GetName(args.a.name), args.status)
    else if nibble == 0x9 && args.a.Variable? && args.b.Variable? && args.b.name.Some? then
      OnVariables(id, SetName(args.a.name, args.b.name.value), args.status)
    else if nibble == 0xF && args.a.Variable? then OnVariables(id, Delete(args.a.name), args.status)
    else Other(id, opcode)
  }

  /** A file name: a 16-bit length and the bytes; lengths above the buffer size are dropped. */
  function FileNameLength(t: Text): nat {
    FromBytes(Next(t, 2))
  }

  function FileNameIn(t: Text): Text {
    var length := FileNameLength(t);
    if length <= BUFFER_SIZE then CString(Next(Rest(t, 2), length)) else []
  }

  function AfterFileName(t: Text): (rest: Text)
    ensures |rest| <= |t|
  {
    Rest(Rest(t, 2), FileNameLength(t))
  }

  /** `last` is the count of the last recv: 0 for a name of length 0 and for one that is cut off. */
  method RecvFileName(conn: Connection) returns (name: Text, last: nat)
    modifies conn`incoming
    ensures name == FileNameIn(old(conn.incoming)) && conn.incoming == AfterFileName(old(conn.incoming))
    ensures last > 0 <==> 1 <= FileNameLength(old(conn.incoming)) <= |Rest(old(conn.incoming), 2)|
  {
    var length := RecvUint16(conn);
    var buffer := new byte[length + 1](_ => 0);
    last := RecvString(conn, buffer, length, true);
    name := CString(buffer[..]);
    ghost var received := Next(Rest(old(conn.incoming), 2), length);
    if 1 <= length <= BUFFER_SIZE {
      CStringEnds(received);
      assert buffer[..] == received + [0];
    } else {
      assert buffer[0] == 0;
      if length == 0 {
        assert received == [];
      }
    }
  }

  /** The two numbers behind the name of a read or write request. */
  function OffsetIn(t: Text): nat {
    FromBytes(Next(t, 8))
  }

  function SizeIn(t: Text): nat {
    FromBytes(Next(Rest(t, 8), 2))
  }

  function AfterSlice(t: Text): Text {
    Rest(Rest(t, 8), 2)
  }

  function OpcodeIn(t: Text): nat {
    FromBytes(Next(t, 2))
  }

  function IdIn(t: Text): nat {
    FromBytes(Next(t, 6)[2..6])
  }

  predicate IsVariableOpcode(opcode: nat) {
    Bit(opcode, 256) && !Bit(opcode, 512)
  }

  /** One request: what it is, for the 6 header bytes and what follows them. */
  function CommandIn(id: nat, opcode: nat, t: Text): Command {
    if IsVariableOpcode(opcode) then Select(id, opcode, ArgumentsIn(opcode % 256, t))
    else if opcode == 0x0201 then ReadFile(id, FileNameIn(t), OffsetIn(AfterFileName(t)), SizeIn(AfterFileName(t)))
    else if opcode == 0x0202 then WriteFile(id, FileNameIn(t), OffsetIn(AfterFileName(t)), SizeIn(AfterFileName(t)))
    else if opcode == 0x0210 then CreateFile(id, FileNameIn(t))
    else if opcode == 0x0220 then SizeOfFile(id, FileNameIn(t))
    else if opcode == 0x0301 then DumpTo(id, FileNameIn(t))
    else if opcode == 0x0302 then LoadFrom(id, FileNameIn(t))
    else if opcode == 0x0310 then ClearAll(id, FromBytes(Next(t, 4)))
    else Other(id, opcode)
  }

  /** The stream behind the fields of a request. */
  function AfterFields(opcode: nat, t: Text): (rest: Text)
    ensures |rest| <= |t|
  {
    if IsVariableOpcode(opcode) then AfterArguments(opcode % 256, t)
    else if opcode in {0x0201, 0x0202} then AfterSlice(AfterFileName(t))
    else if opcode in {0x0210, 0x0220, 0x0301, 0x0302} then AfterFileName(t)
    else if opcode == 0x0310 then Rest(t, 4)
    else t
  }

  /** The reading half of server_run, which has the header in its buffer. `last` is the count of the
      last recv of a file name. */
  method RecvCommand(conn: Connection, buffer: array<byte>) returns (c: Command, last: nat)
    requires buffer.Length == BUFFER_SIZE
    modifies conn`incoming
    ensures var opcode := FromBytes(buffer[..2]);
            && c == CommandIn(FromBytes(buffer[2..6]), opcode, old(conn.incoming))
            && conn.incoming == AfterFields(opcode, old(conn.incoming))
    ensures c.ReadFile? && c.name != [] && c.size > 0 ==> last > 0
  {
    hide ArgumentsIn, AfterArguments, Select, FileNameIn, AfterFileName, FileNameLength, Next, Rest;
    var opcode := WireToUint16(buffer, 0, 1);
    var id := WireToUint(buffer, 2, 5, 4);
    assert buffer[0..2] == buffer[..2];
    last := 0;
    if Bit(opcode, 256) && !Bit(opcode, 512) {
      var args := RecvArguments(conn, opcode % 256);
      c := Select(id, opcode, args);
      SelectsVariables(id, opcode, args);
    } else if opcode == 0x0201 || opcode == 0x0202 {
      var name;
      name, last := RecvFileName(conn);
      var offset := RecvUint64(conn);
      var size := RecvUint16(conn);
      CutOffName(old(conn.incoming));
      c := if opcode == 0x0201 then ReadFile(id, name, offset, size) else WriteFile(id, name, offset, size);
    } else if opcode == 0x0210 || opcode == 0x0220 || opcode == 0x0301 || opcode == 0x0302 {
      var name;
      name, last := RecvFileName(conn);
      c := if opcode == 0x0210 then CreateFile(id, name)
           else if opcode == 0x0220 then SizeOfFile(id, name)
           else if opcode == 0x0301 then DumpTo(id, name)
           else LoadFrom(id, name);
    } else if opcode == 0x0310 {
      var magic := RecvUint32(conn);
      c := ClearAll(id, magic);
    } else {
      c := Other(id, opcode);
    }
  }

  /** If the client hung up in a file name, the numbers behind it read as zeros. */
  lemma CutOffName(t: Text)
    ensures FileNameLength(t) == 0 ==> FileNameIn(t) == []
    ensures FileNameLength(t) > |Rest(t, 2)| ==> SizeIn(AfterFileName(t)) == 0
  {
    assert Next([], 2) == [0, 0];
    assert [0, 0][..1] == [0] && [0][..0] == [];
    assert FromBytes([0]) == 0;
  }

  lemma SelectsVariables(id: nat, opcode: nat, args: Arguments)
    ensures Select(id, opcode, args).OnVariables? || Select(id, opcode, args).Other?
  {
  }

  // ---------- A connection ----------

  /** Create and dump open their file with O_CREAT. */
  function ExistingAfter(c: Command, existing: set<Text>): set<Text> {
    if (c.CreateFile? || c.DumpTo?) && c.name != [] then existing + {c.name} else existing
  }

  /** The stream behind the whole request; of a write's data as much is taken as ServeWrite takes. */
  function AfterData(c: Command, t: Text, existing: set<Text>): (rest: Text)
    ensures |rest| <= |t|
  {
    if c.WriteFile? then Rest(t, WriteTakes(c.name in existing, c.offset, c.size)) else t
  }

  /** The request at the front of a stream that has a header, and the stream behind its fields. */
  function First(t: Text): Command
    requires |t| >= 6
  {
    CommandIn(IdIn(t), OpcodeIn(t), Rest(t, 6))
  }

  function Data(t: Text): (rest: Text)
    requires |t| >= 6
    ensures |rest| < |t|
  {
    AfterFields(OpcodeIn(t), Rest(t, 6))
  }

  /** The requests of a stream, as long as 6 header bytes arrive. */
  function CommandsIn(t: Text, existing: set<Text>): seq<Command>
    decreases |t|
  {
    if |t| < 6 then []
    else
      var c := First(t);
      [c] + CommandsIn(AfterData(c, Data(t), existing), ExistingAfter(c, existing))
  }

  /** What a request does to the files and the stream as far as later framing depends on it. */
  method TakeData(conn: Connection, files: Files, c: Command)
    requires c.WriteFile? ==> c.size < 0x1_0000
    modifies conn`incoming, files
    ensures conn.incoming == AfterData(c, old(conn.incoming), old(files.content.Keys))
    ensures files.content.Keys == ExistingAfter(c, old(files.content.Keys))
  {
    match c
    case WriteFile(_, name, offset, size) => var _ := ServeWrite(conn, files, name, offset, size);
    case CreateFile(_, name) => var _ := files.Create(name);
    case DumpTo(_, name) => var _ := files.OpenToWrite(name);
    case _ =>
  }

  lemma SizeFits(id: nat, opcode: nat, t: Text)
    ensures var c := CommandIn(id, opcode, t);
            c.ReadFile? || c.WriteFile? ==> c.size < 0x1_0000
  {
    hide ArgumentsIn, Select, FileNameIn, AfterFileName;
    Powers();
    FromBytesBound(Next(Rest(AfterFileName(t), 8), 2));
    SelectsVariables(id, opcode, ArgumentsIn(opcode % 256, t));
  }

  method ServeConnection(conn: Connection, files: Files, buffer: array<byte>) returns (commands: seq<Command>)
    requires buffer.Length == BUFFER_SIZE
    modifies conn`incoming, files, buffer
    ensures commands == CommandsIn(old(conn.incoming), old(files.content.Keys))
  {
    hide CommandIn, AfterFields, AfterData, ExistingAfter, FromBytes;
    commands := [];
    ghost var t := conn.incoming;
    var total := RecvHeader(conn, buffer);
    while total == 6
      invariant (total == 6 <==> |t| >= 6) && conn.incoming == Rest(t, 6)
      invariant total == 6 ==> buffer[..6] == t[..6]
      invariant CommandsIn(old(conn.incoming), old(files.content.Keys)) == commands + CommandsIn(t, files.content.Keys)
      decreases |t|
    {
      HeaderBytesAre(buffer[..], t);
      SizeFits(IdIn(t), OpcodeIn(t), Rest(t, 6));
      var c, _ := RecvCommand(conn, buffer);
      TakeData(conn, files, c);
      commands := commands + [c];
      t := conn.incoming;
      total := RecvHeader(conn, buffer);
    }
  }

  /** The 6 header bytes. */
  method RecvHeader(conn: Connection, buffer: array<byte>) returns (total: nat)
    requires buffer.Length == BUFFER_SIZE
    modifies conn`incoming, buffer
    ensures total == 6 <==> |old(conn.incoming)| >= 6
    ensures conn.incoming == Rest(old(conn.incoming), 6)
    ensures total == 6 ==> buffer[..6] == old(conn.incoming)[..6]
  {
    var n, _ := RecvLoop(conn, buffer, 6);
    total := n;
  }

  lemma HeaderBytesAre(buffer: Text, t: Text)
    requires |buffer| == BUFFER_SIZE && |t| >= 6 && buffer[..6] == t[..6]
    ensures FromBytes(buffer[..2]) == OpcodeIn(t) && FromBytes(buffer[2..6]) == IdIn(t)
  {
    assert buffer[..2] == buffer[..6][..2] == Next(t, 2);
    assert buffer[2..6] == buffer[..6][2..6] == Next(t, 6)[2..6];
  }
}
