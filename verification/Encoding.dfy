/** The encoding of requests, and the proof that the server's framing takes any concatenation of
    encoded requests apart again. */
module Encoding {
  import opened Types
  import opened CheckedMath
  import opened LogText
  import opened Requests
  import opened Wire
  import opened Receive
  import opened FileTransfer
  import opened Framing

  /** A request and the data behind it, which only a write has. */
  datatype Packet = Packet(command: Command, payload: Text)

  /** A name a client can send: length 0 stands for none. */
  predicate Sendable(name: Option<Text>) {
    name.Some? ==> 1 <= |name.value| <= 31 && 0 !in name.value
  }

  predicate SendableFile(name: Text) {
    |name| <= BUFFER_SIZE && 0 !in name
  }

  predicate SendableRequest(r: Request) {
    match r
    case Arithmetic(_, a, b, target, _) =>
      && (a.Variable? ==> Sendable(a.name)) && (b.Variable? ==> Sendable(b.name)) && (target.Keep? ==> Sendable(target.name))
    case GetName(key) => Sendable(key)
    case SetName(key, name) => Sendable(key) && Sendable(Some(name))
    case Delete(key) => Sendable(key)
  }

  /** The canonical packets: fields in range, and the status the names deserve. */
  predicate WellFormed(p: Packet) {
    var c := p.command;
    && c.id < Pow256(4)
    && (!c.WriteFile? ==> p.payload == [])
    && match c
       case OnVariables(_, r, status) => SendableRequest(r) && status == if NamesAccepted(r) then OK else EINVAL
       case ReadFile(_, name, offset, size) => SendableFile(name) && offset < Pow256(8) && size < Pow256(2)
       case WriteFile(_, name, offset, size) =>
         SendableFile(name) && offset < Pow256(8) && size < Pow256(2) && |p.payload| == size
       case CreateFile(_, name) => SendableFile(name)
       case SizeOfFile(_, name) => SendableFile(name)
       case DumpTo(_, name) => SendableFile(name)
       case LoadFrom(_, name) => SendableFile(name)
       case ClearAll(_, magic) => magic < Pow256(4)
       case Other(_, _) => false
  }

  function EncodeName(name: Option<Text>): Text
    requires Sendable(name)
  {
    if name.None? then [0] else [|name.value|] + name.value
  }

  function EncodeOperand(o: Operand): Text
    requires o.Variable? ==> Sendable(o.name)
  {
    match o
    case Immediate(v) => BigEndian(Unsigned64(v), 8)
    case Variable(name) => EncodeName(name)
  }

  function EncodeFileName(name: Text): Text {
    BigEndian(|name|, 2) + name
  }

  function OpNibble(op: Op): nat {
    match op
    case Add => 1
    case Sub => 2
    case Mul => 3
    case Div => 4
    case Mod => 5
  }

  function Opcode(c: Command): nat
    requires !c.Other?
  {
    match c
    case OnVariables(_, Arithmetic(op, a, b, target, recursive), _) =>
      0x100 + OpNibble(op) + 16 * Flags(a.Variable?, b.Variable?, target.Keep?, recursive)
    case OnVariables(_, GetName(_), _) => 0x108
    case OnVariables(_, SetName(_, _), _) => 0x109
    case OnVariables(_, Delete(_), _) => 0x10F
    case ReadFile(_, _, _, _) => 0x201
    case WriteFile(_, _, _, _) => 0x202
    case CreateFile(_, _) => 0x210
    case SizeOfFile(_, _) => 0x220
    case DumpTo(_, _) => 0x301
    case LoadFrom(_, _) => 0x302
    case ClearAll(_, _) => 0x310
  }

  function EncodeRequest(r: Request): Text
    requires SendableRequest(r)
  {
    match r
    case Arithmetic(_, a, b, target, _) =>
      EncodeOperand(a) + (EncodeOperand(b) + if target.Keep? then EncodeName(target.name) else [])
    case GetName(key) => EncodeName(key)
    case SetName(key, name) => EncodeName(key) + EncodeName(Some(name))
    case Delete(key) => EncodeName(key)
  }

  function EncodeBody(p: Packet): Text
    requires WellFormed(p)
  {
    match p.command
    case OnVariables(_, r, _) => EncodeRequest(r)
    case ReadFile(_, name, offset, size) => EncodeFileName(name) + (BigEndian(offset, 8) + BigEndian(size, 2))
    case WriteFile(_, name, offset, size) => EncodeFileName(name) + (BigEndian(offset, 8) + (BigEndian(size, 2) + p.payload))
    case CreateFile(_, name) => EncodeFileName(name)
    case SizeOfFile(_, name) => EncodeFileName(name)
    case DumpTo(_, name) => EncodeFileName(name)
    case LoadFrom(_, name) => EncodeFileName(name)
    case ClearAll(_, magic) => BigEndian(magic, 4)
  }

  function Encode(p: Packet): Text
    requires WellFormed(p)
  {
    BigEndian(Opcode(p.command), 2) + BigEndian(p.command.id, 4) + EncodeBody(p)
  }

  function EncodeAll(ps: seq<Packet>): Text
    requires forall i | 0 <= i < |ps| :: WellFormed(ps[i])
  {
    if ps == [] then [] else Encode(ps[0]) + EncodeAll(ps[1..])
  }

  function CommandsOf(ps: seq<Packet>): (cs: seq<Command>)
    ensures |cs| == |ps| && forall i | 0 <= i < |ps| :: cs[i] == ps[i].command
  {
    if ps == [] then [] else [ps[0].command] + CommandsOf(ps[1..])
  }

  // ---------- Field by field ----------

  lemma NumberFront(v: nat, n: nat, rest: Text)
    requires v < Pow256(n)
    ensures FromBytes(Next(BigEndian(v, n) + rest, n)) == v && Rest(BigEndian(v, n) + rest, n) == rest
  {
    FromBigEndian(v, n);
    NextOfPrefix(BigEndian(v, n), rest);
  }

  lemma NameFront(name: Option<Text>, rest: Text)
    requires Sendable(name)
    ensures NameIn(EncodeName(name) + rest) == name && AfterName(EncodeName(name) + rest) == rest
  {
    var length: byte := if name.None? then 0 else |name.value|;
    var tail := (if name.None? then [] else name.value) + rest;
    assert EncodeName(name) + rest == [length] + tail;
    NextOfPrefix([length], tail);
    if name.Some? {
      NextOfPrefix(name.value, rest);
      CStringWhole(name.value);
    }
  }

  lemma OperandFront(o: Operand, rest: Text)
    requires o.Variable? ==> Sendable(o.name)
    ensures OperandIn(o.Variable?, EncodeOperand(o) + rest) == o
    ensures AfterOperand(o.Variable?, EncodeOperand(o) + rest) == rest
    ensures OperandAccepted(o) <==> (o.Variable? ==> NameAccepted(o.name))
  {
    match o
    case Variable(name) => NameFront(name, rest);
    case Immediate(v) =>
      SignedRoundTrip(v);
      NextOfPrefix(BigEndian(Unsigned64(v), 8), rest);
  }

  lemma FileNameFront(name: Text, rest: Text)
    requires SendableFile(name)
    ensures FileNameIn(EncodeFileName(name) + rest) == name && AfterFileName(EncodeFileName(name) + rest) == rest
  {
    Powers();
    assert EncodeFileName(name) + rest == BigEndian(|name|, 2) + (name + rest);
    NumberFront(|name|, 2, name + rest);
    NextOfPrefix(name, rest);
    CStringWhole(name);
  }

  /** An opcode 0x1XX: the operation in the low four bits, the four flags above them. */
  lemma FlagBits(nibble: nat, flags: nat)
    requires 1 <= nibble <= 5 && flags < 16
    ensures var opcode, low := 0x100 + nibble + 16 * flags, nibble + 16 * flags;
            && opcode % 256 == low && opcode / 256 == 1 && opcode % 16 == nibble
            && Bit(opcode, 256) && !Bit(opcode, 512)
            && !Bit(low, 8) && Bit(low, 16) == Bit(flags, 1) && Bit(low, 32) == Bit(flags, 2)
            && Bit(low, 64) == Bit(flags, 4) && Bit(opcode, 128) == Bit(flags, 8)
  {
    var low := nibble + 16 * flags;
    assert low / 8 == 2 * flags && low / 16 == flags;
    assert low / 32 == flags / 2 && low / 64 == flags / 4;
    assert (0x100 + low) / 128 == 2 + flags / 8;
  }

  function Flags(a: bool, b: bool, keep: bool, recursive: bool): (flags: nat)
    ensures flags < 16
    ensures Bit(flags, 1) == a && Bit(flags, 2) == b && Bit(flags, 4) == keep && Bit(flags, 8) == recursive
  {
    (if a then 1 else 0) + (if b then 2 else 0) + (if keep then 4 else 0) + (if recursive then 8 else 0)
  }

  /** The flags of a canonical opcode say what follows. */
  lemma OpcodeBits(op: Op, a: bool, b: bool, keep: bool, recursive: bool)
    ensures var opcode := 0x100 + OpNibble(op) + 16 * Flags(a, b, keep, recursive);
            var low := opcode % 256;
            && IsVariableOpcode(opcode) && opcode / 256 == 1 && OpOf(opcode % 16) == Some(op)
            && HasNameA(low) == a && HasNameB(low) == b && (HasNumberB(low) <==> !b)
            && Bit(low, 64) == keep && Bit(opcode, 128) == recursive
  {
    hide Bit, Flags;
    FlagBits(OpNibble(op), Flags(a, b, keep, recursive));
  }

  lemma TargetAccepted(name: Text)
    requires 1 <= |name| <= 31
    ensures ValidName(name) <==> !NumberText(name) && NameCharacters(name)
  {
  }

  lemma ArithmeticFront(r: Request, low: nat, rest: Text)
    requires r.Arithmetic? && SendableRequest(r)
    requires HasNameA(low) == r.a.Variable? && HasNameB(low) == r.b.Variable? && (HasNumberB(low) <==> !r.b.Variable?)
    requires Bit(low, 64) == r.target.Keep?
    ensures ArgumentsIn(low, EncodeRequest(r) + rest) ==
            Arguments(r.a, r.b, r.target, if NamesAccepted(r) then OK else EINVAL)
    ensures AfterArguments(low, EncodeRequest(r) + rest) == rest
  {
    hide Bit, OperandIn, AfterOperand, OperandAccepted, NameIn, AfterName, HasNameA, HasNameB, HasNumberB;
    var t2 := (if r.target.Keep? then EncodeName(r.target.name) else []) + rest;
    var t1 := EncodeOperand(r.b) + t2;
    assert EncodeRequest(r) + rest == EncodeOperand(r.a) + t1;
    OperandFront(r.a, t1);
    OperandFront(r.b, t2);
    if r.target.Keep? {
      NameFront(r.target.name, rest);
      if r.target.name.Some? {
        TargetAccepted(r.target.name.value);
      }
    } else {
      assert t2 == rest;
    }
  }

  /** The same for the opcodes of the requests that take names only. */
  lemma NameOpcodeBits()
    ensures HasNameA(0x8) && HasNameA(0x9) && HasNameA(0xF)
    ensures HasNameB(0x9) && !HasNameB(0x8) && !HasNameB(0xF)
    ensures !HasNumberB(0x8) && !HasNumberB(0xF)
    ensures !Bit(0x8, 64) && !Bit(0x9, 64) && !Bit(0xF, 64)
  {
  }

  lemma OneNameFront(key: Option<Text>, low: nat, rest: Text)
    requires Sendable(key) && low in {0x8, 0xF}
    ensures ArgumentsIn(low, EncodeName(key) + rest) ==
            Arguments(Variable(key), Immediate(0), Discard, if NameAccepted(key) then OK else EINVAL)
    ensures AfterArguments(low, EncodeName(key) + rest) == rest
  {
    hide Bit, OperandIn, AfterOperand, OperandAccepted, NameAccepted, HasNameA, HasNameB, HasNumberB;
    NameOpcodeBits();
    OperandFront(Variable(key), rest);
    NumberAccepted(0);
  }

  lemma TwoNamesFront(key: Option<Text>, name: Text, rest: Text)
    requires Sendable(key) && Sendable(Some(name))
    ensures ArgumentsIn(0x9, EncodeName(key) + EncodeName(Some(name)) + rest) ==
            Arguments(Variable(key), Variable(Some(name)), Discard, if NameAccepted(key) && ValidName(name) then OK else EINVAL)
    ensures AfterArguments(0x9, EncodeName(key) + EncodeName(Some(name)) + rest) == rest
  {
    hide Bit, OperandIn, AfterOperand, OperandAccepted, NameIn, AfterName, HasNameA, HasNameB, HasNumberB;
    NameOpcodeBits();
    var t1 := EncodeName(Some(name)) + rest;
    assert EncodeName(key) + EncodeName(Some(name)) + rest == EncodeName(key) + t1;
    OperandFront(Variable(key), t1);
    OperandFront(Variable(Some(name)), rest);
  }

  /** The function code of an arithmetic opcode. */
  lemma ArithmeticSelected(id: nat, r: Request, opcode: nat, args: Arguments)
    requires r.Arithmetic? && opcode / 256 == 1 && OpOf(opcode % 16) == Some(r.op) && Bit(opcode, 128) == r.recursive
    requires args.a == r.a && args.b == r.b && args.target == r.target
    ensures Select(id, opcode, args) == OnVariables(id, r, args.status)
  {
    hide Bit, OpOf;
  }

  lemma VariablesFront(p: Packet, rest: Text)
    requires WellFormed(p) && p.command.OnVariables?
    ensures IsVariableOpcode(Opcode(p.command))
    ensures CommandIn(p.command.id, Opcode(p.command), EncodeBody(p) + rest) == p.command
    ensures AfterArguments(Opcode(p.command) % 256, EncodeBody(p) + rest) == rest
  {
    hide ArgumentsIn, AfterArguments, SendableRequest, NamesAccepted, EncodeRequest;
    var r := p.command.request;
    if r.Arithmetic? {
      hide Bit, Flags, OpNibble, OpOf, Select, HasNameA, HasNameB, HasNumberB;
      OpcodeBits(r.op, r.a.Variable?, r.b.Variable?, r.target.Keep?, r.recursive);
      ArithmeticFront(r, Opcode(p.command) % 256, rest);
      ArithmeticSelected(p.command.id, r, Opcode(p.command), ArgumentsIn(Opcode(p.command) % 256, EncodeBody(p) + rest));
    } else {
      NamesFront(p, rest);
    }
  }

  lemma NamesFront(p: Packet, rest: Text)
    requires WellFormed(p) && p.command.OnVariables? && !p.command.request.Arithmetic?
    ensures IsVariableOpcode(Opcode(p.command))
    ensures CommandIn(p.command.id, Opcode(p.command), EncodeBody(p) + rest) == p.command
    ensures AfterArguments(Opcode(p.command) % 256, EncodeBody(p) + rest) == rest
  {
    hide ArgumentsIn, AfterArguments;
    match p.command.request
    case GetName(key) => OneNameFront(key, 0x8, rest);
    case SetName(key, name) => TwoNamesFront(key, name, rest);
    case Delete(key) => OneNameFront(key, 0xF, rest);
  }

  lemma SliceFront(offset: nat, size: nat, rest: Text)
    requires offset < Pow256(8) && size < Pow256(2)
    ensures var t := BigEndian(offset, 8) + (BigEndian(size, 2) + rest);
            OffsetIn(t) == offset && SizeIn(t) == size && AfterSlice(t) == rest
  {
    NumberFront(offset, 8, BigEndian(size, 2) + rest);
    NumberFront(size, 2, rest);
  }

  lemma WriteFront(p: Packet, rest: Text)
    requires WellFormed(p) && p.command.WriteFile?
    ensures CommandIn(p.command.id, 0x202, EncodeBody(p) + rest) == p.command
    ensures AfterFields(0x202, EncodeBody(p) + rest) == p.payload + rest
  {
    hide FileNameIn, AfterFileName, OffsetIn, SizeIn, AfterSlice, EncodeFileName;
    var c := p.command;
    var t2 := p.payload + rest;
    var t1 := BigEndian(c.offset, 8) + (BigEndian(c.size, 2) + t2);
    assert EncodeBody(p) + rest == EncodeFileName(c.name) + t1;
    FileNameFront(c.name, t1);
    SliceFront(c.offset, c.size, t2);
  }

  lemma ReadFront(p: Packet, rest: Text)
    requires WellFormed(p) && p.command.ReadFile?
    ensures CommandIn(p.command.id, 0x201, EncodeBody(p) + rest) == p.command
    ensures AfterFields(0x201, EncodeBody(p) + rest) == rest
  {
    hide FileNameIn, AfterFileName, OffsetIn, SizeIn, AfterSlice, EncodeFileName;
    var c := p.command;
    var t1 := BigEndian(c.offset, 8) + (BigEndian(c.size, 2) + rest);
    assert EncodeBody(p) + rest == EncodeFileName(c.name) + t1;
    FileNameFront(c.name, t1);
    SliceFront(c.offset, c.size, rest);
  }

  /** Every canonical request is read back, and a write's data are what the stream is left at. */
  lemma BodyFront(p: Packet, rest: Text)
    requires WellFormed(p)
    ensures CommandIn(p.command.id, Opcode(p.command), EncodeBody(p) + rest) == p.command
    ensures AfterFields(Opcode(p.command), EncodeBody(p) + rest) == p.payload + rest
  {
    hide ArgumentsIn, AfterArguments, FileNameIn, AfterFileName, EncodeRequest, EncodeFileName;
    match p.command
    case OnVariables(_, _, _) => VariablesFront(p, rest);
    case ReadFile(_, _, _, _) => ReadFront(p, rest);
    case WriteFile(_, _, _, _) => WriteFront(p, rest);
    case CreateFile(_, name) => FileNameFront(name, rest);
    case SizeOfFile(_, name) => FileNameFront(name, rest);
    case DumpTo(_, name) => FileNameFront(name, rest);
    case LoadFrom(_, name) => FileNameFront(name, rest);
    case ClearAll(_, magic) => NumberFront(magic, 4, rest);
    assert [] + rest == rest;
  }

  // ---------- Whole streams ----------

  /** Whether the server stays in step with the client over a request: a write is given up at the
      first chunk that cannot be written, because the file is missing or the chunk begins behind the
      largest file offset, so at most that chunk may be left. */
  predicate InStep(p: Packet, existing: set<Text>) {
    var c := p.command;
    c.WriteFile? && |p.payload| > BUFFER_SIZE ==>
      c.name in existing && c.offset + LastChunk(|p.payload|) - BUFFER_SIZE <= INT64_MAX
  }

  /** The data of a write, and nothing else, are taken in exactly when the request is in step;
      otherwise what is left of them is read as requests. */
  lemma DataFront(p: Packet, rest: Text, existing: set<Text>)
    requires WellFormed(p)
    ensures AfterData(p.command, p.payload + rest, existing) == rest <==> InStep(p, existing)
  {
    hide Seekable;
    var c := p.command;
    if c.WriteFile? && c.size > 0 {
      var found, last := c.name in existing, LastChunk(c.size);
      NextOfPrefix(p.payload, rest);
      SeekableAt(c.offset, 0);
      if c.size > BUFFER_SIZE {
        SeekableAt(c.offset, last - BUFFER_SIZE);
      }
      var takes := WriteTakes(found, c.offset, c.size);
      assert takes == c.size <==> InStep(p, existing);
      assert |Rest(p.payload + rest, takes)| == c.size - takes + |rest|;
    } else {
      assert p.payload + rest == rest;
    }
  }

  /** Every request in step, given the files there are when it comes to be read. */
  predicate AllInStep(ps: seq<Packet>, existing: set<Text>)
    decreases |ps|
  {
    ps == [] || (InStep(ps[0], existing) && AllInStep(ps[1..], ExistingAfter(ps[0].command, existing)))
  }

  /** An upload to a file that the connection creates itself is in step, however long it is. */
  lemma UploadInStep(id: nat, name: Text, data: Text, existing: set<Text>)
    requires name != [] && |data| < 0x1_0000
    ensures AllInStep([Packet(CreateFile(id, name), []), Packet(WriteFile(id, name, 0, |data|), data)], existing)
  {
    var create, write := Packet(CreateFile(id, name), []), Packet(WriteFile(id, name, 0, |data|), data);
    assert [create, write][1..] == [write];
    assert AllInStep([write], ExistingAfter(create.command, existing));
  }

  lemma HeaderFront(p: Packet, rest: Text)
    requires WellFormed(p)
    ensures var t := Encode(p) + rest;
            |t| >= 6 && OpcodeIn(t) == Opcode(p.command) && IdIn(t) == p.command.id && Rest(t, 6) == EncodeBody(p) + rest
  {
    hide EncodeBody;
    var t := Encode(p) + rest;
    var opcode, id := BigEndian(Opcode(p.command), 2), BigEndian(p.command.id, 4);
    Powers();
    FromBigEndian(Opcode(p.command), 2);
    FromBigEndian(p.command.id, 4);
    assert t == opcode + id + (EncodeBody(p) + rest);
    assert Next(t, 2) == opcode && Next(t, 6) == opcode + id;
    assert (opcode + id)[2..6] == id;
  }

  /** The request at the front of an encoded stream. */
  lemma FirstOfEncoded(p: Packet, rest: Text)
    requires WellFormed(p)
    ensures |Encode(p) + rest| >= 6
    ensures First(Encode(p) + rest) == p.command && Data(Encode(p) + rest) == p.payload + rest
  {
    hide CommandIn, AfterFields, Encode, Opcode, EncodeBody, OpcodeIn, IdIn, Rest;
    HeaderFront(p, rest);
    BodyFront(p, rest);
  }

  lemma CommandFront(p: Packet, rest: Text, existing: set<Text>)
    requires WellFormed(p) && InStep(p, existing)
    ensures CommandsIn(Encode(p) + rest, existing) == [p.command] + CommandsIn(rest, ExistingAfter(p.command, existing))
  {
    hide First, Data, AfterData, InStep, Encode, WellFormed;
    FirstOfEncoded(p, rest);
    DataFront(p, rest, existing);
  }

  /** Framing: any concatenation of encoded requests in step is read back as the same requests in the
      same order. ServeConnection reads what CommandsIn says however recv cuts the stream up. */
  lemma {:induction false} FramingRoundTrip(ps: seq<Packet>, existing: set<Text>)
    requires forall i | 0 <= i < |ps| :: WellFormed(ps[i])
    requires AllInStep(ps, existing)
    ensures CommandsIn(EncodeAll(ps), existing) == CommandsOf(ps)
    decreases |ps|
  {
    if ps != [] {
      hide CommandIn, AfterFields, AfterData, Encode, WellFormed, InStep, ExistingAfter;
      CommandFront(ps[0], EncodeAll(ps[1..]), existing);
      FramingRoundTrip(ps[1..], ExistingAfter(ps[0].command, existing));
    }
  }
}
