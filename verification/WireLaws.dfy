/** The protocol in bytes: what the server makes of each request, written out opcode by opcode. */
module WireLaws {
  import opened Types
  import opened CheckedMath
  import opened LogText
  import opened Requests
  import opened Wire
  import opened Receive
  import opened FileTransfer
  import opened Framing
  import opened Encoding
  import opened Session
  import opened RequestLaws
  import opened VariableLaws

  lemma TwoBytes(high: nat, low: nat)
    requires high < 256 && low < 256
    ensures BigEndian(256 * high + low, 2) == [high, low]
  {
    assert BigEndian(high, 1) == [high];
  }

  /** A packet whose opcode and body are these bytes. */
  lemma PacketOnWire(p: Packet, high: byte, low: byte, body: Text, rest: Text)
    requires WellFormed(p) && Opcode(p.command) == 256 * high + low && EncodeBody(p) == body
    ensures var t := [high, low] + BigEndian(p.command.id, 4) + body + rest;
            |t| >= 6 && First(t) == p.command && Data(t) == p.payload + rest
  {
    hide First, Data, BigEndian, WellFormed, Opcode, EncodeBody;
    TwoBytes(high, low);
    FirstOfEncoded(p, rest);
  }

  /** The bytes of an operand: a number in two's complement, or a length byte and that many characters. */
  ghost predicate OperandOnWire(o: Operand, bytes: Text) {
    match o
    case Immediate(v) => exists u: nat :: TwosComplement(v, u) && bytes == BigEndian(u, 8)
    case Variable(None) => bytes == [0]
    case Variable(Some(name)) => 1 <= |name| <= 31 && 0 !in name && bytes == [|name|] + name
  }

  ghost predicate TargetOnWire(target: Target, bytes: Text) {
    match target
    case Discard => bytes == []
    case Keep(None) => bytes == [0]
    case Keep(Some(name)) => 1 <= |name| <= 31 && 0 !in name && bytes == [|name|] + name
  }

  /** The second byte of an arithmetic opcode. */
  function LowByte(op: Op, a: bool, b: bool, keep: bool, recursive: bool): byte {
    (match op case Add => 0x01 case Sub => 0x02 case Mul => 0x03 case Div => 0x04 case Mod => 0x05)
    + (if a then 0x10 else 0) + (if b then 0x20 else 0) + (if keep then 0x40 else 0) + (if recursive then 0x80 else 0)
  }

  lemma AcceptedAreValid(r: Request)
    ensures NamesAccepted(r) == NamesValid(r)
  {
    hide ValidName;
  }

  lemma ArithmeticOnWire(id: nat, op: Op, a: Operand, b: Operand, target: Target, recursive: bool, ba: Text, bb: Text, bt: Text, rest: Text)
    requires id < 0x1_0000_0000 && OperandOnWire(a, ba) && OperandOnWire(b, bb) && TargetOnWire(target, bt)
    ensures var low := LowByte(op, a.Variable?, b.Variable?, target.Keep?, recursive);
            var t := [0x01, low] + BigEndian(id, 4) + (ba + (bb + bt)) + rest;
            var r := Arithmetic(op, a, b, target, recursive);
            && |t| >= 6 && Data(t) == rest
            && First(t) == OnVariables(id, r, if NamesValid(r) then 0 else 22)
  {
    hide First, Data, BigEndian, NamesAccepted, NamesValid, Flags, OperandOnWire, EncodeOperand, LowByte, OpNibble;
    Powers();
    AcceptedAreValid(Arithmetic(op, a, b, target, recursive));
    OperandEncoded(a, ba);
    OperandEncoded(b, bb);
    var r := Arithmetic(op, a, b, target, recursive);
    var p := Packet(OnVariables(id, r, if NamesAccepted(r) then OK else EINVAL), []);
    LowByteIs(op, a.Variable?, b.Variable?, target.Keep?, recursive);
    PacketOnWire(p, 0x01, LowByte(op, a.Variable?, b.Variable?, target.Keep?, recursive), ba + (bb + bt), rest);
    assert [] + rest == rest;
  }

  lemma LowByteIs(op: Op, a: bool, b: bool, keep: bool, recursive: bool)
    ensures 0x100 + LowByte(op, a, b, keep, recursive) == 0x100 + OpNibble(op) + 16 * Flags(a, b, keep, recursive)
  {
  }

  lemma OperandEncoded(o: Operand, bytes: Text)
    requires OperandOnWire(o, bytes)
    ensures (o.Variable? ==> Sendable(o.name)) && EncodeOperand(o) == bytes
    ensures o.Variable? ==> EncodeName(o.name) == bytes
  {
    hide BigEndian;
  }

  /** Get and delete. */
  lemma OneNameOnWire(id: nat, r: Request, bytes: Text, rest: Text)
    requires id < 0x1_0000_0000 && (r.GetName? || r.Delete?) && OperandOnWire(Variable(r.key), bytes)
    ensures var t := [0x01, if r.GetName? then 0x08 else 0x0F] + BigEndian(id, 4) + bytes + rest;
            && |t| >= 6 && Data(t) == rest
            && First(t) == OnVariables(id, r, if NamesValid(r) then 0 else 22)
  {
    hide First, Data, BigEndian, NamesAccepted, NamesValid, OperandOnWire, EncodeName;
    Powers();
    AcceptedAreValid(r);
    OperandEncoded(Variable(r.key), bytes);
    var p := Packet(OnVariables(id, r, if NamesAccepted(r) then OK else EINVAL), []);
    PacketOnWire(p, 0x01, if r.GetName? then 0x08 else 0x0F, bytes, rest);
    assert [] + rest == rest;
  }

  lemma SetOnWire(id: nat, key: Option<Text>, bytes: Text, name: Text, rest: Text)
    requires id < 0x1_0000_0000 && OperandOnWire(Variable(key), bytes) && 1 <= |name| <= 31 && 0 !in name
    ensures var t := [0x01, 0x09] + BigEndian(id, 4) + (bytes + ([|name|] + name)) + rest;
            && |t| >= 6 && Data(t) == rest
            && First(t) == OnVariables(id, SetName(key, name), if NamesValid(SetName(key, name)) then 0 else 22)
  {
    hide First, Data, BigEndian, NamesAccepted, NamesValid, OperandOnWire, EncodeName;
    Powers();
    AcceptedAreValid(SetName(key, name));
    OperandEncoded(Variable(key), bytes);
    OperandEncoded(Variable(Some(name)), [|name|] + name) by {
      NameOnWire(name);
    }
    var r := SetName(key, name);
    var p := Packet(OnVariables(id, r, if NamesAccepted(r) then OK else EINVAL), []);
    PacketOnWire(p, 0x01, 0x09, bytes + ([|name|] + name), rest);
    assert [] + rest == rest;
  }

  lemma NameOnWire(name: Text)
    requires 1 <= |name| <= 31 && 0 !in name
    ensures OperandOnWire(Variable(Some(name)), [|name|] + name)
  {
  }

  /** Reads: the name behind its 16-bit length, the offset and the size. */
  lemma ReadOnWire(id: nat, name: Text, offset: nat, size: nat, rest: Text)
    requires id < 0x1_0000_0000 && |name| <= 4096 && 0 !in name
    requires offset < 0x1_0000_0000_0000_0000 && size < 0x1_0000
    ensures var t := [0x02, 0x01] + BigEndian(id, 4) + (BigEndian(|name|, 2) + name + BigEndian(offset, 8) + BigEndian(size, 2)) + rest;
            |t| >= 6 && First(t) == ReadFile(id, name, offset, size) && Data(t) == rest
  {
    hide First, Data, BigEndian;
    Powers();
    var p := Packet(ReadFile(id, name, offset, size), []);
    var body := BigEndian(|name|, 2) + name + BigEndian(offset, 8) + BigEndian(size, 2);
    assert EncodeBody(p) == body;
    PacketOnWire(p, 0x02, 0x01, body, rest);
    assert [] + rest == rest;
  }

  /** Writes: the same, and the data behind it, which the stream is left at. */
  lemma WriteOnWire(id: nat, name: Text, offset: nat, data: Text, rest: Text)
    requires id < 0x1_0000_0000 && |name| <= 4096 && 0 !in name
    requires offset < 0x1_0000_0000_0000_0000 && |data| < 0x1_0000
    ensures var fields := BigEndian(|name|, 2) + name + BigEndian(offset, 8) + BigEndian(|data|, 2);
            var t := [0x02, 0x02] + BigEndian(id, 4) + (fields + data) + rest;
            |t| >= 6 && First(t) == WriteFile(id, name, offset, |data|) && Data(t) == data + rest
  {
    hide First, Data, BigEndian;
    Powers();
    var p := Packet(WriteFile(id, name, offset, |data|), data);
    var body := BigEndian(|name|, 2) + name + BigEndian(offset, 8) + BigEndian(|data|, 2) + data;
    assert EncodeBody(p) == body;
    PacketOnWire(p, 0x02, 0x02, body, rest);
  }

  /** The requests with a file name only. */
  lemma FileNameOnWire(id: nat, name: Text, c: Command, rest: Text)
    requires id < 0x1_0000_0000 && |name| <= 4096 && 0 !in name
    requires c in {CreateFile(id, name), SizeOfFile(id, name), DumpTo(id, name), LoadFrom(id, name)}
    ensures var opcode: Text := match c
                          case CreateFile(_, _) => [0x02, 0x10]
                          case SizeOfFile(_, _) => [0x02, 0x20]
                          case DumpTo(_, _) => [0x03, 0x01]
                          case LoadFrom(_, _) => [0x03, 0x02];
            var t := opcode + BigEndian(id, 4) + (BigEndian(|name|, 2) + name) + rest;
            |t| >= 6 && First(t) == c && Data(t) == rest
  {
    hide First, Data, BigEndian;
    Powers();
    var p := Packet(c, []);
    PacketOnWire(p, Opcode(c) / 256, Opcode(c) % 256, BigEndian(|name|, 2) + name, rest);
    assert [] + rest == rest;
  }

  lemma ClearOnWire(id: nat, magic: nat, rest: Text)
    requires id < 0x1_0000_0000 && magic < 0x1_0000_0000
    ensures var t := [0x03, 0x10] + BigEndian(id, 4) + BigEndian(magic, 4) + rest;
            |t| >= 6 && First(t) == ClearAll(id, magic) && Data(t) == rest
  {
    hide First, Data, BigEndian;
    Powers();
    PacketOnWire(Packet(ClearAll(id, magic), []), 0x03, 0x10, BigEndian(magic, 4), rest);
    assert [] + rest == rest;
  }

  /** A length byte of 0 or above 31 is a missing name, and nothing behind it belongs to it. */
  lemma NoNameOnWire(length: byte, rest: Text)
    requires length == 0 || length > 31
    ensures NameIn([length] + rest) == None && AfterName([length] + rest) == rest
  {
    NextOfPrefix([length], rest);
  }

  lemma FileNameBytes(name: Text, rest: Text)
    requires |name| < 0x1_0000
    ensures var t := BigEndian(|name|, 2) + name + rest;
            && AfterFileName(t) == rest
            && FileNameIn(t) == if |name| <= 4096 then CString(name) else []
  {
    hide BigEndian, CString, Next, Rest, FromBytes;
    Powers();
    NumberFront(|name|, 2, name + rest);
    NextOfPrefix(name, rest);
    assert BigEndian(|name|, 2) + name + rest == BigEndian(|name|, 2) + (name + rest);
  }

  /** A file name above 4096 bytes is taken off the stream and dropped. */
  lemma LongFileName(name: Text, rest: Text)
    requires 4096 < |name| < 0x1_0000
    ensures var t := BigEndian(|name|, 2) + name + rest; AfterFileName(t) == rest && FileNameIn(t) == []
  {
    FileNameBytes(name, rest);
  }

  /** A zero byte ends a file name; all its bytes are taken off the stream. */
  lemma ZeroInFileName(s: Text, more: Text, rest: Text)
    requires 0 !in s && |s + [0] + more| <= 4096
    ensures var t := BigEndian(|s + [0] + more|, 2) + (s + [0] + more) + rest; AfterFileName(t) == rest && FileNameIn(t) == s
  {
    hide BigEndian, CString, FileNameIn, AfterFileName;
    FileNameBytes(s + [0] + more, rest);
    EndsAtZero(s, more);
  }

  /** What the client did not send before it hung up is read as zeros. */
  lemma HungUp(t: Text, n: nat, i: nat)
    requires i < n
    ensures Next(t, n)[i] == if i < |t| then t[i] else 0
    ensures Rest(t, n) == if n <= |t| then t[n..] else []
  {
  }

  lemma OpcodeOf(high: byte, low: byte, rest: Text)
    ensures OpcodeIn([high, low] + rest) == 256 * high + low
  {
    Powers();
    TwoBytes(high, low);
    FromBigEndian(256 * high + low, 2);
    NextOfPrefix([high, low], rest);
  }

  lemma UnknownIsOther(id: nat, high: byte, low: byte, t: Text)
    requires high % 2 == 0 && high != 2
    ensures CommandIn(id, 256 * high + low, t) == Other(id, 256 * high + low) && AfterFields(256 * high + low, t) == t
  {
    hide FileNameIn, AfterFileName, ArgumentsIn, AfterArguments, Select;
    assert (256 * high + low) / 256 == high;
  }

  /** An opcode of no request is ignored: nothing is taken off the stream and nothing is answered. */
  lemma UnknownOpcode(w: World, high: byte, low: byte, id: nat, rest: Text, w': World, reply: Text, limit: nat)
    requires high % 2 == 0 && high != 2
    requires var t := [high, low] + (BigEndian(id, 4) + rest);
             |t| >= 6 && CommandStep(w, First(t), Data(t), w', reply, limit)
    ensures Data([high, low] + (BigEndian(id, 4) + rest)) == rest
    ensures w' == w && reply == []
  {
    hide BigEndian, CommandIn, AfterFields, OpcodeIn;
    var t := [high, low] + (BigEndian(id, 4) + rest);
    OpcodeOf(high, low, BigEndian(id, 4) + rest);
    UnknownIsOther(IdIn(t), high, low, Rest(t, 6));
    assert Rest(t, 6) == rest;
  }
}
