/** rpcconvert.cpp and the response fields of rpcio.cpp: big-endian integers and strings in a byte
    buffer. */
module Wire {
  import opened Types
  import CheckedMath

  const BUFFER_SIZE: nat := 4096

  function Pow256(k: nat): nat {
    if k == 0 then 1 else 256 * Pow256(k - 1)
  }

  /** The n low bytes of a number, the most significant first. */
  function BigEndian(v: nat, n: nat): (s: Text)
    ensures |s| == n
  {
    if n == 0 then [] else BigEndian(v / 256, n - 1) + [v % 256]
  }

  function FromBytes(s: Text): nat {
    if s == [] then 0 else FromBytes(s[..|s| - 1]) * 256 + s[|s| - 1]
  }

  // ---------- The two conversions undo each other ----------

  lemma {:induction false} FromBigEndian(v: nat, n: nat)
    requires v < Pow256(n)
    ensures FromBytes(BigEndian(v, n)) == v
  {
    if n > 0 {
      FromBigEndian(v / 256, n - 1);
      assert BigEndian(v, n)[..n - 1] == BigEndian(v / 256, n - 1);
    }
  }

  lemma {:induction false} FromBytesBound(s: Text)
    ensures FromBytes(s) < Pow256(|s|)
    ensures BigEndian(FromBytes(s), |s|) == s
  {
    if s != [] {
      FromBytesBound(s[..|s| - 1]);
      assert s[..|s| - 1] + [s[|s| - 1]] == s;
    }
  }

  /** Byte j of n is what a shift by 8 * (n - 1 - j) bits and a mask leave. */
  lemma {:induction false} BigEndianAt(v: nat, n: nat, j: nat)
    requires j < n
    ensures Pow256(n - 1 - j) > 0
    ensures BigEndian(v, n)[j] == (v / Pow256(n - 1 - j)) % 256
  {
    PowPositive(n - 1 - j);
    if j < n - 1 {
      BigEndianAt(v / 256, n - 1, j);
      DivTwice(v, Pow256(n - 2 - j));
    }
  }

  lemma {:induction false} PowPositive(k: nat)
    ensures Pow256(k) > 0
  {
    if k > 0 {
      PowPositive(k - 1);
    }
  }

  lemma DivTwice(v: nat, b: nat)
    requires b > 0
    ensures v / 256 / b == v / (256 * b)
  {
    var q := v / 256;
    var p := q / b;
    CheckedMath.NatQuotient(q, b);
    assert v == 256 * (b * p + q % b) + v % 256;
    QuotientIs(v, 256 * b, p, 256 * (q % b) + v % 256);
  }

  lemma QuotientIs(v: nat, d: nat, q: nat, r: nat)
    requires d > 0 && v == d * q + r && r < d
    ensures v / d == q
  {
    CheckedMath.ExceedsQuotient(v, d, q);
    CheckedMath.ExceedsQuotient(v, d, q + 1);
    assert q * d == d * q && (q + 1) * d == d * q + d;
  }

  lemma Powers()
    ensures Pow256(1) == 0x100 && Pow256(2) == 0x1_0000
    ensures Pow256(4) == 0x1_0000_0000 && Pow256(8) == 0x1_0000_0000_0000_0000
  {
  }

  // ---------- Two's complement ----------

  function Unsigned64(v: int64): nat {
    if v < 0 then v as int + 0x1_0000_0000_0000_0000 else v
  }

  function Signed64(u: nat): int64
    requires u < 0x1_0000_0000_0000_0000
  {
    if u > INT64_MAX then u - 0x1_0000_0000_0000_0000 else u
  }

  /** A signed result written to the wire reads back as itself. */
  lemma SignedRoundTrip(v: int64)
    ensures FromBytes(BigEndian(Unsigned64(v), 8)) == Unsigned64(v) < 0x1_0000_0000_0000_0000
    ensures Signed64(FromBytes(BigEndian(Unsigned64(v), 8))) == v
  {
    Powers();
    FromBigEndian(Unsigned64(v), 8);
  }

  // ---------- rpcconvert.cpp ----------

  /** A buffer with the bytes from start on replaced. */
  ghost function Patched(s: Text, start: nat, bytes: Text): Text
    requires start + |bytes| <= |s|
  {
    s[..start] + bytes + s[start + |bytes|..]
  }

  lemma PatchedIs(after: Text, before: Text, start: nat, bytes: Text)
    requires |after| == |before| && start + |bytes| <= |before|
    requires forall k | 0 <= k < |bytes| :: after[start + k] == bytes[k]
    requires forall k | 0 <= k < |before| && !(start <= k < start + |bytes|) :: after[k] == before[k]
    ensures after == Patched(before, start, bytes)
  {
    var patched := Patched(before, start, bytes);
    forall k | 0 <= k < |before|
      ensures after[k] == patched[k]
    {
      if start <= k < start + |bytes| {
        assert after[start + (k - start)] == bytes[k - start];
      }
    }
  }

  lemma PatchedEnd(s: Text, bytes: Text, last: byte)
    requires |bytes| < |s|
    ensures Patched(s, 0, bytes)[|bytes| := last] == Patched(s, 0, bytes + [last])
  {
  }

  predicate InRange(start: nat, end: nat) {
    start < end < BUFFER_SIZE
  }

  method Uint8ToWire(buffer: array<byte>, index: nat, value: byte)
    requires index < BUFFER_SIZE ==> index < buffer.Length
    modifies buffer
    ensures buffer[..] == if index < BUFFER_SIZE then Patched(old(buffer[..]), index, [value]) else old(buffer[..])
  {
    if index < BUFFER_SIZE {
      buffer[index] := value;
    }
  }

  method Uint16ToWire(buffer: array<byte>, start: nat, end: nat, value: nat)
    requires value < 0x1_0000
    requires InRange(start, end) ==> end == start + 1 && end < buffer.Length
    modifies buffer
    ensures buffer[..] == if InRange(start, end) then Patched(old(buffer[..]), start, BigEndian(value, 2)) else old(buffer[..])
  {
    if start < end && end < BUFFER_SIZE {
      buffer[start] := (value / 256) % 256;
      buffer[end] := value % 256;
      assert BigEndian(value, 2) == [(value / 256) % 256, value % 256] by {
        assert BigEndian(value / 256, 1) == [(value / 256) % 256];
      }
    }
  }

  method WireToUint16(buffer: array<byte>, start: nat, end: nat) returns (result: nat)
    requires InRange(start, end) ==> end == start + 1 && end < buffer.Length
    ensures result == if InRange(start, end) then FromBytes(buffer[start..end + 1]) else 0
    ensures result < 0x1_0000
  {
    if start < end && end < BUFFER_SIZE {
      result := buffer[start];
      result := (result * 256) % 0x1_0000;
      result := (result + buffer[end]) % 0x1_0000;
      var s := buffer[start..end + 1];
      assert s[..1] == [buffer[start]] && [buffer[start]][..0] == [];
      assert FromBytes(s[..1]) == buffer[start];
      return;
    }
    return 0;
  }

  /** uint32_to_wire (width 4) and uint64_to_wire (width 8); the shift is counted in bytes, and wraps
      below zero as an 8-bit bit count does. */
  method UintToWire(buffer: array<byte>, start: nat, end: nat, value: nat, width: nat)
    requires width in {4, 8}
    requires InRange(start, end) ==> end == start + width - 1 && end < buffer.Length
    modifies buffer
    ensures buffer[..] == if InRange(start, end) then Patched(old(buffer[..]), start, BigEndian(value, width)) else old(buffer[..])
  {
    if start < end && end < BUFFER_SIZE {
      hide Patched, Pow256, BigEndian;
      var shift := width - 1;
      var i := start;
      while i <= end
        invariant start <= i <= end + 1
        invariant i <= end ==> shift == width - 1 - (i - start)
        invariant forall k | start <= k < i :: buffer[k] == BigEndian(value, width)[k - start]
        invariant forall k | 0 <= k < buffer.Length && !(start <= k < i) :: buffer[k] == old(buffer[k])
      {
        BigEndianAt(value, width, i - start);
        var temp := (value / Pow256(shift)) % 256;
        buffer[i] := temp;
        shift := (shift + 31) % 32;
        i := i + 1;
      }
      PatchedIs(buffer[..], old(buffer[..]), start, BigEndian(value, width));
    }
  }

  /** wire_to_uint32 and wire_to_uint64: the running result never outgrows its width. */
  method WireToUint(buffer: array<byte>, start: nat, end: nat, width: nat) returns (result: nat)
    requires width in {4, 8}
    requires InRange(start, end) ==> end == start + width - 1 && end < buffer.Length
    ensures result == if InRange(start, end) then FromBytes(buffer[start..end + 1]) else 0
    ensures result < Pow256(width)
  {
    hide Wrap, Pow256, FromBytes;
    PowPositive(width);
    if start < end && end < BUFFER_SIZE {
      ghost var field := buffer[start..end + 1];
      result := 0;
      NoBytes(field);
      var i := start;
      while i < end
        invariant start <= i <= end
        invariant result == 256 * FromBytes(field[..i - start])
      {
        var temp := buffer[i];
        assert temp == field[i - start];
        TakeByte(field, i - start, width);
        result := result + temp;
        result := Wrap(256 * result, width);
        i := i + 1;
      }
      TakeByte(field, end - start, width);
      assert field[..end - start + 1] == field;
      result := Wrap(result + buffer[end], width);
      return;
    }
    return 0;
  }

  lemma NoBytes(s: Text)
    ensures FromBytes(s[..0]) == 0
  {
  }

  /** Taking in byte j of a field cannot wrap. */
  lemma TakeByte(s: Text, j: nat, width: nat)
    requires j < |s| == width && width in {4, 8}
    ensures FromBytes(s[..j + 1]) == 256 * FromBytes(s[..j]) + s[j]
    ensures Wrap(FromBytes(s[..j + 1]), width) == FromBytes(s[..j + 1]) < Pow256(width)
    ensures j + 1 < width ==> Wrap(256 * FromBytes(s[..j + 1]), width) == 256 * FromBytes(s[..j + 1])
  {
    hide Wrap, BigEndian;
    var f := FromBytes(s[..j + 1]);
    assert s[..j + 1][..j] == s[..j];
    FromBytesBound(s[..j + 1]);
    PowMono(j + 1, width);
    WrapSmall(f, width);
    if j + 1 < width {
      PowNext(j + 1, f);
      PowMono(j + 2, width);
      WrapSmall(256 * f, width);
    }
  }

  lemma PowNext(k: nat, x: nat)
    requires x < Pow256(k)
    ensures 256 * x < Pow256(k + 1)
  {
  }

  /** Unsigned arithmetic on 4 or 8 bytes wraps. */
  function Wrap(x: nat, width: nat): nat {
    if width == 4 then x % 0x1_0000_0000 else x % 0x1_0000_0000_0000_0000
  }

  lemma WrapSmall(x: nat, width: nat)
    requires width in {4, 8} && x < Pow256(width)
    ensures Wrap(x, width) == x
  {
    Powers();
  }

  lemma {:induction false} PowMono(a: nat, b: nat)
    requires a <= b
    ensures Pow256(a) <= Pow256(b)
    decreases b - a
  {
    if a < b {
      PowMono(a, b - 1);
      PowPositive(b - 1);
    }
  }

  /** string_to_wire, from the start of the buffer. */
  method StringToWire(buffer: array<byte>, start: nat, end: nat, value: array<byte>)
    requires start <= end < BUFFER_SIZE ==> end < buffer.Length && end - start < value.Length
    requires value != buffer
    modifies buffer
    ensures buffer[..] == if start <= end < BUFFER_SIZE
                          then Patched(old(buffer[..]), start, value[..end - start + 1]) else old(buffer[..])
  {
    if start <= end && end < BUFFER_SIZE {
      hide Patched;
      var i, j := start, 0;
      while i <= end
        invariant start <= i <= end + 1 && j == i - start
        invariant forall k | start <= k < i :: buffer[k] == value[k - start]
        invariant forall k | 0 <= k < buffer.Length && !(start <= k < i) :: buffer[k] == old(buffer[k])
      {
        buffer[i] := value[j];
        j := j + 1;
        i := i + 1;
      }
      PatchedIs(buffer[..], old(buffer[..]), start, value[..end - start + 1]);
    }
  }

  /** wire_to_string: copies, and terminates the copy with a zero at length - 1 if asked to. */
  method WireToString(buffer: array<byte>, start: nat, end: nat, result: array<byte>, length: nat, nul: bool)
    requires start <= end < BUFFER_SIZE ==>
               end < buffer.Length && end - start < result.Length && (nul ==> end - start + 1 == length - 1 < result.Length)
    requires result != buffer
    modifies result
    ensures result[..] == if start <= end < BUFFER_SIZE
                          then Patched(old(result[..]), 0, buffer[start..end + 1] + if nul then [0] else [])
                          else old(result[..])
  {
    if start <= end && end < BUFFER_SIZE {
      hide Patched;
      var i, j := start, 0;
      while i <= end
        invariant start <= i <= end + 1 && j == i - start
        invariant forall k | 0 <= k < j :: result[k] == buffer[start + k]
        invariant forall k | j <= k < result.Length :: result[k] == old(result[k])
      {
        result[j] := buffer[i];
        j := j + 1;
        i := i + 1;
      }
      ghost var copied := buffer[start..end + 1];
      PatchedIs(result[..], old(result[..]), 0, copied);
      if nul {
        ghost var before := result[..];
        result[length - 1] := 0;
        assert result[..] == before[|copied| := 0];
        PatchedEnd(old(result[..]), copied, 0);
      } else {
        assert copied + [] == copied;
      }
    }
  }

  // ---------- Responses (rpcio.cpp) ----------

  method SetHeader(buffer: array<byte>, identifier: nat, status: byte)
    requires buffer.Length == BUFFER_SIZE
    modifies buffer
    ensures buffer[..] == Patched(old(buffer[..]), 0, BigEndian(identifier, 4) + [status])
  {
    UintToWire(buffer, 0, 3, identifier, 4);
    Uint8ToWire(buffer, 4, status);
  }

  method SetResult(buffer: array<byte>, result: int64)
    requires buffer.Length == BUFFER_SIZE
    modifies buffer
    ensures buffer[..] == Patched(old(buffer[..]), 5, BigEndian(Unsigned64(result), 8))
  {
    UintToWire(buffer, 5, 12, Unsigned64(result), 8);
  }

  method SetNumBytes(buffer: array<byte>, num: nat)
    requires buffer.Length == BUFFER_SIZE && num < 0x1_0000
    modifies buffer
    ensures buffer[..] == Patched(old(buffer[..]), 5, BigEndian(num, 2))
  {
    Uint16ToWire(buffer, 5, 6, num);
  }

  /** What a client receives for an arithmetic request: 13 bytes with the result, or 5 with the
      error. The fields do not disturb one another. */
  function AnswerBytes(identifier: nat, status: byte, result: int64): Text {
    BigEndian(identifier, 4) + [status] + if status == OK then BigEndian(Unsigned64(result), 8) else []
  }

  method Answer(buffer: array<byte>, identifier: nat, status: byte, result: int64) returns (sent: Text)
    requires buffer.Length == BUFFER_SIZE
    modifies buffer
    ensures sent == AnswerBytes(identifier, status, result)
  {
    SetHeader(buffer, identifier, status);
    if status == OK {
      SetResult(buffer, result);
      sent := buffer[..13];
    } else {
      sent := buffer[..5];
    }
  }

  /** The client's view: identifier, status and signed result can all be read back. */
  lemma AnswerRoundTrip(identifier: nat, status: byte, result: int64)
    requires identifier < Pow256(4)
    ensures var sent := AnswerBytes(identifier, status, result);
            && |sent| == (if status == OK then 13 else 5)
            && FromBytes(sent[..4]) == identifier && sent[4] == status
            && (status == OK ==> FromBytes(sent[5..13]) < 0x1_0000_0000_0000_0000 && Signed64(FromBytes(sent[5..13])) == result)
  {
    var sent := AnswerBytes(identifier, status, result);
    FromBigEndian(identifier, 4);
    assert sent[..4] == BigEndian(identifier, 4);
    if status == OK {
      SignedRoundTrip(result);
      assert sent[5..13] == BigEndian(Unsigned64(result), 8);
    }
  }
}
