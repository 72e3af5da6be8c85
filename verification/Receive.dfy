/** The receiving half of rpcio.cpp over a connection that delivers its bytes in chunks of any
    positive size. */
module Receive {
  import opened Types
  import opened Wire

  /** One end of a socket: the bytes still to come from the client, and the bytes sent to it. */
  class Connection {
    var incoming: Text
    var outgoing: Text

    constructor (incoming: Text)
      ensures this.incoming == incoming && outgoing == []
    {
      this.incoming, this.outgoing := incoming, [];
    }

    /** recv: some of the bytes, at least one if there is any and any is wanted. */
    method Recv(buffer: array<byte>, at: nat, max: nat) returns (n: nat)
      requires at + max <= buffer.Length
      modifies this`incoming, buffer
      ensures n <= max && n <= |old(incoming)|
      ensures n == 0 <==> max == 0 || old(incoming) == []
      ensures incoming == old(incoming)[n..]
      ensures buffer[..] == Patched(old(buffer[..]), at, old(incoming)[..n])
    {
      if max == 0 || incoming == [] {
        return 0;
      }
      var most := if max <= |incoming| then max else |incoming|;
      n :| 1 <= n <= most;
      forall i | 0 <= i < n {
        buffer[at + i] := incoming[i];
      }
      assert buffer[..] == Patched(old(buffer[..]), at, incoming[..n]);
      incoming := incoming[n..];
    }

    method Send(bytes: Text)
      modifies this`outgoing
      ensures outgoing == old(outgoing) + bytes
    {
      outgoing := outgoing + bytes;
    }

    /** send with a negative length, which is a huge unsigned one: any bytes may follow. */
    method SendNegative()
      modifies this`outgoing
      ensures old(outgoing) <= outgoing
    {
      var bytes: Text := *;
      outgoing := outgoing + bytes;
    }
  }

  // ---------- What a receiving loop takes off the stream ----------

  function Taken(t: Text, n: nat): nat {
    if n <= |t| then n else |t|
  }

  function Zeros(n: nat): (s: Text)
    ensures |s| == n
  {
    seq(n, _ => 0)
  }

  /** The next n bytes; what the client did not send before hanging up stays zero. */
  function Next(t: Text, n: nat): (s: Text)
    ensures |s| == n
  {
    t[..Taken(t, n)] + Zeros(n - Taken(t, n))
  }

  function Rest(t: Text, n: nat): (rest: Text)
    ensures |rest| <= |t|
  {
    t[Taken(t, n)..]
  }

  lemma NextOfPrefix(a: Text, b: Text)
    ensures Next(a + b, |a|) == a && Rest(a + b, |a|) == b
  {
  }

  lemma PatchedOn(s: Text, t: Text, i: nat, n: nat)
    requires i + n <= |t| && i + n <= |s|
    ensures |Patched(s, 0, t[..i])| == |s|
    ensures Patched(Patched(s, 0, t[..i]), i, t[i..][..n]) == Patched(s, 0, t[..i + n])
  {
  }

  lemma PatchedNone(s: Text, t: Text)
    ensures Patched(s, 0, t[..0]) == s
  {
  }

  /** The do/while loop of recv_loop, which the other receivers repeat. However the stream is cut,
      the loop stops after num bytes or at the end of the stream. `last` is the count of the last
      recv. */
  method RecvLoop(conn: Connection, buffer: array<byte>, num: nat) returns (total: nat, last: nat)
    requires num <= buffer.Length
    modifies conn`incoming, buffer
    ensures total == Taken(old(conn.incoming), num)
    ensures conn.incoming == Rest(old(conn.incoming), num)
    ensures buffer[..] == Patched(old(buffer[..]), 0, old(conn.incoming)[..total])
    ensures last > 0 <==> num > 0 && total == num
  {
    hide Patched;
    total := 0;
    var remaining := num;
    ghost var all, start := conn.incoming, buffer[..];
    PatchedNone(start, all);
    while true
      invariant total + remaining == num && total <= |all|
      invariant total > 0 ==> remaining > 0
      invariant conn.incoming == all[total..]
      invariant buffer[..] == Patched(start, 0, all[..total])
      decreases remaining, if total == 0 then 1 else 0
    {
      last := conn.Recv(buffer, total, remaining);
      PatchedOn(start, all, total, last);
      assert all[total..][last..] == all[total + last..];
      total := total + last;
      remaining := remaining - last;
      if !(remaining > 0 && last > 0) {
        break;
      }
    }
  }

  /** A calloc'ed buffer, filled. */
  method RecvBytes(conn: Connection, num: nat) returns (buffer: array<byte>, last: nat)
    modifies conn`incoming
    ensures fresh(buffer) && buffer.Length == num
    ensures buffer[..] == Next(old(conn.incoming), num)
    ensures conn.incoming == Rest(old(conn.incoming), num)
    ensures last > 0 <==> num > 0 && num <= |old(conn.incoming)|
  {
    buffer := new byte[num](_ => 0);
    assert buffer[..] == Zeros(num);
    var total;
    total, last := RecvLoop(conn, buffer, num);
  }

  method RecvUint8(conn: Connection) returns (v: byte)
    modifies conn`incoming
    ensures v == Next(old(conn.incoming), 1)[0]
    ensures conn.incoming == Rest(old(conn.incoming), 1)
  {
    var buffer, _ := RecvBytes(conn, 1);
    v := buffer[0];
  }

  method RecvUint16(conn: Connection) returns (v: nat)
    modifies conn`incoming
    ensures v == FromBytes(Next(old(conn.incoming), 2)) < 0x1_0000
    ensures conn.incoming == Rest(old(conn.incoming), 2)
  {
    var buffer, _ := RecvBytes(conn, 2);
    v := WireToUint16(buffer, 0, 1);
    assert buffer[0..2] == buffer[..];
  }

  method RecvUint32(conn: Connection) returns (v: nat)
    modifies conn`incoming
    ensures v == FromBytes(Next(old(conn.incoming), 4)) < Pow256(4)
    ensures conn.incoming == Rest(old(conn.incoming), 4)
  {
    var buffer, _ := RecvBytes(conn, 4);
    v := WireToUint(buffer, 0, 3, 4);
    assert buffer[0..4] == buffer[..];
  }

  method RecvUint64(conn: Connection) returns (v: nat)
    modifies conn`incoming
    ensures v == FromBytes(Next(old(conn.incoming), 8)) < Pow256(8)
    ensures conn.incoming == Rest(old(conn.incoming), 8)
  {
    var buffer, _ := RecvBytes(conn, 8);
    v := WireToUint(buffer, 0, 7, 8);
    assert buffer[0..8] == buffer[..];
  }

  /** recv_string copies what it received into result and, if asked, ends it with a zero behind the
      string. A string of length 0 or above the buffer size is received and dropped. */
  method RecvString(conn: Connection, result: array<byte>, length: nat, nul: bool) returns (last: nat)
    requires length < 0x1_0000 && (if nul then length < result.Length else length <= result.Length)
    modifies conn`incoming, result
    ensures conn.incoming == Rest(old(conn.incoming), length)
    ensures last > 0 <==> length > 0 && length <= |old(conn.incoming)|
    ensures result[..] == if 1 <= length <= BUFFER_SIZE
                          then Patched(old(result[..]), 0, Next(old(conn.incoming), length) + if nul then [0] else [])
                          else old(result[..])
  {
    hide Patched, Next, Rest;
    var buffer;
    buffer, last := RecvBytes(conn, length);
    // length - 1 is a 16-bit number: 65535 for a length of 0
    var end := (length + 0xffff) % 0x1_0000;
    WireToString(buffer, 0, end, result, length + 1, nul);
    if length > 0 {
      assert end == length - 1;
      assert buffer[0..end + 1] == buffer[..];
    }
  }
}
