/** rpcfile.cpp and the read and write requests of server_run: files sent and received in chunks of
    at most 4096 bytes. Files are byte sequences; but for what lseek refuses, a system call on an
    existing file succeeds in full. */
module FileTransfer {
  import opened Types
  import opened Wire
  import opened Receive

  /** The part of a file up to a position; a gap behind its end is filled with zeros. */
  function Front(file: Text, to: nat): (front: Text)
    ensures |front| == to
  {
    if to <= |file| then file[..to] else file + Zeros(to - |file|)
  }

  /** The part of a file from a position on, if it is that long. */
  function Tail(file: Text, from: nat): Text {
    if from < |file| then file[from..] else []
  }

  /** The file with bytes written from an offset on; writing nothing changes nothing. */
  function Splice(file: Text, offset: nat, bytes: Text): Text {
    if bytes == [] then file else Front(file, offset) + bytes + Tail(file, offset + |bytes|)
  }

  /** Two adjacent writes are one. */
  lemma SpliceTwice(file: Text, offset: nat, a: Text, b: Text)
    ensures Splice(Splice(file, offset, a), offset + |a|, b) == Splice(file, offset, a + b)
  {
    if a == [] {
      assert a + b == b;
    } else if b == [] {
      assert a + b == a;
    } else {
      hide Front, Tail;
      var front := Front(file, offset) + a;
      CutBehind(front, Tail(file, offset + |a|), |b|);
      TailOfTail(file, offset + |a|, |b|);
      assert front + b == Front(file, offset) + (a + b);
    }
  }

  lemma CutBehind(front: Text, rest: Text, n: nat)
    ensures Front(front + rest, |front|) == front && Tail(front + rest, |front| + n) == Tail(rest, n)
  {
  }

  lemma TailOfTail(file: Text, from: nat, n: nat)
    ensures Tail(Tail(file, from), n) == Tail(file, from + n)
  {
  }

  function Least(a: nat, b: nat): nat {
    if a <= b then a else b
  }

  /** The result of reading n bytes at an offset: a count, or an error number negated. */
  function ReadCount(content: map<Text, Text>, name: Text, offset: nat, n: nat): (count: int)
    ensures count >= 0 ==> name in content && offset + count <= |content[name]| && count <= n
    ensures count < 0 ==> count == -(ENOENT as int) || count == -(EINVAL as int)
  {
    if name !in content then -(ENOENT as int)
    else if offset > |content[name]| then -(EINVAL as int)
    else Least(n, |content[name]| - offset)
  }

  class Files {
    var content: map<Text, Text>

    /** filesize: the error number, negated, for a file that is not there. */
    method FileSize(name: Text) returns (size: int)
      ensures size == if name in content then |content[name]| else -(ENOENT as int)
    {
      return if name in content then |content[name]| else -(ENOENT as int);
    }

    /** read(filename, offset, bufsize, buffer). */
    method ReadAt(name: Text, offset: nat, n: nat, data: array<byte>) returns (count: int)
      requires n <= data.Length
      modifies data
      ensures count == ReadCount(content, name, offset, n)
      ensures count >= 0 ==> data[..count] == content[name][offset..offset + count]
    {
      if name !in content {
        return -(ENOENT as int);
      }
      var file := content[name];
      if offset > |file| {
        return -(EINVAL as int);
      }
      count := Least(n, |file| - offset);
      forall i | 0 <= i < count {
        data[i] := file[offset + i];
      }
    }

    /** write(filename, offset, bufsize, buffer). An offset that is negative as an off_t makes lseek
        fail. */
    method WriteAt(name: Text, offset: nat, n: nat, data: array<byte>) returns (count: int)
      requires n <= data.Length
      modifies this
      ensures name !in old(content) ==> count == -(ENOENT as int) && content == old(content)
      ensures name in old(content) && offset > INT64_MAX ==> count == -(EINVAL as int) && content == old(content)
      ensures name in old(content) && offset <= INT64_MAX ==>
                count == n && content == Written(old(content), name, offset, data[..n])
    {
      if name !in content {
        return -(ENOENT as int);
      }
      if offset > INT64_MAX {
        return -(EINVAL as int);
      }
      content := content[name := Splice(content[name], offset, data[..n])];
      return n;
    }

    /** create: with O_EXCL an existing file is an error, and no file has the empty name. */
    method Create(name: Text) returns (status: byte)
      modifies this
      ensures status == CreateStatus(old(content), name)
      ensures content == if status == OK then old(content)[name := []] else old(content)
    {
      if name == [] {
        return ENOENT;
      }
      if name in content {
        return EEXIST;
      }
      content := content[name := []];
      return OK;
    }

    /** Opening with O_CREAT, without O_TRUNC. */
    method OpenToWrite(name: Text) returns (ok: bool)
      modifies this
      ensures ok == (name != [])
      ensures content == if name == [] || name in old(content) then old(content) else old(content)[name := []]
    {
      if name == [] {
        return false;
      }
      if name !in content {
        content := content[name := []];
      }
      return true;
    }
  }

  function CreateStatus(content: map<Text, Text>, name: Text): byte {
    if name == [] then ENOENT else if name in content then EEXIST else OK
  }

  ghost function Written(content: map<Text, Text>, name: Text, offset: nat, bytes: Text): (after: map<Text, Text>)
    requires name in content
    ensures after.Keys == content.Keys
  {
    content[name := Splice(content[name], offset, bytes)]
  }

  // ---------- Read requests ----------

  function HeaderBytes(identifier: nat, status: byte): Text {
    BigEndian(identifier, 4) + [status]
  }

  /** The status of a read request: a missing file is found out by the first read, a size above the
      file's by the size check, an offset behind the end by the read again. */
  function ReadStatus(content: map<Text, Text>, name: Text, offset: nat, size: nat): byte {
    if name !in content then ENOENT
    else if size > |content[name]| || offset > |content[name]| then EINVAL
    else OK
  }

  /** All bytes of the answer to a read request. */
  function ReadAnswer(content: map<Text, Text>, identifier: nat, name: Text, offset: nat, size: nat): Text
    requires size < 0x1_0000
  {
    var status := ReadStatus(content, name, offset, size);
    if status != OK then HeaderBytes(identifier, status)
    else
      var file := content[name];
      HeaderBytes(identifier, OK) + BigEndian(size, 2) + file[offset..Least(offset + size, |file|)]
  }

  /** Where the last chunk of a transfer begins. */
  function LastChunk(size: nat): (last: nat)
    ensures last % BUFFER_SIZE == 0 && (size > 0 ==> last < size <= last + BUFFER_SIZE)
  {
    if size == 0 then 0 else (size - 1) / BUFFER_SIZE * BUFFER_SIZE
  }

  // ---------- The rounds of a read of more than one chunk ----------

  /** No chunk of the request but the first begins behind the end of the file. */
  predicate ReadSupported(content: map<Text, Text>, name: Text, offset: nat, size: nat) {
    size <= BUFFER_SIZE || ReadStatus(content, name, offset, size) != OK || offset + LastChunk(size) <= |content[name]|
  }

  /** Some chunk but the last begins right at the end of the file. */
  predicate Stuck(content: map<Text, Text>, name: Text, offset: nat, size: nat) {
    && !ReadSupported(content, name, offset, size)
    && (|content[name]| - offset) % BUFFER_SIZE == 0
  }

  datatype Download = Download(id: nat, name: Text, start: nat, size: nat)

  /** The locals of the loop - `count` has 8 bits -, the bytes sent, and whether send has been given a
      negative length. What such a send makes of the memory is not said. */
  datatype ReadLoop = ReadLoop(count: nat, remaining: nat, offset: nat, status: byte, sent: Text, negative: bool)

  /** What a round sends: the first one counted has the header in front, and an error in place of data. */
  function Piece(d: Download, count: nat, status: byte, data: Text): Text {
    if count != 1 then data
    else if status != OK then HeaderBytes(d.id, status)
    else HeaderBytes(d.id, OK) + BigEndian(d.size, 2) + data
  }

  /** One round of the loop. A chunk that reads nothing, or fails, is tried again unless it is the last. */
  function Round(content: map<Text, Text>, d: Download, l: ReadLoop): ReadLoop {
    var full := l.remaining > BUFFER_SIZE;
    var bytesRead := ReadCount(content, d.name, l.offset, if full then BUFFER_SIZE else l.remaining);
    var status: byte := if bytesRead < 0 then -bytesRead else l.status;
    var data := if bytesRead < 0 then [] else content[d.name][l.offset..l.offset + bytesRead];
    var failed := l.count == 1 && status != OK;
    ReadLoop(
      (l.count + 1) % 256,
      if !full || failed then 0 else if bytesRead > 0 then l.remaining - BUFFER_SIZE else l.remaining,
      if full && bytesRead > 0 then l.offset + BUFFER_SIZE else l.offset,
      status,
      l.sent + Piece(d, l.count, status, data),
      l.negative || (l.count != 1 && bytesRead < 0))
  }

  function Rounds(content: map<Text, Text>, d: Download, k: nat): ReadLoop {
    if k == 0 then ReadLoop(1, d.size, d.start, OK, [], false)
    else
      var l := Rounds(content, d, k - 1);
      if l.remaining == 0 then l else Round(content, d, l)
  }

  /** The loop is entered: there is more than one chunk, and the file is missing or not too short. */
  predicate Entered(content: map<Text, Text>, d: Download) {
    BUFFER_SIZE < d.size < 0x1_0000 && (d.name in content ==> d.size <= |content[d.name]|)
  }

  /** A full chunk that begins before the end of the file. */
  lemma FullRound(content: map<Text, Text>, d: Download, l: ReadLoop)
    requires d.name in content && l.offset < |content[d.name]| && l.remaining > BUFFER_SIZE && l.count < 255 && l.status == OK
    ensures var end := Least(l.offset + BUFFER_SIZE, |content[d.name]|);
            Round(content, d, l) == ReadLoop(l.count + 1, l.remaining - BUFFER_SIZE, l.offset + BUFFER_SIZE, OK,
                                             l.sent + Piece(d, l.count, OK, content[d.name][l.offset..end]), l.negative)
  {
    hide Piece;
  }

  /** A full chunk that begins behind the end of the file, and is not the first one counted. */
  lemma FailingRound(content: map<Text, Text>, d: Download, l: ReadLoop)
    requires d.name in content && l.offset > |content[d.name]| && l.remaining > BUFFER_SIZE && l.count < 256 && l.count != 1
    ensures Round(content, d, l) == l.(count := if l.count == 255 then 0 else l.count + 1, status := EINVAL, negative := true)
  {
  }

  /** The last chunk, when it does not begin behind the end of the file. */
  lemma ClosingRound(content: map<Text, Text>, d: Download, l: ReadLoop)
    requires d.name in content && l.offset <= |content[d.name]| && l.remaining <= BUFFER_SIZE && l.status == OK
    ensures var end, l' := Least(l.offset + l.remaining, |content[d.name]|), Round(content, d, l);
            && l'.remaining == 0 && l'.negative == l.negative
            && l'.sent == l.sent + Piece(d, l.count, OK, content[d.name][l.offset..end])
  {
    hide Piece;
  }

  /** What has been sent after some chunks, and after one more. */
  function SentUpto(d: Download, file: Text, end: nat): Text
    requires d.start <= end <= |file|
  {
    HeaderBytes(d.id, OK) + BigEndian(d.size, 2) + file[d.start..end]
  }

  lemma SentMore(d: Download, file: Text, k: nat, middle: nat, end: nat)
    requires d.start <= middle <= end <= |file|
    ensures k == 0 && middle == d.start ==> [] + Piece(d, 1 + k, OK, file[middle..end]) == SentUpto(d, file, end)
    ensures k > 0 ==> SentUpto(d, file, middle) + Piece(d, 1 + k, OK, file[middle..end]) == SentUpto(d, file, end)
  {
    hide HeaderBytes, BigEndian;
    assert file[d.start..middle] + file[middle..end] == file[d.start..end];
  }

  /** Round 0 to the first that reads nothing or fails, and to the last: full chunks. */
  lemma {:induction false} FullRounds(content: map<Text, Text>, d: Download, k: nat)
    requires Entered(content, d) && ReadStatus(content, d.name, d.start, d.size) == OK
    requires BUFFER_SIZE * k < d.size && (k > 0 ==> d.start + BUFFER_SIZE * (k - 1) < |content[d.name]|)
    ensures var file, offset := content[d.name], d.start + BUFFER_SIZE * k;
            var sent := if k == 0 then [] else SentUpto(d, file, Least(offset, |file|));
            Rounds(content, d, k) == ReadLoop(1 + k, d.size - BUFFER_SIZE * k, offset, OK, sent, false)
  {
    hide SentUpto, Piece, Round;
    if k > 0 {
      FullRounds(content, d, k - 1);
      FullRound(content, d, Rounds(content, d, k - 1));
      var file, offset := content[d.name], d.start + BUFFER_SIZE * (k - 1);
      SentMore(d, file, k - 1, offset, Least(offset + BUFFER_SIZE, |file|));
    }
  }

  lemma {:induction false} EndedStays(content: map<Text, Text>, d: Download, k: nat, j: nat)
    requires k <= j && Rounds(content, d, k).remaining == 0
    ensures Rounds(content, d, j) == Rounds(content, d, k)
    decreases j
  {
    if k < j {
      EndedStays(content, d, k, j - 1);
    }
  }

  /** The round of the last chunk, when it does not begin behind the end of the file. */
  lemma LastRound(content: map<Text, Text>, d: Download, k: nat)
    requires Entered(content, d) && ReadStatus(content, d.name, d.start, d.size) == OK
    requires BUFFER_SIZE * k == LastChunk(d.size) && d.start + BUFFER_SIZE * k <= |content[d.name]|
    ensures var l := Rounds(content, d, k + 1);
            l.remaining == 0 && !l.negative && l.sent == ReadAnswer(content, d.id, d.name, d.start, d.size)
  {
    hide HeaderBytes, BigEndian, LastChunk, Piece, Round;
    FullRounds(content, d, k);
    ClosingRound(content, d, Rounds(content, d, k));
    var file, offset := content[d.name], d.start + BUFFER_SIZE * k;
    SentMore(d, file, k, offset, Least(d.start + d.size, |file|));
  }

  /** A failed first read is answered at once. */
  lemma OnlyRound(content: map<Text, Text>, d: Download)
    requires Entered(content, d) && ReadStatus(content, d.name, d.start, d.size) != OK
    ensures var l := Rounds(content, d, 1);
            l.remaining == 0 && !l.negative && l.sent == ReadAnswer(content, d.id, d.name, d.start, d.size)
  {
    hide HeaderBytes, BigEndian;
    assert Rounds(content, d, 0).remaining == d.size;
  }

  /** First course: the rounds end, no send is given a negative length, and the answer has been sent. */
  lemma SupportedRead(content: map<Text, Text>, d: Download) returns (k: nat)
    requires Entered(content, d) && ReadSupported(content, d.name, d.start, d.size)
    ensures k <= 257
    ensures var l := Rounds(content, d, k);
            l.remaining == 0 && !l.negative && l.sent == ReadAnswer(content, d.id, d.name, d.start, d.size)
  {
    hide Rounds, ReadAnswer;
    if ReadStatus(content, d.name, d.start, d.size) == OK {
      k := LastChunk(d.size) / BUFFER_SIZE;
      LastRound(content, d, k);
      k := k + 1;
    } else {
      OnlyRound(content, d);
      k := 1;
    }
  }

  /** Second course: from the round of a full chunk at the end of the file on, nothing changes but the
      counter and what is sent. */
  lemma {:induction false} StuckRounds(content: map<Text, Text>, d: Download, q: nat, k: nat)
    requires Entered(content, d) && Stuck(content, d.name, d.start, d.size)
    requires |content[d.name]| == d.start + BUFFER_SIZE * q && k >= q
    ensures var l := Rounds(content, d, k);
            && l.remaining == d.size - BUFFER_SIZE * q > BUFFER_SIZE
            && l.offset == |content[d.name]| && l.status == OK && !l.negative
    decreases k
  {
    hide HeaderBytes, BigEndian;
    assert BUFFER_SIZE * q < LastChunk(d.size);
    if k == q {
      FullRounds(content, d, k);
    } else {
      StuckRounds(content, d, q, k - 1);
    }
  }

  /** Third course: behind a chunk that the end of the file cuts short, a chunk fails in every round.
      If it is the last one, that is the end; otherwise the loop ends when the counter is back at 1. */
  lemma {:induction false} FailingRounds(content: map<Text, Text>, d: Download, q: nat, k: nat)
    requires Entered(content, d) && !ReadSupported(content, d.name, d.start, d.size)
    requires q > 0 && d.start + BUFFER_SIZE * (q - 1) < |content[d.name]| < d.start + BUFFER_SIZE * q
    requires BUFFER_SIZE * q < LastChunk(d.size) && q < k <= 256
    ensures var l := Rounds(content, d, k);
            && l.count == (if k < 255 then 1 + k else k - 255) && l.remaining == d.size - BUFFER_SIZE * q > BUFFER_SIZE
            && l.offset == d.start + BUFFER_SIZE * q && l.status == EINVAL && l.negative
    decreases k
  {
    hide HeaderBytes, BigEndian, Round, LastChunk;
    if k == q + 1 {
      FullRounds(content, d, q);
    } else {
      FailingRounds(content, d, q, k - 1);
    }
    FailingRound(content, d, Rounds(content, d, k - 1));
  }

  /** In the third course the loop ends, and a negative length has been given to send. */
  lemma CutShortRead(content: map<Text, Text>, d: Download) returns (k: nat)
    requires Entered(content, d)
    requires !ReadSupported(content, d.name, d.start, d.size) && !Stuck(content, d.name, d.start, d.size)
    ensures k <= 257 && Rounds(content, d, k).remaining == 0 && Rounds(content, d, k).negative
  {
    hide HeaderBytes, BigEndian;
    var q := (|content[d.name]| - d.start) / BUFFER_SIZE + 1;
    assert d.start + BUFFER_SIZE * (q - 1) < |content[d.name]| < d.start + BUFFER_SIZE * q;
    if BUFFER_SIZE * q == LastChunk(d.size) {
      FullRounds(content, d, q);
      k := q + 1;
    } else {
      FailingRounds(content, d, q, 256);
      k := 257;
    }
  }

  lemma StuckNeverEnds(content: map<Text, Text>, d: Download, k: nat)
    requires Entered(content, d) && Stuck(content, d.name, d.start, d.size)
    ensures Rounds(content, d, k).remaining > 0
  {
    hide Rounds;
    var q := (|content[d.name]| - d.start) / BUFFER_SIZE;
    var j := if k > q then k else q;
    StuckRounds(content, d, q, j);
    if Rounds(content, d, k).remaining == 0 {
      EndedStays(content, d, k, j);
    }
  }

  /** The loop never ends exactly in the second course. */
  lemma ReadEndsExactly(content: map<Text, Text>, d: Download)
    requires Entered(content, d)
    ensures Stuck(content, d.name, d.start, d.size) <==> forall k: nat :: Rounds(content, d, k).remaining > 0
    ensures !Stuck(content, d.name, d.start, d.size) ==> Rounds(content, d, 257).remaining == 0
  {
    hide Rounds, Stuck, ReadSupported;
    if Stuck(content, d.name, d.start, d.size) {
      forall k: nat
        ensures Rounds(content, d, k).remaining > 0
      {
        StuckNeverEnds(content, d, k);
      }
    } else {
      var k;
      if ReadSupported(content, d.name, d.start, d.size) {
        k := SupportedRead(content, d);
      } else {
        k := CutShortRead(content, d);
      }
      EndedStays(content, d, k, 257);
    }
  }

  /** The loop ends without giving send a negative length exactly in the first course. */
  lemma ReadSupportedExact(content: map<Text, Text>, d: Download)
    requires Entered(content, d)
    ensures ReadSupported(content, d.name, d.start, d.size) <==>
            exists k: nat :: Rounds(content, d, k).remaining == 0 && !Rounds(content, d, k).negative
  {
    hide Rounds, Stuck, ReadSupported;
    if ReadSupported(content, d.name, d.start, d.size) {
      var k := SupportedRead(content, d);
    } else {
      forall k: nat
        ensures Rounds(content, d, k).remaining > 0 || Rounds(content, d, k).negative
      {
        if Stuck(content, d.name, d.start, d.size) {
          StuckNeverEnds(content, d, k);
        } else if Rounds(content, d, k).remaining == 0 {
          var j := CutShortRead(content, d);
          EndedStays(content, d, k, 257 + k);
          EndedStays(content, d, j, 257 + k);
        }
      }
    }
  }

  /** A read that never ends: 8193 bytes from offset 8192 of a file of 12288. */
  lemma NeverEndingRead(content: map<Text, Text>, id: nat, name: Text, k: nat)
    requires name in content && |content[name]| == 12288
    ensures ReadStatus(content, name, 8192, 8193) == OK
    ensures Rounds(content, Download(id, name, 8192, 8193), k).remaining > 0
  {
    StuckNeverEnds(content, Download(id, name, 8192, 8193), k);
  }

  method SendData(conn: Connection, buffer: array<byte>, data: array<byte>, count: nat)
    requires buffer.Length == BUFFER_SIZE && data != buffer && count <= BUFFER_SIZE && count <= data.Length
    modifies conn`outgoing, buffer
    ensures conn.outgoing == old(conn.outgoing) + data[..count]
  {
    // length - 1 is a 16-bit number: 65535 for a length of 0
    var end := if count == 0 then 0xffff else count - 1;
    StringToWire(buffer, 0, end, data);
    conn.Send(buffer[..count]);
  }

  /** Header, and for success the announced length and the first chunk. */
  method SendFirst(conn: Connection, buffer: array<byte>, identifier: nat, status: byte, size: nat, data: array<byte>, count: nat)
    requires buffer.Length == BUFFER_SIZE && data != buffer && size < 0x1_0000
    requires count <= BUFFER_SIZE && count <= data.Length
    modifies conn`outgoing, buffer
    ensures conn.outgoing == if status == OK
                             then old(conn.outgoing) + HeaderBytes(identifier, status) + BigEndian(size, 2) + data[..count]
                             else old(conn.outgoing) + HeaderBytes(identifier, status)
  {
    SetHeader(buffer, identifier, status);
    if status == OK {
      SetNumBytes(buffer, size);
      assert buffer[..7] == HeaderBytes(identifier, OK) + BigEndian(size, 2);
      conn.Send(buffer[..7]);
      SendData(conn, buffer, data, count);
    } else {
      assert buffer[..5] == HeaderBytes(identifier, status);
      conn.Send(buffer[..5]);
    }
  }

  /** The read request. `received` is the count of the last recv of the file name. */
  method ServeRead(conn: Connection, files: Files, buffer: array<byte>, d: Download, received: nat)
    requires buffer.Length == BUFFER_SIZE && d.size < 0x1_0000
    requires !Stuck(files.content, d.name, d.start, d.size)
    requires d.name in files.content && d.size > BUFFER_SIZE ==> received > 0
    modifies conn`outgoing, buffer
    ensures ReadSupported(files.content, d.name, d.start, d.size) ==>
              conn.outgoing == old(conn.outgoing) + ReadAnswer(files.content, d.id, d.name, d.start, d.size)
    ensures old(conn.outgoing) <= conn.outgoing
  {
    hide HeaderBytes, BigEndian, ReadAnswer, LastChunk, Stuck;
    ghost var sent := conn.outgoing;
    var fileSize := files.FileSize(d.name);
    // the comparison is unsigned, so a negative size is huge
    if fileSize < 0 || d.size <= fileSize {
      if d.size > BUFFER_SIZE {
        ReadChunks(conn, files, buffer, d, received);
      } else {
        ReadCases(files.content, d.id, d.name, d.start, d.size, sent);
        var data := new byte[d.size](_ => 0);
        var count := files.ReadAt(d.name, d.start, d.size, data);
        var status := if count < 0 then -count else OK;
        SendFirst(conn, buffer, d.id, status, d.size, data, if count < 0 then 0 else count);
      }
    } else {
      TooLarge(files.content, d.id, d.name, d.start, d.size);
      var nothing := new byte[0];
      SendFirst(conn, buffer, d.id, EINVAL, d.size, nothing, 0);
    }
  }

  lemma TooLarge(content: map<Text, Text>, identifier: nat, name: Text, offset: nat, size: nat)
    requires name in content && |content[name]| < size < 0x1_0000
    ensures ReadAnswer(content, identifier, name, offset, size) == HeaderBytes(identifier, EINVAL)
  {
  }

  /** The sending half of a round. */
  method SendChunk(conn: Connection, buffer: array<byte>, data: array<byte>, d: Download, count: nat, status: byte, bytesRead: int)
    requires buffer.Length == data.Length == BUFFER_SIZE && data != buffer && bytesRead <= BUFFER_SIZE && d.size < 0x1_0000
    requires bytesRead < 0 ==> status != OK
    modifies conn`outgoing, buffer
    ensures old(conn.outgoing) <= conn.outgoing
    ensures count == 1 || bytesRead >= 0 ==>
              conn.outgoing == old(conn.outgoing) + Piece(d, count, status, if bytesRead < 0 then [] else data[..bytesRead])
  {
    hide HeaderBytes, BigEndian;
    if count == 1 {
      SendFirst(conn, buffer, d.id, status, d.size, data, if bytesRead < 0 then 0 else bytesRead);
    } else if bytesRead < 0 {
      conn.SendNegative();
    } else {
      SendData(conn, buffer, data, bytesRead);
    }
  }

  /** The body of the loop. */
  method ReadRound(conn: Connection, files: Files, buffer: array<byte>, data: array<byte>, d: Download, ghost l: ReadLoop,
                   count0: nat, remaining0: nat, offset0: nat, status0: byte)
    returns (count: nat, remaining: nat, offset: nat, status: byte)
    requires buffer.Length == data.Length == BUFFER_SIZE && data != buffer && d.size < 0x1_0000
    requires count0 == l.count && remaining0 == l.remaining && offset0 == l.offset && status0 == l.status
    modifies conn`outgoing, buffer, data
    ensures var l' := Round(files.content, d, l);
            && count == l'.count && remaining == l'.remaining && offset == l'.offset && status == l'.status
            && (!l'.negative ==> l.sent <= l'.sent && conn.outgoing == old(conn.outgoing) + l'.sent[|l.sent|..])
    ensures old(conn.outgoing) <= conn.outgoing
  {
    hide Piece;
    count, remaining, offset, status := count0, remaining0, offset0, status0;
    var bytesRead;
    if remaining > BUFFER_SIZE {
      bytesRead := files.ReadAt(d.name, offset, BUFFER_SIZE, data);
      if bytesRead > 0 {
        remaining := remaining - BUFFER_SIZE;
        offset := offset + BUFFER_SIZE;
      }
    } else {
      bytesRead := files.ReadAt(d.name, offset, remaining, data);
      remaining := 0;
    }
    if bytesRead < 0 {
      status := -bytesRead;
    }
    SendChunk(conn, buffer, data, d, count, status, bytesRead);
    if count == 1 && status != OK {
      remaining := 0;
    }
    count := (count + 1) % 256;
  }

  /** The loop, round by round. */
  method ReadChunks(conn: Connection, files: Files, buffer: array<byte>, d: Download, received: nat)
    requires buffer.Length == BUFFER_SIZE && Entered(files.content, d)
    requires !Stuck(files.content, d.name, d.start, d.size)
    requires d.name in files.content ==> received > 0
    modifies conn`outgoing, buffer
    ensures ReadSupported(files.content, d.name, d.start, d.size) ==>
              conn.outgoing == old(conn.outgoing) + ReadAnswer(files.content, d.id, d.name, d.start, d.size)
    ensures old(conn.outgoing) <= conn.outgoing
  {
    hide Round, ReadStatus, ReadAnswer, ReadSupported, Stuck;
    var data := new byte[BUFFER_SIZE](_ => 0);
    var count, remaining, offset, status := 1, d.size, d.start, OK;
    ghost var k := 0;
    while true
      invariant var l := Rounds(files.content, d, k);
                && count == l.count && 0 < remaining == l.remaining && offset == l.offset && status == l.status
                && (!l.negative ==> conn.outgoing == old(conn.outgoing) + l.sent)
      invariant old(conn.outgoing) <= conn.outgoing
      decreases 257 - k
    {
      NextRound(files.content, d, k);
      count, remaining, offset, status :=
        ReadRound(conn, files, buffer, data, d, Rounds(files.content, d, k), count, remaining, offset, status);
      k := k + 1;
      if !(remaining > 0 && received != 0) {
        break;
      }
    }
    LoopLeft(files.content, d, k);
  }

  lemma NextRound(content: map<Text, Text>, d: Download, k: nat)
    requires Entered(content, d) && !Stuck(content, d.name, d.start, d.size) && Rounds(content, d, k).remaining > 0
    ensures k < 257
    ensures Rounds(content, d, k + 1) == Round(content, d, Rounds(content, d, k))
    ensures Rounds(content, d, k).negative ==> Rounds(content, d, k + 1).negative
  {
    hide Stuck;
    RoundsBounded(content, d, k);
  }

  lemma RoundsBounded(content: map<Text, Text>, d: Download, k: nat)
    requires Entered(content, d) && !Stuck(content, d.name, d.start, d.size)
    ensures Rounds(content, d, k).remaining > 0 ==> k < 257
  {
    hide Rounds, Stuck;
    ReadEndsExactly(content, d);
    if k >= 257 {
      EndedStays(content, d, 257, k);
    }
  }

  /** A missing file is found out in the first round; and a loop that is over has sent the answer. */
  lemma LoopLeft(content: map<Text, Text>, d: Download, k: nat)
    requires Entered(content, d)
    ensures k > 0 && d.name !in content ==> Rounds(content, d, k).remaining == 0
    ensures Rounds(content, d, k).remaining == 0 && ReadSupported(content, d.name, d.start, d.size) ==>
              var l := Rounds(content, d, k);
              !l.negative && l.sent == ReadAnswer(content, d.id, d.name, d.start, d.size)
  {
    hide Rounds, ReadAnswer;
    if k > 0 && d.name !in content {
      OnlyRound(content, d);
      EndedStays(content, d, 1, k);
    }
    if Rounds(content, d, k).remaining == 0 && ReadSupported(content, d.name, d.start, d.size) {
      var j := SupportedRead(content, d);
      EndedStays(content, d, j, j + k);
      EndedStays(content, d, k, j + k);
    }
  }

  /** The ways a request that passed the size check can go. */
  lemma ReadCases(content: map<Text, Text>, identifier: nat, name: Text, start: nat, size: nat, sent: Text)
    requires size < 0x1_0000 && ReadSupported(content, name, start, size)
    requires name in content ==> size <= |content[name]|
    ensures ReadStatus(content, name, start, size) == OK ==>
              && name in content && start <= |content[name]| && start + LastChunk(size) <= |content[name]|
              && sent + ReadAnswer(content, identifier, name, start, size) ==
                 sent + HeaderBytes(identifier, OK) + BigEndian(size, 2)
                 + content[name][start..Least(start + size, |content[name]|)]
    ensures ReadStatus(content, name, start, size) != OK ==>
              && (name in content ==> start > |content[name]|)
              && ReadAnswer(content, identifier, name, start, size) ==
                 HeaderBytes(identifier, if name in content then EINVAL else ENOENT)
  {
  }

  /** A read that fits the file is answered with exactly the slice, announced at its full length. */
  lemma ReadAnswerIsSlice(content: map<Text, Text>, identifier: nat, name: Text, offset: nat, size: nat)
    requires name in content && size < 0x1_0000 && identifier < Pow256(4)
    requires offset + size <= |content[name]|
    ensures var sent := ReadAnswer(content, identifier, name, offset, size);
            && |sent| == 7 + size
            && FromBytes(sent[..4]) == identifier && sent[4] == OK
            && FromBytes(sent[5..7]) == size
            && sent[7..] == content[name][offset..offset + size]
  {
    var sent := ReadAnswer(content, identifier, name, offset, size);
    Powers();
    FromBigEndian(identifier, 4);
    FromBigEndian(size, 2);
    assert sent[..4] == BigEndian(identifier, 4);
    assert sent[5..7] == BigEndian(size, 2);
  }

  /** A read that runs past the end of the file announces more bytes than it sends. */
  lemma ReadPastEndOverstates(content: map<Text, Text>, identifier: nat, name: Text, offset: nat, size: nat)
    requires size < 0x1_0000
    requires ReadStatus(content, name, offset, size) == OK && ReadSupported(content, name, offset, size)
    ensures var sent := ReadAnswer(content, identifier, name, offset, size);
            |sent| == 7 + size <==> offset + size <= |content[name]|
  {
  }

  // ---------- Write requests ----------

  /** How far a write gets before lseek refuses a chunk's offset. */
  function Seekable(start: nat): (n: nat)
    ensures n % BUFFER_SIZE == 0
  {
    if start > INT64_MAX then 0 else ((INT64_MAX - start) / BUFFER_SIZE + 1) * BUFFER_SIZE
  }

  function Writable(found: bool, start: nat): nat {
    if found then Seekable(start) else 0
  }

  /** How much of the stream a write request takes: it is given up after the first chunk that could
      not be written. */
  function WriteTakes(found: bool, start: nat, size: nat): nat {
    Least(size, Writable(found, start) + BUFFER_SIZE)
  }

  /** The chunks up to the one in which the stream ends. */
  function Arriving(available: nat): nat {
    (available / BUFFER_SIZE + 1) * BUFFER_SIZE
  }

  /** How many bytes reach the file: chunks up to the first that could not be written, or up to the one
      in which the client hung up, which is filled up with zeros. */
  function WriteReaches(found: bool, start: nat, size: nat, available: nat): nat {
    Least(size, Least(Writable(found, start), Arriving(available)))
  }

  /** A refused chunk counts if it is reached. */
  function WriteStatus(found: bool, start: nat, size: nat, available: nat): byte {
    if !found then ENOENT
    else if Seekable(start) <= LastChunk(size) && Seekable(start) <= available then EINVAL
    else OK
  }

  ghost function AfterWrite(content: map<Text, Text>, name: Text, start: nat, size: nat, t: Text): map<Text, Text> {
    if name in content then Written(content, name, start, Next(t, WriteReaches(true, start, size, |t|))) else content
  }

  /** A write that is wanted in full, arrives in full and stays below the largest offset splices the
      file and takes exactly its bytes. */
  lemma FullWrite(content: map<Text, Text>, name: Text, start: nat, data: Text, rest: Text)
    requires name in content && start + LastChunk(|data|) <= INT64_MAX
    ensures WriteTakes(true, start, |data|) == |data|
    ensures WriteStatus(true, start, |data|, |data + rest|) == OK
    ensures AfterWrite(content, name, start, |data|, data + rest) == Written(content, name, start, data)
  {
    SeekableAt(start, LastChunk(|data|));
    assert Next(data + rest, |data|) == data;
  }

  lemma SeekableAt(start: nat, done: nat)
    requires done % BUFFER_SIZE == 0
    ensures done < Seekable(start) <==> start + done <= INT64_MAX
    ensures done < Seekable(start) ==> done + BUFFER_SIZE <= Seekable(start)
  {
  }

  /** The write request, up to its status. The data buffer has a spare byte for the terminating zero. */
  method ServeWrite(conn: Connection, files: Files, name: Text, start: nat, size: nat) returns (status: byte)
    requires size < 0x1_0000
    modifies conn`incoming, files
    ensures conn.incoming == Rest(old(conn.incoming), WriteTakes(name in old(files.content), start, size))
    ensures status == WriteStatus(name in old(files.content), start, size, |old(conn.incoming)|)
    ensures files.content == AfterWrite(old(files.content), name, start, size, old(conn.incoming))
  {
    hide Splice, Next;
    if size > BUFFER_SIZE {
      status := WriteChunks(conn, files, name, start, size);
    } else {
      var data := new byte[size + 1](_ => 0);
      var _, written := WriteChunk(conn, files, name, start, size, true, data);
      status := if written < 0 then -written else OK;
      SeekableAt(start, 0);
      NothingWritten(old(files.content), name, start, old(conn.incoming));
    }
  }

  method WriteChunks(conn: Connection, files: Files, name: Text, start: nat, size: nat) returns (status: byte)
    requires BUFFER_SIZE < size < 0x1_0000
    modifies conn`incoming, files
    ensures conn.incoming == Rest(old(conn.incoming), WriteTakes(name in old(files.content), start, size))
    ensures status == WriteStatus(name in old(files.content), start, size, |old(conn.incoming)|)
    ensures files.content == AfterWrite(old(files.content), name, start, size, old(conn.incoming))
  {
    hide Splice, Next, Rest, Seekable, Writable, WriteTakes, WriteReaches, WriteStatus, LastChunk, Written;
    var data := new byte[BUFFER_SIZE + 1](_ => 0);
    var remaining, offset := size, start;
    ghost var all, before := conn.incoming, files.content;
    ghost var found := name in before;
    ghost var done := 0;
    status := OK;
    NothingWritten(before, name, start, all);
    while true
      invariant status == OK && 0 < remaining && done == size - remaining && offset == start + done
      invariant done % BUFFER_SIZE == 0 && done <= |all| && done <= Writable(found, start)
      invariant conn.incoming == all[done..]
      invariant files.content == if found then Written(before, name, start, Next(all, done)) else before
      decreases remaining
    {
      var received, written;
      WriteEnds(found, start, size, done, all);
      Extended(before, name, start, all, done, Least(remaining, BUFFER_SIZE));
      if remaining > BUFFER_SIZE {
        received, written := WriteChunk(conn, files, name, offset, BUFFER_SIZE, false, data);
        if written > 0 {
          remaining := remaining - BUFFER_SIZE;
          offset := offset + BUFFER_SIZE;
          done := done + BUFFER_SIZE;
        }
      } else {
        received, written := WriteChunk(conn, files, name, offset, remaining, true, data);
        remaining := 0;
      }
      if written < 0 {
        status := -written;
      }
      if !(remaining > 0 && received != 0 && status == OK) {
        break;
      }
    }
  }

  /** The three ways the loop can end with the chunk that begins at `done`: the chunk is refused, it
      is the last one, or the client has hung up in it. */
  lemma WriteEnds(found: bool, start: nat, size: nat, done: nat, all: Text)
    requires done % BUFFER_SIZE == 0 && done < size && done <= |all| && done <= Writable(found, start)
    ensures done == Writable(found, start) <==> !found || start + done > INT64_MAX
    ensures done < Writable(found, start) ==> done + BUFFER_SIZE <= Writable(found, start)
    ensures var n := Least(size - done, BUFFER_SIZE);
            if done == Writable(found, start) then
              && WriteTakes(found, start, size) == done + n
              && WriteReaches(found, start, size, |all|) == done
              && WriteStatus(found, start, size, |all|) == if found then EINVAL else ENOENT
            else if size - done <= BUFFER_SIZE || done + BUFFER_SIZE > |all| then
              && Rest(all, WriteTakes(found, start, size)) == Rest(all, done + n)
              && WriteReaches(found, start, size, |all|) == done + n
              && WriteStatus(found, start, size, |all|) == OK
            else
              Rest(all, done + n) == all[done + n..]
  {
    hide Seekable, LastChunk, Arriving;
    SeekableAt(start, done);
    ChunkAt(done, size, |all|);
  }

  lemma ChunkAt(done: nat, size: nat, available: nat)
    requires done % BUFFER_SIZE == 0 && done < size && done <= available
    ensures done <= LastChunk(size)
    ensures size - done <= BUFFER_SIZE ==> LastChunk(size) == done
    ensures done + BUFFER_SIZE <= Arriving(available)
    ensures done + BUFFER_SIZE > available ==> Arriving(available) == done + BUFFER_SIZE
    ensures size - done > BUFFER_SIZE ==> done + BUFFER_SIZE <= LastChunk(size)
  {
    assert done == done / BUFFER_SIZE * BUFFER_SIZE;
  }

  lemma NothingWritten(content: map<Text, Text>, name: Text, offset: nat, t: Text)
    ensures name in content ==> Written(content, name, offset, Next(t, 0)) == content
  {
  }

  /** One chunk off the stream and into the file. */
  method WriteChunk(conn: Connection, files: Files, name: Text, offset: nat, n: nat, nul: bool, data: array<byte>)
    returns (received: nat, written: int)
    requires n <= BUFFER_SIZE && n < data.Length
    modifies conn`incoming, files, data
    ensures conn.incoming == Rest(old(conn.incoming), n)
    ensures received > 0 <==> 0 < n <= |old(conn.incoming)|
    ensures name !in old(files.content) ==> written == -(ENOENT as int) && files.content == old(files.content)
    ensures name in old(files.content) && offset > INT64_MAX ==>
              written == -(EINVAL as int) && files.content == old(files.content)
    ensures name in old(files.content) && offset <= INT64_MAX ==>
              written == n && files.content == Written(old(files.content), name, offset, Next(old(conn.incoming), n))
  {
    hide Splice, Rest;
    received := RecvString(conn, data, n, nul);
    assert data[..n] == Next(old(conn.incoming), n);
    written := files.WriteAt(name, offset, n, data);
  }

  /** A chunk behind what has arrived so far. */
  lemma Extended(content: map<Text, Text>, name: Text, start: nat, all: Text, done: nat, n: nat)
    requires done <= |all|
    ensures Rest(all[done..], n) == Rest(all, done + n)
    ensures name in content ==>
              Written(Written(content, name, start, Next(all, done)), name, start + done, Next(all[done..], n))
              == Written(content, name, start, Next(all, done + n))
  {
    assert Next(all, done) + Next(all[done..], n) == Next(all, done + n);
    if name in content {
      SpliceTwice(content[name], start, Next(all, done), Next(all[done..], n));
    }
  }
}
