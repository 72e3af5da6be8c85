/** Requests on files, dumps, loads and clears as a client sees them: byte by byte what is in the files
    behind them, and the bytes of the answers. Status bytes are written as the numbers of <cerrno>. */
module FileLaws {
  import opened Types
  import opened LogText
  import opened Listing
  import opened Requests
  import opened Durability
  import opened DumpFiles
  import opened Wire
  import opened Receive
  import opened FileTransfer
  import opened Framing
  import opened Session

  /** Files other than this one are as before. */
  ghost predicate OthersUntouched(files: map<Text, Text>, files': map<Text, Text>, name: Text) {
    forall other | other != name :: (other in files <==> other in files') && (other in files ==> files'[other] == files[other])
  }

  // ---------- Writes ----------

  /** How many bytes of a write reach the file: all of them, or, if the client hangs up, up to the end of
      the chunk in which it does. */
  function Reached(size: nat, available: nat): nat {
    var upto := (available / 4096 + 1) * 4096;
    if size <= available || size <= upto then size else upto
  }

  lemma SpliceLength(file: Text, offset: nat, bytes: Text)
    ensures |Splice(file, offset, bytes)| ==
            if bytes != [] && offset + |bytes| > |file| then offset + |bytes| else |file|
  {
  }

  lemma SpliceAt(file: Text, offset: nat, bytes: Text, i: nat)
    requires i < |Splice(file, offset, bytes)|
    ensures Splice(file, offset, bytes)[i] ==
            if offset <= i < offset + |bytes| then bytes[i - offset] else if i < |file| then file[i] else 0
  {
    SpliceLength(file, offset, bytes);
  }

  /** A write to a file that is there, below the largest offset, changes exactly the bytes it is for. What
      the client did not send before it hung up counts as zeros; a gap behind the old end is zeros. */
  lemma WriteChanges(w: World, c: Command, t: Text, w': World, reply: Text, limit: nat)
    requires c.WriteFile? && c.name in w.files && c.size > 0 && c.offset + c.size <= INT64_MAX
    requires CommandStep(w, c, t, w', reply, limit)
    ensures reply == BigEndian(c.id, 4) + [0] && w'.life == w.life
    ensures OthersUntouched(w.files, w'.files, c.name) && c.name in w'.files
    ensures var n, before, after := Reached(c.size, |t|), w.files[c.name], w'.files[c.name];
            && |after| == (if c.offset + n > |before| then c.offset + n else |before|)
            && forall i | 0 <= i < |after| ::
                 after[i] == if c.offset <= i < c.offset + n then (if i - c.offset < |t| then t[i - c.offset] else 0)
                             else if i < |before| then before[i]
                             else 0
  {
    hide BigEndian, Splice;
    var n, before := Reached(c.size, |t|), w.files[c.name];
    ReachedIsWritten(c.offset, c.size, |t|);
    var bytes := Next(t, n);
    assert w'.files == w.files[c.name := Splice(before, c.offset, bytes)];
    SpliceLength(before, c.offset, bytes);
    forall i | 0 <= i < |w'.files[c.name]|
      ensures w'.files[c.name][i] == if c.offset <= i < c.offset + n then (if i - c.offset < |t| then t[i - c.offset] else 0)
                                     else if i < |before| then before[i]
                                     else 0
    {
      SpliceAt(before, c.offset, bytes, i);
    }
  }

  lemma ReachedIsWritten(offset: nat, size: nat, available: nat)
    requires size > 0 && offset + size <= INT64_MAX
    ensures 0 < Reached(size, available) == WriteReaches(true, offset, size, available)
    ensures WriteStatus(true, offset, size, available) == 0
  {
    hide Seekable, LastChunk;
    SeekableAt(offset, LastChunk(size));
    assert available / 4096 * 4096 <= available < (available / 4096 + 1) * 4096;
  }

  /** A write that arrives in full: every byte of it, and no other, is new. */
  lemma FullWriteChanges(w: World, c: Command, data: Text, rest: Text, w': World, reply: Text, limit: nat)
    requires c.WriteFile? && c.name in w.files && c.size == |data| > 0 && c.offset + c.size <= INT64_MAX
    requires CommandStep(w, c, data + rest, w', reply, limit)
    ensures reply == BigEndian(c.id, 4) + [0] && w'.life == w.life
    ensures OthersUntouched(w.files, w'.files, c.name) && c.name in w'.files
    ensures var before, after := w.files[c.name], w'.files[c.name];
            && |after| == (if c.offset + |data| > |before| then c.offset + |data| else |before|)
            && (forall i | 0 <= i < |data| :: after[c.offset + i] == data[i])
            && (forall i | 0 <= i < |before| && !(c.offset <= i < c.offset + |data|) :: after[i] == before[i])
            && (forall i | |before| <= i < c.offset :: after[i] == 0)
  {
    hide BigEndian, CommandStep;
    WriteChanges(w, c, data + rest, w', reply, limit);
    var after := w'.files[c.name];
    forall i | 0 <= i < |data|
      ensures after[c.offset + i] == data[i]
    {
      assert (data + rest)[i] == data[i];
    }
  }

  /** A write of nothing, to a missing file, or from behind the largest offset on, changes no file. */
  lemma WriteRefused(w: World, c: Command, t: Text, w': World, reply: Text, limit: nat)
    requires c.WriteFile? && CommandStep(w, c, t, w', reply, limit)
    ensures c.name !in w.files ==> w' == w && reply == BigEndian(c.id, 4) + [2]
    ensures c.name in w.files && c.offset > INT64_MAX ==> w' == w && reply == BigEndian(c.id, 4) + [22]
    ensures c.name in w.files && c.offset <= INT64_MAX && c.size == 0 ==> w' == w && reply == BigEndian(c.id, 4) + [0]
  {
    hide BigEndian;
    SeekableAt(c.offset, 0);
    NothingWritten(w.files, c.name, c.offset, t);
  }

  // ---------- Create and size ----------

  /** A new file is empty; a file that is there keeps its content. */
  lemma CreateReplied(w: World, id: nat, name: Text, t: Text, w': World, reply: Text, limit: nat)
    requires CommandStep(w, CreateFile(id, name), t, w', reply, limit)
    ensures w'.life == w.life && OthersUntouched(w.files, w'.files, name)
    ensures name == [] ==> w' == w && reply == BigEndian(id, 4) + [2]
    ensures name != [] && name in w.files ==> w' == w && reply == BigEndian(id, 4) + [17]
    ensures name != [] && name !in w.files ==>
              name in w'.files && w'.files[name] == [] && reply == BigEndian(id, 4) + [0]
  {
    hide BigEndian;
  }

  /** The size is that of the file; for a missing one there are zeros in its place. */
  lemma SizeReplied(w: World, id: nat, name: Text, t: Text, w': World, reply: Text, limit: nat)
    requires CommandStep(w, SizeOfFile(id, name), t, w', reply, limit)
    ensures w' == w && |reply| == 13
    ensures reply[..4] == BigEndian(id, 4)
    ensures reply[4] == if name in w.files then 0 else 2
    ensures if name in w.files && |w.files[name]| < 0x1_0000_0000_0000_0000 then FromBytes(reply[5..]) == |w.files[name]|
            else name !in w.files ==> reply[5..] == [0, 0, 0, 0, 0, 0, 0, 0]
  {
    Powers();
    hide BigEndian;
    if name in w.files {
      assert reply[5..] == BigEndian(|w.files[name]|, 8);
      if |w.files[name]| < 0x1_0000_0000_0000_0000 {
        FromBigEndian(|w.files[name]|, 8);
      }
    } else {
      assert reply[5..] == Zeros(8) == [0, 0, 0, 0, 0, 0, 0, 0];
    }
  }

  // ---------- Reads ----------

  /** A read, for each thing that can be wrong with it, and for what is left of the file. */
  lemma ReadReplied(w: World, id: nat, name: Text, offset: nat, size: nat, t: Text, w': World, reply: Text, limit: nat)
    requires CommandStep(w, ReadFile(id, name, offset, size), t, w', reply, limit)
    ensures w' == w
    ensures name !in w.files ==> reply == BigEndian(id, 4) + [2]
    ensures name in w.files && (offset > |w.files[name]| || size > |w.files[name]|) ==> reply == BigEndian(id, 4) + [22]
    ensures name in w.files && offset <= |w.files[name]| && size <= |w.files[name]|
            && (size <= 4096 || offset + (size - 1) / 4096 * 4096 <= |w.files[name]|) ==>
              var upto := if offset + size <= |w.files[name]| then offset + size else |w.files[name]|;
              reply == BigEndian(id, 4) + [0] + BigEndian(size, 2) + w.files[name][offset..upto]
  {
    hide BigEndian;
  }

  // ---------- Dumps ----------

  lemma WriteOverAt(prior: Text, text: Text, i: nat)
    requires i < |WriteOver(prior, text)|
    ensures |WriteOver(prior, text)| == if |prior| > |text| then |prior| else |text|
    ensures WriteOver(prior, text)[i] == if i < |text| then text[i] else prior[i]
  {
  }

  /** A dump writes over the front of a file; what is longer in the file stays. Variables and log are not
      touched. */
  lemma DumpReplied(w: World, id: nat, name: Text, t: Text, w': World, reply: Text, limit: nat)
    requires CommandStep(w, DumpTo(id, name), t, w', reply, limit)
    ensures name == [] ==> w' == w && reply == BigEndian(id, 4) + [17]
    ensures name != [] ==>
              && reply == BigEndian(id, 4) + [0] && w'.life == w.life
              && OthersUntouched(w.files, w'.files, name) && name in w'.files
    ensures name != [] ==> exists dump ::
              && IsDump(dump, w.life.vars)
              && dump <= w'.files[name]
              && (name !in w.files || |w.files[name]| <= |dump| ==> w'.files[name] == dump)
              && (name in w.files && |w.files[name]| > |dump| ==>
                    |w'.files[name]| == |w.files[name]| && w'.files[name][|dump|..] == w.files[name][|dump|..])
  {
    hide BigEndian, IsDump;
  }

  // ---------- Loads and clears ----------

  /** A missing file is not loaded. */
  lemma MissingLoadReplied(w: World, id: nat, name: Text, t: Text, w': World, reply: Text, limit: nat)
    requires name !in w.files && CommandStep(w, LoadFrom(id, name), t, w', reply, limit)
    ensures w' == w && reply == BigEndian(id, 4) + [22]
  {
    hide BigEndian;
  }

  /** A load whose outcome does not depend on what the scan buffers hold. */
  lemma LoadEnds(w: World, id: nat, name: Text, loaded: Loaded, t: Text, w': World, reply: Text, limit: nat)
    requires name in w.files && CommandStep(w, LoadFrom(id, name), t, w', reply, limit)
    requires forall key, word :: Load(w.files[name], key, word, w.life.vars) == loaded
    ensures w'.files == w.files
    ensures loaded.Complete? ==>
              && reply == BigEndian(id, 4) + [0] && w'.life.vars == loaded.vars && w'.life.attached == w.life.attached
              && (if w.life.attached then exists dump :: IsDump(dump, loaded.vars) && w'.life.log == w.life.log + dump
                  else w'.life.log == w.life.log)
    ensures loaded.Refused? ==> reply == BigEndian(id, 4) + [22] && w'.life == w.life.(vars := loaded.vars)
  {
    hide BigEndian, Load, IsDump;
    var status :| LoadFromStep(w, name, w', status) && reply == HeaderBytes(id, status);
    var key, word :| LoadStep(w.life, LoadFile(w.files[name], key, word), w'.life)
                     && status == if Load(w.files[name], key, word, w.life.vars).Complete? then OK else EINVAL;
  }

  /** Loading printed records applies them, one after another, and logs a dump of what there is then. */
  lemma LoadReplied(w: World, id: nat, name: Text, records: seq<Record>, t: Text, w': World, reply: Text, limit: nat)
    requires CommandStep(w, LoadFrom(id, name), t, w', reply, limit)
    requires forall i | 0 <= i < |records| :: ValidRecord(records[i])
    requires name in w.files && w.files[name] == Print(records)
    ensures reply == BigEndian(id, 4) + [0] && w'.files == w.files && w'.life.vars == ApplyAll(w.life.vars, records)
    ensures w.life.attached ==> exists dump :: IsDump(dump, w'.life.vars) && w'.life.log == w.life.log + dump
  {
    hide BigEndian, CommandStep, Load, Print, ApplyAll, IsDump;
    ReadPrinted(records, [], []);
    forall key, word
      ensures Load(w.files[name], key, word, w.life.vars) == Complete(ApplyAll(w.life.vars, records))
    {
      ReadPrinted(records, key, word);
    }
    LoadEnds(w, id, name, Complete(ApplyAll(w.life.vars, records)), t, w', reply, limit);
  }

  /** Loading stops at a bad line: the records in front of it are applied, what is behind it is not looked
      at, and nothing is logged. */
  lemma BadLoadReplied(w: World, id: nat, name: Text, records: seq<Record>, rest: Text, t: Text, w': World, reply: Text, limit: nat)
    requires CommandStep(w, LoadFrom(id, name), t, w', reply, limit)
    requires records != [] && forall i | 0 <= i < |records| :: ValidRecord(records[i])
    requires name in w.files && w.files[name] == Print(records) + [61] + rest
    ensures reply == BigEndian(id, 4) + [22] && w'.files == w.files
    ensures w'.life == w.life.(vars := ApplyAll(w.life.vars, records))
  {
    hide BigEndian, CommandStep, Load, Print, ApplyAll;
    forall key, word
      ensures Load(w.files[name], key, word, w.life.vars) == LogText.Refused(ApplyAll(w.life.vars, records))
    {
      BadLineStops(records, rest, key, word, w.life.vars);
    }
    LoadEnds(w, id, name, LogText.Refused(ApplyAll(w.life.vars, records)), t, w', reply, limit);
  }

  /** A clear is for one number only. */
  lemma ClearReplied(w: World, id: nat, magic: nat, t: Text, w': World, reply: Text, limit: nat)
    requires CommandStep(w, ClearAll(id, magic), t, w', reply, limit)
    ensures w'.files == w.files
    ensures magic == 0x0bad_bad0 ==>
              w'.life.vars == map[] && w'.life.log == [] && !w'.life.attached && reply == BigEndian(id, 4) + [0]
    ensures magic != 0x0bad_bad0 ==> w' == w && reply == BigEndian(id, 4) + [22]
  {
    hide BigEndian;
  }
}
