/** The life of a server: requests, loads, clears and restarts. When does a restart, which replays
    the text of log.txt, find the variables the server had? */
module Durability {
  import opened Types
  import opened LogText
  import opened Listing
  import opened Requests

  /** `log` is the text of log.txt in the server's directory. `attached` says whether the log
      descriptor still refers to that file: clear_log replaces the file but assigns the new
      descriptor to its own parameter, so until the next start lines go to the unlinked file. */
  datatype Life = Life(vars: Variables, log: Text, attached: bool)

  /** The loads name what the scan buffers hold when the load starts. */
  datatype Event =
    | Serve(request: Request)
    | LoadFile(text: Text, key: Text, word: Text)
    | Clear
    | Restart(key: Text, word: Text)

  function ServeOne(s: Life, r: Request, limit: nat): (Life, Reply) {
    var (sh, reply) := Execute(Shared(s.vars, s.log), r, limit);
    (Life(sh.vars, if s.attached then sh.log else s.log, s.attached), reply)
  }

  /** A load that reads the whole file dumps the store to the log; one that stops at a bad line has
      changed the variables and logs nothing. */
  ghost predicate LoadStep(s: Life, e: Event, s': Life)
    requires e.LoadFile?
  {
    match Load(e.text, e.key, e.word, s.vars)
    case Complete(m) =>
      && s'.vars == m && s'.attached == s.attached
      && (if s.attached then exists dump :: IsDump(dump, m) && s'.log == s.log + dump else s'.log == s.log)
    case Refused(m) => s' == s.(vars := m)
    case Overrun => false
  }

  /** However a load ends, the variables are those its records make of the old ones. */
  lemma LoadChanges(s: Life, e: Event, s': Life)
    requires e.LoadFile? && LoadStep(s, e, s')
    ensures s'.vars == ApplyAll(s.vars, Read(e.text, e.key, e.word).records)
    ensures ValidVariables(s.vars) ==> ValidVariables(s'.vars)
  {
    if ValidVariables(s.vars) {
      ApplyKeeps(s.vars, Read(e.text, e.key, e.word).records);
    }
  }

  /** Start-up replays the log into an empty store; whether the replay gets to the end is not looked at. */
  function Restarted(log: Text, key: Text, word: Text): Life
    requires Load(log, key, word, map[]) != Overrun
  {
    Life(Load(log, key, word, map[]).vars, log, true)
  }

  ghost predicate Step(s: Life, e: Event, s': Life, limit: nat) {
    match e
    case Serve(r) => s' == ServeOne(s, r, limit).0
    case LoadFile(_, _, _) => LoadStep(s, e, s')
    case Clear => s' == Life(map[], [], false)
    case Restart(key, word) => Load(s.log, key, word, map[]) != Overrun && s' == Restarted(s.log, key, word)
  }

  /** A restart at this point would find exactly the present variables. */
  ghost predicate Durable(s: Life) {
    forall key, word :: Load(s.log, key, word, map[]) == Complete(s.vars)
  }

  // ---------- The invariant ----------

  /** The log prints valid records, which build up the variables as long as the log is attached. */
  ghost predicate LoggedBy(s: Life, records: seq<Record>) {
    && ValidVariables(s.vars)
    && (forall i | 0 <= i < |records| :: ValidRecord(records[i]))
    && s.log == Print(records)
    && (if s.attached then ApplyAll(map[], records) == s.vars else records == [])
  }

  ghost predicate Logged(s: Life) {
    exists records :: LoggedBy(s, records)
  }

  lemma LoggedIsDurable(s: Life)
    requires Logged(s)
    ensures Durable(s) <==> s.attached || s.vars == map[]
  {
    var records :| LoggedBy(s, records);
    forall key, word
      ensures Load(s.log, key, word, map[]) == Complete(ApplyAll(map[], records))
    {
      ReadPrinted(records, key, word);
    }
    assert Load(s.log, [], [], map[]) == Complete(ApplyAll(map[], records));
  }

  lemma ServeKeepsLogged(s: Life, r: Request, limit: nat)
    requires Logged(s)
    ensures Logged(ServeOne(s, r, limit).0)
  {
    var records :| LoggedBy(s, records);
    var more := ExecuteLogsWhatItDoes(Shared(s.vars, s.log), r, limit);
    var s' := ServeOne(s, r, limit).0;
    ApplyKeeps(s.vars, more);
    if s.attached {
      PrintConcat(records, more);
      ApplyConcat(map[], records, more);
      assert LoggedBy(s', records + more);
    } else {
      assert LoggedBy(s', records);
    }
  }

  lemma ListingIsValid(records: seq<Record>)
    requires IsListing(records) && ValidVariables(AsMap(records))
    ensures forall i | 0 <= i < |records| :: ValidRecord(records[i])
  {
    AsMapEntries(records);
  }

  /** The last record about a variable. */
  function LastRecord(records: seq<Record>, k: Text): (r: Option<Record>)
    ensures r.Some? ==> r.value in records && r.value.key == k
    decreases |records|
  {
    if records == [] then None
    else
      var later := LastRecord(records[1..], k);
      if later.None? && records[0].key == k then Some(records[0]) else later
  }

  predicate Drops(r: Option<Record>) {
    r.Some? && r.value.Drop?
  }

  /** The record, if there is one, says of k what m says already. */
  predicate Agrees(r: Option<Record>, m: Variables, k: Text) {
    match r
    case None => true
    case Some(Put(_, v)) => k in m && m[k] == v
    case Some(Drop(_)) => k !in m
  }

  /** Records leave behind what the last one about each variable says. */
  lemma {:induction false} ApplyLast(m: Variables, records: seq<Record>, k: Text)
    ensures Agrees(LastRecord(records, k), ApplyAll(m, records), k)
    ensures LastRecord(records, k).None? ==>
              (k in ApplyAll(m, records) <==> k in m) && (k in m ==> ApplyAll(m, records)[k] == m[k])
    decreases |records|
  {
    if records != [] {
      ApplyLast(ApplyRecord(m, records[0]), records[1..], k);
    }
  }

  /** What the file of a load may say for the log to keep up: read to its end, it may not delete a
      variable that is there, since only what is left gets dumped; stopped at a bad line, it may not
      have changed anything. */
  ghost predicate LoadSafe(s: Life, e: Event)
    requires e.LoadFile?
  {
    var reading := Read(e.text, e.key, e.word);
    match reading.stop
    case AtEnd => forall k | k in s.vars :: !Drops(LastRecord(reading.records, k))
    case AtBadLine => forall k :: Agrees(LastRecord(reading.records, k), s.vars, k)
    case AtOverrun => true
  }

  /** In terms of the result: a complete load loses no variable, a refused one changes none. */
  lemma LoadSafeMeans(s: Life, e: Event)
    requires e.LoadFile?
    ensures var result := Load(e.text, e.key, e.word, s.vars);
            && (result.Complete? ==> (LoadSafe(s, e) <==> s.vars.Keys <= result.vars.Keys))
            && (result.Refused? ==> (LoadSafe(s, e) <==> result.vars == s.vars))
  {
    hide Read;
    var records := Read(e.text, e.key, e.word).records;
    forall k: Text {
      ApplyLast(s.vars, records, k);
    }
    if forall k :: Agrees(LastRecord(records, k), s.vars, k) {
      assert ApplyAll(s.vars, records) == s.vars;
    }
  }

  /** The text of the log after a load, as records that replay to the old variables overridden by
      the ones now in the store. */
  lemma LogAfterLoad(s: Life, e: Event, s': Life) returns (records: seq<Record>)
    requires Logged(s) && s.attached && e.LoadFile? && LoadStep(s, e, s')
    ensures ValidVariables(s'.vars)
    ensures forall i | 0 <= i < |records| :: ValidRecord(records[i])
    ensures s'.log == Print(records)
    ensures var result := Load(e.text, e.key, e.word, s.vars);
            ApplyAll(map[], records) == if result.Complete? then s.vars + s'.vars else s.vars
  {
    hide Read, Print, ApplyAll, IsListing, AsMap;
    records :| LoggedBy(s, records);
    LoadChanges(s, e, s');
    match Load(e.text, e.key, e.word, s.vars)
    case Refused(m) =>
    case Complete(m) =>
      var text :| IsDump(text, m) && s'.log == s.log + text;
      var dump :| IsListing(dump) && AsMap(dump) == m && text == Print(dump);
      ListingIsValid(dump);
      PrintConcat(records, dump);
      ApplyConcat(map[], records, dump);
      ApplyOverrides(s.vars, dump);
      records := records + dump;
  }

  /** Exactly the safe loads keep an attached server durable. */
  lemma LoadDurability(s: Life, e: Event, s': Life)
    requires Logged(s) && s.attached && e.LoadFile? && LoadStep(s, e, s')
    ensures Durable(s') <==> LoadSafe(s, e)
    ensures LoadSafe(s, e) ==> Logged(s')
  {
    var records := LogAfterLoad(s, e, s');
    var result := Load(e.text, e.key, e.word, s.vars);
    hide Read, Print, ApplyAll, LoadSafe;
    ReplayDecides(s', records);
    LoadSafeMeans(s, e);
    if result.Complete? && s'.vars == s.vars + s'.vars {
      assert s.vars.Keys <= s'.vars.Keys;
    }
    if LoadSafe(s, e) {
      assert LoggedBy(s', records);
    }
  }

  /** A log of printed records is durable exactly when the records build up the variables. */
  lemma ReplayDecides(s: Life, records: seq<Record>)
    requires s.log == Print(records) && forall i | 0 <= i < |records| :: ValidRecord(records[i])
    ensures Durable(s) <==> ApplyAll(map[], records) == s.vars
  {
    forall key, word
      ensures Load(s.log, key, word, map[]) == Complete(ApplyAll(map[], records))
    {
      ReadPrinted(records, key, word);
    }
    assert Load(s.log, [], [], map[]) == Complete(ApplyAll(map[], records));
  }

  /** A text without `~` that is read to its end is a safe load. */
  lemma TildeFreeLoadIsSafe(s: Life, e: Event)
    requires e.LoadFile? && TILDE !in e.text && TILDE !in e.word
    ensures Load(e.text, e.key, e.word, s.vars).Complete? ==> LoadSafe(s, e)
  {
    ReadNoTilde(e.text, e.key, e.word);
  }

  /** Loading the line `k=~` deletes k, and the next restart brings it back. */
  lemma DeletingLoadIsUndone(s: Life, k: Text, s': Life)
    requires Logged(s) && s.attached && k in s.vars
    requires LoadStep(s, LoadFile(Print([Drop(k)]), [], []), s')
    ensures s'.vars == s.vars - {k}
    ensures Load(s'.log, [], [], map[]) == Complete(s.vars)
  {
    hide Read, Print, ApplyAll, IsDump, LoadStep;
    var e := LoadFile(Print([Drop(k)]), [], []);
    ReadPrinted([Drop(k)], [], []);
    OneRecord(Shared(s.vars, []), Drop(k));
    LoadChanges(s, e, s');
    var records := LogAfterLoad(s, e, s');
    ReadPrinted(records, [], []);
    assert s.vars + (s.vars - {k}) == s.vars;
  }

  /** Loading the line `k=v` and a bad line behind it sets k, and the next restart sets it back. */
  lemma RefusedLoadIsUndone(s: Life, k: Text, v: int64, s': Life)
    requires Logged(s) && s.attached && ValidName(k)
    requires LoadStep(s, LoadFile(Print([Put(k, Num(v))]) + [EQUALS], [], []), s')
    ensures s'.vars == s.vars[k := Num(v)]
    ensures Load(s'.log, [], [], map[]) == Complete(s.vars)
  {
    var r, e := Put(k, Num(v)), LoadFile(Print([Put(k, Num(v))]) + [EQUALS], [], []);
    BadLine();
    hide Read, Print, ApplyAll, IsDump, LoadStep;
    ReadPrintedThen([r], [EQUALS], [], []);
    OneRecord(Shared(s.vars, []), r);
    LoadChanges(s, e, s');
    var records := LogAfterLoad(s, e, s');
    ReadPrinted(records, [], []);
    assert [r] + [] == [r];
  }

  /** A load that is not safe: a server that holds x = 1 loads the line `x=~`. */
  lemma UnsafeLoad()
    ensures var s := Life(map[[120] := Num(1)], Print([Put([120], Num(1))]), true);
            var e, s' := LoadFile(Print([Drop([120])]), [], []), Life(map[], s.log, true);
            && Logged(s) && LoadStep(s, e, s') && !LoadSafe(s, e)
            && Load(s'.log, [], [], map[]) == Complete(s.vars)
  {
    var x: Text, m: Variables := [120], map[[120] := Num(1)];
    var s := Life(m, Print([Put(x, Num(1))]), true);
    var e, s' := LoadFile(Print([Drop(x)]), [], []), Life(map[], s.log, true);
    OneRecord(Shared(map[], []), Put(x, Num(1)));
    assert LoggedBy(s, [Put(x, Num(1))]);
    hide Read, Print, ApplyAll, LoadSafe;
    ReadPrinted([Drop(x)], [], []);
    OneRecord(Shared(m, []), Drop(x));
    EmptyDump();
    assert s.log + [] == s.log;
    DeletingLoadIsUndone(s, x, s');
    LoadDurability(s, e, s');
  }

  lemma EmptyDump()
    ensures IsDump([], map[])
  {
    assert IsListing([]) && AsMap([]) == map[] && [] == Print([]);
  }

  lemma BadLine()
    ensures Read([EQUALS], [], []) == Reading([], AtBadLine)
    ensures SkipSpace([EQUALS]) == [EQUALS]
  {
  }

  lemma DetachedLoadKeepsLogged(s: Life, e: Event, s': Life)
    requires Logged(s) && !s.attached && e.LoadFile? && LoadStep(s, e, s')
    ensures Logged(s')
  {
    ApplyKeeps(s.vars, Read(e.text, e.key, e.word).records);
    assert LoggedBy(s, []);
    assert LoggedBy(s', []);
  }

  lemma RestartKeepsLogged(s: Life, e: Event, s': Life, limit: nat)
    requires Logged(s) && e.Restart? && Step(s, e, s', limit)
    ensures Logged(s')
    ensures s.attached ==> s' == s
  {
    var records :| LoggedBy(s, records);
    ReadPrinted(records, e.key, e.word);
    ApplyKeeps(map[], records);
    assert LoggedBy(s', records);
  }

  // ---------- Whole runs ----------

  /** A server started on a log of printed records, the empty log among them. */
  lemma StartIsLogged(records: seq<Record>, key: Text, word: Text)
    requires forall i | 0 <= i < |records| :: ValidRecord(records[i])
    ensures Load(Print(records), key, word, map[]) == Complete(ApplyAll(map[], records))
    ensures Logged(Restarted(Print(records), key, word)) && Restarted(Print(records), key, word).attached
  {
    ReadPrinted(records, key, word);
    ApplyKeeps(map[], records);
    assert LoggedBy(Restarted(Print(records), key, word), records);
  }

  /** Start-up keeps what is in front of a bad line of the log, and never sees what is behind it. */
  lemma StartStopsAtBadLine(records: seq<Record>, rest: Text, key: Text, word: Text)
    requires records != [] && forall i | 0 <= i < |records| :: ValidRecord(records[i])
    ensures var log := Print(records) + [61] + rest;
            && Load(log, key, word, map[]) != Overrun
            && Restarted(log, key, word) == Life(ApplyAll(map[], records), log, true)
  {
    hide Read;
    BadLineStops(records, rest, key, word, map[]);
  }

  /** A run from such a server. */
  ghost predicate Run(states: seq<Life>, events: seq<Event>, limit: nat) {
    && |states| == |events| + 1
    && Logged(states[0]) && states[0].attached
    && forall i | 0 <= i < |events| :: Step(states[i], events[i], states[i + 1], limit)
  }

  /** All loads before moment n are safe; a detached server has nothing to keep. */
  ghost predicate LoadsSafe(states: seq<Life>, events: seq<Event>, n: nat)
    requires |states| == |events| + 1 && n <= |events|
  {
    forall i | 0 <= i < n && events[i].LoadFile? && states[i].attached :: LoadSafe(states[i], events[i])
  }

  /** The last clear before moment i has had no restart after it. */
  ghost predicate ClearPending(events: seq<Event>, i: nat)
    requires i <= |events|
  {
    exists c :: 0 <= c < i && events[c].Clear? && forall j | c < j < i :: !events[j].Restart?
  }

  lemma PendingStep(events: seq<Event>, i: nat)
    requires i < |events|
    ensures ClearPending(events, i + 1) <==>
            events[i].Clear? || (!events[i].Restart? && ClearPending(events, i))
  {
  }

  /** Every step but an unsafe load keeps the invariant; a clear detaches the log and a restart
      attaches it. */
  lemma StepKeepsLogged(s: Life, e: Event, s': Life, limit: nat)
    requires Logged(s) && Step(s, e, s', limit)
    requires e.LoadFile? && s.attached ==> LoadSafe(s, e)
    ensures Logged(s')
    ensures s'.attached <==> e.Restart? || (s.attached && !e.Clear?)
  {
    hide Read, LoadSafe, Logged;
    match e
    case Serve(r) => ServeKeepsLogged(s, r, limit);
    case LoadFile(_, _, _) =>
      if s.attached {
        LoadDurability(s, e, s');
      } else {
        DetachedLoadKeepsLogged(s, e, s');
      }
    case Clear => ClearedIsLogged();
    case Restart(_, _) => RestartKeepsLogged(s, e, s', limit);
  }

  lemma ClearedIsLogged()
    ensures Logged(Life(map[], [], false))
  {
    assert LoggedBy(Life(map[], [], false), []);
  }

  lemma LastStep(states: seq<Life>, events: seq<Event>, limit: nat, i: nat)
    requires Run(states, events, limit) && i < |events| && LoadsSafe(states, events, i + 1)
    ensures LoadsSafe(states, events, i)
    ensures Step(states[i], events[i], states[i + 1], limit)
    ensures events[i].LoadFile? && states[i].attached ==> LoadSafe(states[i], events[i])
  {
    hide Step, Logged, LoadSafe;
  }

  lemma {:induction false} RunIsLogged(states: seq<Life>, events: seq<Event>, limit: nat, i: nat)
    requires Run(states, events, limit) && i <= |events| && LoadsSafe(states, events, i)
    ensures Logged(states[i])
    ensures states[i].attached <==> !ClearPending(events, i)
    decreases i
  {
    hide Logged, LoadsSafe, Step;
    if i > 0 {
      hide ClearPending, Run;
      LastStep(states, events, limit, i - 1);
      RunIsLogged(states, events, limit, i - 1);
      PendingStep(events, i - 1);
      hide LoadSafe;
      StepKeepsLogged(states[i - 1], events[i - 1], states[i], limit);
    }
  }

  /** Durability over every run: at each moment, replaying log.txt gives the live variables exactly
      when no clear is waiting for a restart, or there is nothing to lose. */
  lemma DurabilityOfRuns(states: seq<Life>, events: seq<Event>, limit: nat, i: nat)
    requires Run(states, events, limit) && i <= |events| && LoadsSafe(states, events, i)
    ensures Durable(states[i]) <==> !ClearPending(events, i) || states[i].vars == map[]
  {
    RunIsLogged(states, events, limit, i);
    LoggedIsDurable(states[i]);
  }

  /** Both buffers are written by the first scan, so nothing depends on what they held. */
  predicate FillsBuffers(t: Text) {
    var n := ScansetSpan(t);
    t == [] || (0 < n < |t| && t[n] == EQUALS && SkipSpace(t[n + 1..]) != [])
  }

  /** A file without `~` that is read to its end. */
  predicate PlainText(t: Text) {
    TILDE !in t && FillsBuffers(t) && Read(t, [], []).stop == AtEnd
  }

  lemma PlainTextReads(t: Text, key: Text, word: Text)
    requires PlainText(t)
    ensures Read(t, key, word) == Read(t, [], [])
  {
  }

  lemma PlainTextIsSafe(s: Life, e: Event)
    requires e.LoadFile? && PlainText(e.text)
    ensures LoadSafe(s, e)
  {
    PlainTextReads(e.text, e.key, e.word);
    ReadNoTilde(e.text, [], []);
  }

  lemma EmptyIsPlain()
    ensures PlainText([])
  {
  }

  lemma {:induction false} NoTildePrinted(records: seq<Record>)
    requires forall i | 0 <= i < |records| :: ValidRecord(records[i]) && records[i].Put?
    ensures TILDE !in Print(records)
    decreases |records|
  {
    if records != [] {
      NoTildePrinted(records[1..]);
    }
  }

  /** Every dump is a plain text. */
  lemma DumpIsPlain(text: Text, m: Variables)
    requires IsDump(text, m) && ValidVariables(m)
    ensures PlainText(text)
  {
    var records :| IsListing(records) && AsMap(records) == m && text == Print(records);
    ListingIsValid(records);
    NoTildePrinted(records);
    ReadPrinted(records, [], []);
    if records != [] {
      FirstLineFills(records[0], Print(records[1..]));
    }
  }

  lemma LineFills(k: Text, f: Text, space: byte, rest: Text)
    requires k != [] && forall i | 0 <= i < |k| :: InScanset(k[i])
    requires f != [] && forall i | 0 <= i < |f| :: !IsSpace(f[i])
    requires IsSpace(space)
    ensures FillsBuffers(k + [EQUALS] + (f + [space] + rest))
  {
    hide ScansetSpan, SkipSpace, WordSpan, InScanset, IsSpace;
    ScanKey(k, f + [space] + rest);
    ScanWord(f, space, rest);
  }

  lemma FirstLineFills(r: Record, rest: Text)
    requires ValidRecord(r)
    ensures FillsBuffers(PrintRecord(r) + rest)
  {
    hide FillsBuffers;
    FieldShape(r);
    LineFills(r.key, Field(r), NEWLINE, rest);
    LineParts(r, rest);
  }

  /** Requests, restarts, clears, and loads of plain files: whatever the order, replaying log.txt gives
      the live variables exactly when no clear is waiting for a restart, or there is nothing to lose. */
  lemma DurabilityOfPlainRuns(states: seq<Life>, events: seq<Event>, limit: nat, i: nat)
    requires Run(states, events, limit) && i <= |events|
    requires forall j | 0 <= j < i && events[j].LoadFile? :: PlainText(events[j].text)
    ensures Durable(states[i]) <==> !ClearPending(events, i) || states[i].vars == map[]
  {
    forall j | 0 <= j < i && events[j].LoadFile?
      ensures LoadSafe(states[j], events[j])
    {
      PlainTextIsSafe(states[j], events[j]);
    }
    DurabilityOfRuns(states, events, limit, i);
  }

  /** Without a clear every moment of a run is durable, and a restart changes nothing. */
  lemma RestartIsInvisible(states: seq<Life>, events: seq<Event>, limit: nat, i: nat)
    requires Run(states, events, limit) && i < |events| && LoadsSafe(states, events, i)
    requires forall j | 0 <= j < i :: !events[j].Clear?
    ensures Durable(states[i])
    ensures events[i].Restart? ==> states[i + 1] == states[i]
  {
    RunIsLogged(states, events, limit, i);
    LoggedIsDurable(states[i]);
    assert Step(states[i], events[i], states[i + 1], limit);
    if events[i].Restart? {
      RestartKeepsLogged(states[i], events[i], states[i + 1], limit);
    }
  }

  /** After a clear, a variable that is set and reported as set is gone after the next restart. */
  lemma ClearLosesLaterWork(limit: nat)
    ensures var request := SetName(Some([120]), [121]);
            var (s, reply) := ServeOne(Life(map[], [], false), request, limit);
            reply == Done && s.vars == map[[120] := Ref([121])] && Load(s.log, [], [], map[]) == Complete(map[])
  {
  }
}
