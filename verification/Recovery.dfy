/** What a start after a crash finds. Store and log change in separate steps of a section, and a load
    dumps the store line by line; so at a crash the log can lag behind the variables. */
module Recovery {
  import opened Types
  import opened LogText
  import opened Listing
  import opened Requests
  import opened Durability
  import opened CriticalSections
  import opened Sections
  import opened Serialisation

  /** A start-up that reads this log finds these variables, whatever its scan buffers hold. */
  ghost predicate Recovers(log: Text, m: Variables) {
    forall key, word :: Load(log, key, word, map[]) == Complete(m)
  }

  /** What a restart finds of a server whose log is in order: nothing that came behind a clear. */
  function Shown(s: Life): Variables {
    if s.attached then s.vars else map[]
  }

  lemma LoggedRecovers(s: Life)
    requires Logged(s)
    ensures Recovers(s.log, Shown(s))
  {
    var records :| LoggedBy(s, records);
    forall key, word
      ensures Load(s.log, key, word, map[]) == Complete(Shown(s))
    {
      ReadPrinted(records, key, word);
    }
  }

  // ---------- Serial executions ----------

  /** Loads are of plain files. */
  ghost predicate PlainJobs(jobs: seq<Job>) {
    forall i | 0 <= i < |jobs| :: Acceptable(jobs[i]) && (jobs[i].LoadText? ==> PlainText(jobs[i].text))
  }

  lemma EffectKeepsLogged(s: Life, job: Job, limit: nat)
    requires Logged(s) && Acceptable(job) && (job.LoadText? ==> PlainText(job.text))
    ensures Logged(Effect(s, job, limit).0)
    ensures Effect(s, job, limit).0.attached <==> s.attached && !job.ClearStore?
  {
    hide Logged, PlainText, LoadSafe, LoadStep;
    match job
    case Ask(r) => ServeKeepsLogged(s, r, limit);
    case LoadText(text, key, word, _) =>
      LoadIsStep(s, job, limit);
      PlainTextIsSafe(s, LoadFile(text, key, word));
      StepKeepsLogged(s, LoadFile(text, key, word), Effect(s, job, limit).0, limit);
    case ClearStore => ClearedIsLogged();
  }

  lemma {:induction false} SerialLogged(life: Life, jobs: seq<Job>, order: seq<nat>, limit: nat)
    requires Logged(life) && PlainJobs(jobs) && Indices(order, |jobs|)
    ensures Logged(Serial(life, jobs, order, limit))
  {
    hide Logged, Acceptable, PlainText, Effect;
    if order != [] {
      var last := |order| - 1;
      SerialLogged(life, jobs, order[..last], limit);
      EffectKeepsLogged(Serial(life, jobs, order[..last], limit), jobs[order[last]], limit);
    }
  }

  // ---------- The log inside a section ----------

  /** The rest of a request's section only adds to the log. */
  lemma {:induction false} SectionAppends(sh: Shared, r: Request, l: Local, limit: nat)
    requires Inside(l) && Suits(r, l)
    ensures sh.log <= RunToEnd(sh, r, l, limit).0.log
    decreases Rank(l), limit - l.iterations
  {
    if l.pc != ToRelease {
      MicroAdvances(sh, r, l, limit);
      var (sh', l') := Micro(sh, r, l, limit);
      SectionAppends(sh', r, l', limit);
    }
  }

  lemma OneMicro(sh: Shared, r: Request, l: Local, limit: nat)
    requires Inside(l) && l.pc != ToRelease && Suits(r, l)
    ensures var (sh', l') := Micro(sh, r, l, limit);
            && Inside(l') && Suits(r, l')
            && RunToEnd(sh, r, l, limit) == RunToEnd(sh', r, l', limit)
            && sh.log <= sh'.log
  {
    MicroAdvances(sh, r, l, limit);
  }

  /** A step leaves the log alone, or brings it to what it is at the end of the section. */
  lemma MicroLogsAtOnce(sh: Shared, r: Request, l: Local, limit: nat)
    requires Inside(l) && l.pc != ToRelease && Suits(r, l)
    ensures var (sh', l') := Micro(sh, r, l, limit);
            sh'.log == sh.log || sh'.log == RunToEnd(sh, r, l, limit).0.log
  {
    OneMicro(sh, r, l, limit);
    var (sh', l') := Micro(sh, r, l, limit);
    if l'.pc == Reread {
      OneMicro(sh', r, l', limit);
      var (sh2, l2) := Micro(sh', r, l', limit);
      assert RunToEnd(sh2, r, l2, limit) == (sh', l2);
    }
  }

  /** The same on the life of a server: before its line a request's section has the old log, and behind
      it the final one. */
  lemma AskLogs(s: Life, r: Request, l: Local, limit: nat, first: Text)
    requires Inside(l) && l.pc != ToRelease && Suits(r, l)
    requires s.log == first || s.log == ToEnd(s, Ask(r), Asking(l), limit).0.log
    ensures var (s', st') := Act(s, Ask(r), Asking(l), limit);
            && s'.attached == s.attached
            && (s'.log == first || s'.log == ToEnd(s, Ask(r), Asking(l), limit).0.log)
  {
    hide Micro, Suits, ReplyOf;
    var sh := Shared(s.vars, s.log);
    AskToEnd(s, s.log, r, l, limit);
    MicroLogsAtOnce(sh, r, l, limit);
    OneMicro(sh, r, l, limit);
    var (sh', l') := Micro(sh, r, l, limit);
    SectionAppends(sh', r, l', limit);
  }

  /** j lines of the dump behind a load are in the log. */
  predicate DumpedUpto(now: Life, before: Life, lines: seq<Record>, rest: seq<Record>, j: nat) {
    j <= |lines| && rest == lines[j..] && now.log == Appended(before, Print(lines[..j])).log
  }

  /** The log while a section is under way, for the life of the server before it and behind it. */
  ghost predicate LogUnderWay(now: Life, job: Job, st: Stage, before: Life, after: Life) {
    match st
    case Asking(_) => now.attached == before.attached && (now.log == before.log || now.log == after.log)
    case Applying(_) => now.attached == before.attached && now.log == before.log
    case Dumping(rest) =>
      && job.LoadText? && now.attached == before.attached && now.vars == after.vars
      && exists j: nat :: DumpedUpto(now, before, job.lines(after.vars), rest, j)
    case Clearing => now.log == before.log
    case Unlinking => now.log == before.log
    case _ => true
  }

  lemma DumpBegins(now: Life, job: Job, before: Life, after: Life, limit: nat)
    requires job.LoadText? && now.attached == before.attached && now.log == before.log
    requires Read(job.text, job.key, job.word).stop == AtEnd
    requires ToEnd(now, job, Applying([]), limit).0 == after
    ensures LogUnderWay(now, job, Dumping(job.lines(now.vars)), before, after)
  {
    hide Read;
    ApplyingToEnd(now, job, [], limit);
    DumpingToEnd(now, job, job.lines(now.vars), limit);
    var lines := job.lines(now.vars);
    assert lines[..0] == [] && Print([]) == [] && before.log + [] == before.log;
    assert DumpedUpto(now, before, lines, lines, 0);
  }

  lemma OneLineMore(log: Text, lines: seq<Record>, j: nat)
    requires j < |lines|
    ensures log + Print(lines[..j]) + PrintRecord(lines[j]) == log + Print(lines[..j + 1])
  {
    hide PrintRecord;
    assert lines[..j + 1] == lines[..j] + [lines[j]];
    PrintConcat(lines[..j], [lines[j]]);
    assert Print([lines[j]]) == PrintRecord(lines[j]);
  }

  lemma DumpGoesOn(now: Life, job: Job, rest: seq<Record>, before: Life, after: Life)
    requires LogUnderWay(now, job, Dumping(rest), before, after) && rest != []
    ensures LogUnderWay(Appended(now, PrintRecord(rest[0])), job, Dumping(rest[1..]), before, after)
  {
    hide Print, PrintRecord;
    var lines := job.lines(after.vars);
    var j: nat :| DumpedUpto(now, before, lines, rest, j);
    OneLineMore(before.log, lines, j);
    assert DumpedUpto(Appended(now, PrintRecord(rest[0])), before, lines, rest[1..], j + 1);
  }

  lemma LogKept(now: Life, job: Job, st: Stage, before: Life, after: Life, limit: nat)
    requires Within(st) && Belongs(job, st) && !AtRelease(st)
    requires LogUnderWay(now, job, st, before, after) && ToEnd(now, job, st, limit).0 == after
    ensures var (now', st') := Act(now, job, st, limit); LogUnderWay(now', job, st', before, after)
  {
    hide ToEnd, Suits, DumpedUpto, Print;
    match st
    case Asking(l) =>
      hide LogUnderWay, Micro;
      AskUnderWay(now, job.request, l, before, after, limit);
    case Applying(rest) =>
      if rest == [] && Read(job.text, job.key, job.word).stop == AtEnd {
        DumpBegins(now, job, before, after, limit);
      }
    case Dumping(rest) =>
      if rest != [] {
        DumpGoesOn(now, job, rest, before, after);
      }
    case _ =>
  }

  lemma AskUnderWay(now: Life, r: Request, l: Local, before: Life, after: Life, limit: nat)
    requires Inside(l) && l.pc != ToRelease && Suits(r, l)
    requires LogUnderWay(now, Ask(r), Asking(l), before, after) && ToEnd(now, Ask(r), Asking(l), limit).0 == after
    ensures var (now', st') := Act(now, Ask(r), Asking(l), limit); LogUnderWay(now', Ask(r), st', before, after)
  {
    hide ToEnd, Micro, Suits;
    AskLogs(now, r, l, limit, before.log);
  }

  // ---------- Runs ----------

  function LastBefore(s: Machine, life: Life, jobs: seq<Job>, limit: nat): Life
    requires Indices(s.order, |jobs|) && s.order != []
  {
    Serial(life, jobs, s.order[..|s.order| - 1], limit)
  }

  ghost predicate LogInOrder(s: Machine, life: Life, jobs: seq<Job>, limit: nat)
    requires Orderly(s, jobs)
  {
    s.locked ==>
      var i := s.order[|s.order| - 1];
      LogUnderWay(s.life, jobs[i], s.threads[i], LastBefore(s, life, jobs, limit), Serial(life, jobs, s.order, limit))
  }

  lemma LogInOrderStep(s: Machine, e: Move, life: Life, jobs: seq<Job>, limit: nat)
    requires Inv(s, life, jobs, limit) && LogInOrder(s, life, jobs, limit) && Enabled(s, e, jobs)
    requires Orderly(After(s, e, jobs, limit), jobs)
    ensures LogInOrder(After(s, e, jobs, limit), life, jobs, limit)
  {
    hide Acceptable, Act, Belongs, ReplyAt, Effect, ToEnd, Answered, Read, ApplyAll, Entry, Fresh;
    var s' := After(s, e, jobs, limit);
    match e
    case Acquire(i) =>
      assert s'.order[..|s.order|] == s.order;
    case Go(i) =>
      assert Within(s.threads[i]);
      hide LogUnderWay;
      LogKept(s.life, jobs[i], s.threads[i], LastBefore(s, life, jobs, limit), Serial(life, jobs, s.order, limit), limit);
    case Release(i) => assert Within(s.threads[i]);
  }

  lemma {:induction false} LogAlong(states: seq<Machine>, moves: seq<Move>, life: Life, jobs: seq<Job>, limit: nat, k: nat)
    requires Interleaving(states, moves, life, jobs, limit) && k < |states|
    ensures Inv(states[k], life, jobs, limit) && LogInOrder(states[k], life, jobs, limit)
  {
    hide LogUnderWay, Enabled, After, OnTrack, Answered;
    InvAlong(states, moves, life, jobs, limit, k);
    if k > 0 {
      LogAlong(states, moves, life, jobs, limit, k - 1);
      MoveOf(states, moves, life, jobs, limit, k - 1);
      LogInOrderStep(states[k - 1], moves[k - 1], life, jobs, limit);
    }
  }

  // ---------- Crashes ----------

  function View(m: Variables, k: Text): Option<Value> {
    if k in m then Some(m[k]) else None
  }

  /** Each variable is as in a or as in b. */
  ghost predicate Between(m: Variables, a: Variables, b: Variables) {
    forall k :: View(m, k) == View(a, k) || View(m, k) == View(b, k)
  }

  /** Some lines of a dump behind an orderly log. */
  lemma PartOfDump(before: Life, after: Variables, lines: seq<Record>, j: nat) returns (m: Variables)
    requires Logged(before) && before.attached && ValidVariables(after)
    requires IsListing(lines) && AsMap(lines) == after && j <= |lines|
    ensures Recovers(before.log + Print(lines[..j]), m) && Between(m, before.vars, after)
  {
    var records :| LoggedBy(before, records);
    var part := lines[..j];
    m := before.vars + AsMap(part);
    ListingIsValid(lines);
    hide ApplyAll, AsMap, Print, Read, Between;
    PrintConcat(records, part);
    ApplyConcat(map[], records, part);
    ApplyOverrides(before.vars, part);
    forall key, word
      ensures Load(before.log + Print(part), key, word, map[]) == Complete(m)
    {
      ReadPrinted(records + part, key, word);
    }
    PartIsBetween(before.vars, lines, j);
  }

  lemma PartIsBetween(base: Variables, lines: seq<Record>, j: nat)
    requires IsListing(lines) && j <= |lines|
    ensures IsListing(lines[..j]) && Between(base + AsMap(lines[..j]), base, AsMap(lines))
  {
    hide ApplyAll, AsMap;
    var part := lines[..j];
    AsMapEntries(part);
    AsMapEntries(lines);
    forall k
      ensures View(base + AsMap(part), k) == View(base, k) || View(base + AsMap(part), k) == View(AsMap(lines), k)
    {
      if k in AsMap(part) {
        var i :| 0 <= i < |part| && part[i].key == k;
        assert lines[i] == part[i];
      }
    }
  }

  /** What a crash inside a section leaves. */
  ghost predicate CrashLeaves(log: Text, job: Job, before: Life, after: Life) {
    exists m ::
      && Recovers(log, m) && Between(m, Shown(before), Shown(after))
      && (!job.LoadText? ==> m == Shown(before) || m == Shown(after))
  }

  lemma WholeOrNothing(log: Text, job: Job, before: Life, after: Life)
    requires Logged(before) && Logged(after) && (log == before.log || log == after.log)
    ensures CrashLeaves(log, job, before, after)
  {
    hide Logged, Recovers;
    LoggedRecovers(before);
    LoggedRecovers(after);
    var m := if log == before.log then Shown(before) else Shown(after);
    assert Recovers(log, m) && Between(m, Shown(before), Shown(after));
  }

  lemma CrashInSection(now: Life, job: Job, st: Stage, before: Life, after: Life, limit: nat)
    requires Logged(before) && Logged(after) && Acceptable(job) && after == Effect(before, job, limit).0
    requires Within(st) && Belongs(job, st) && LogUnderWay(now, job, st, before, after) && ToEnd(now, job, st, limit).0 == after
    ensures CrashLeaves(now.log, job, before, after)
  {
    hide Logged, CrashLeaves, Recovers, Between;
    if st.Dumping? {
      var lines := job.lines(after.vars);
      var j: nat :| DumpedUpto(now, before, lines, st.rest, j);
      LoadAttached(before, job, limit);
      if before.attached {
        LoggedValid(after);
        var m := PartOfDump(before, after.vars, lines, j);
        LeavesPart(now.log, job, before, after, m);
      } else {
        WholeOrNothing(now.log, job, before, after);
      }
    } else {
      assert st.Leaving? ==> now == after;
      WholeOrNothing(now.log, job, before, after);
    }
  }

  lemma LeavesPart(log: Text, job: Job, before: Life, after: Life, m: Variables)
    requires job.LoadText? && before.attached && after.attached
    requires Recovers(log, m) && Between(m, before.vars, after.vars)
    ensures CrashLeaves(log, job, before, after)
  {
  }

  lemma LoadAttached(s: Life, job: Job, limit: nat)
    requires job.LoadText?
    ensures Effect(s, job, limit).0.attached == s.attached
  {
  }

  lemma LoggedValid(s: Life)
    requires Logged(s)
    ensures ValidVariables(s.vars)
  {
  }

  /** x and y with these numbers, and a log that says so. */
  function TwoNumbers(v: int64): (records: seq<Record>)
    ensures |records| == 2
  {
    [Put([120], Num(v)), Put([121], Num(v))]
  }

  function HoldingBoth(v: int64, w: int64): Variables {
    map[[120] := Num(v), [121] := Num(w)]
  }

  lemma TwoNumbersApplied(m: Variables, v: int64)
    requires m == map[] || m == HoldingBoth(1, 1)
    ensures forall i | 0 <= i < |TwoNumbers(v)| :: ValidRecord(TwoNumbers(v)[i])
    ensures ApplyAll(m, TwoNumbers(v)) == HoldingBoth(v, v)
    ensures ValidVariables(HoldingBoth(v, v))
  {
    var x, y := Put([120], Num(v)), Put([121], Num(v));
    assert TwoNumbers(v)[1..] == [y];
    assert ApplyAll(m, TwoNumbers(v)) == ApplyAll(ApplyRecord(m, x), [y]);
    OneRecord(Shared(ApplyRecord(m, x), []), y);
    assert m[[120] := Num(v)][[121] := Num(v)] == HoldingBoth(v, v);
  }

  lemma MixedLog()
    ensures var line := Put([120], Num(2));
            Recovers(Print(TwoNumbers(1)) + PrintRecord(line), HoldingBoth(2, 1))
  {
    var line := Put([120], Num(2));
    TwoNumbersApplied(map[], 1);
    TwoNumbersApplied(map[], 2);
    assert line == TwoNumbers(2)[0];
    hide TwoNumbers, Read, ApplyAll, Print, PrintRecord;
    OneRecord(Shared(HoldingBoth(1, 1), []), line);
    PrintConcat(TwoNumbers(1), [line]);
    ApplyConcat(map[], TwoNumbers(1), [line]);
    assert HoldingBoth(1, 1)[[120] := Num(2)] == HoldingBoth(2, 1);
    forall key, word
      ensures Load(Print(TwoNumbers(1)) + PrintRecord(line), key, word, map[]) == Complete(HoldingBoth(2, 1))
    {
      ReadPrinted(TwoNumbers(1) + [line], key, word);
    }
  }

  /** A mixture does occur: x and y are 1, a file that sets both to 2 is loaded, and the first line of the
      dump is the one for x. A crash behind that line leaves x as 2 and y as 1. */
  lemma MixedCrash(job: Job, limit: nat)
    requires job.LoadText? && Acceptable(job) && job.text == Print(TwoNumbers(2))
    requires job.lines(HoldingBoth(2, 2)) != [] && job.lines(HoldingBoth(2, 2))[0] == Put([120], Num(2))
    ensures var s := Life(HoldingBoth(1, 1), Print(TwoNumbers(1)), true);
            var dumping, st := s.(vars := HoldingBoth(2, 2)), Dumping(job.lines(HoldingBoth(2, 2)));
            && Logged(s)
            && ToEnd(s, job, EntryStage(job), limit) == ToEnd(dumping, job, st, limit)
            && Recovers(Act(dumping, job, st, limit).0.log, HoldingBoth(2, 1))
  {
    hide TwoNumbers, HoldingBoth, Read, ApplyAll, Print, PrintRecord, ToEnd, Recovers, Logged, Acceptable;
    var s := Life(HoldingBoth(1, 1), Print(TwoNumbers(1)), true);
    BothAreLogged();
    TwoNumbersApplied(HoldingBoth(1, 1), 2);
    ReadPrinted(TwoNumbers(2), job.key, job.word);
    ApplyingToEnd(s, job, TwoNumbers(2), limit);
    MixedLog();
  }

  lemma BothAreLogged()
    ensures Logged(Life(HoldingBoth(1, 1), Print(TwoNumbers(1)), true))
  {
    TwoNumbersApplied(map[], 1);
    hide TwoNumbers, HoldingBoth, ApplyAll, Print;
    assert LoggedBy(Life(HoldingBoth(1, 1), Print(TwoNumbers(1)), true), TwoNumbers(1));
  }

  /** Crash recovery: at every moment of every interleaving of requests, loads of plain files and clears,
      replaying the log gives the variables of the serial execution with or without the last section,
      which has not been answered; if that is a load, each variable may be either way. Whenever the
      mutex is free, the replay gives exactly the live variables, or nothing if a clear has detached
      the log. */
  lemma CrashRecovery(states: seq<Machine>, moves: seq<Move>, life: Life, jobs: seq<Job>, limit: nat, k: nat)
    requires Interleaving(states, moves, life, jobs, limit) && k < |states| && Logged(life) && PlainJobs(jobs)
    ensures var s := states[k];
            && |s.threads| == |jobs| && Indices(s.order, |jobs|)
            && (!s.locked ==> s.life == Serial(life, jobs, s.order, limit) && Recovers(s.life.log, Shown(s.life)))
            && (s.locked ==>
                  && s.order != [] && !s.threads[s.order[|s.order| - 1]].Gone?
                  && CrashLeaves(s.life.log, jobs[s.order[|s.order| - 1]],
                                 LastBefore(s, life, jobs, limit), Serial(life, jobs, s.order, limit)))
  {
    hide Logged, Recovers, Answered, LogUnderWay, CrashLeaves, Acceptable, PlainText, Effect, ToEnd;
    LogAlong(states, moves, life, jobs, limit, k);
    var s := states[k];
    SerialLogged(life, jobs, s.order, limit);
    if s.locked {
      var i := s.order[|s.order| - 1];
      SerialLogged(life, jobs, s.order[..|s.order| - 1], limit);
      CrashInSection(s.life, jobs[i], s.threads[i], LastBefore(s, life, jobs, limit), Serial(life, jobs, s.order, limit), limit);
    } else {
      LoggedRecovers(s.life);
    }
  }
}
