/** All sections under kvs_mutex that change variables or log - requests, loads and clears - as steps on
    the life of the server, and what each amounts to when it runs by itself. */
module Sections {
  import opened Types
  import opened LogText
  import opened Listing
  import opened Requests
  import opened Durability
  import opened CriticalSections

  /** A load names its file's text, what the scan buffers hold, and in which order the store that it
      leaves is dumped. */
  datatype Job =
    | Ask(request: Request)
    | LoadText(text: Text, key: Text, word: Text, lines: Variables -> seq<Record>)
    | ClearStore

  /** Where a thread is: before its section, in it, or behind it with its reply. */
  datatype Stage =
    | Before
    | Asking(l: Local)
    | Applying(rest: seq<Record>)    // fscanf loop of load_key_value_store
    | Dumping(rest: seq<Record>)     // dprintf loop of log_key_value_store
    | Clearing                       // clear_key_value_store
    | Unlinking                      // clear_log
    | Leaving(reply: Reply)
    | Gone(reply: Reply)

  predicate Within(st: Stage) {
    !st.Before? && !st.Gone?
  }

  predicate AtRelease(st: Stage): (end: bool)
    ensures end ==> Within(st)
  {
    st.Leaving? || (st.Asking? && st.l.pc == ToRelease)
  }

  ghost predicate Acceptable(job: Job) {
    match job
    case Ask(r) => TakesLock(r)
    case LoadText(text, key, word, lines) =>
      && Read(text, key, word).stop != AtOverrun
      && forall m :: IsListing(lines(m)) && AsMap(lines(m)) == m
    case ClearStore => true
  }

  predicate Belongs(job: Job, st: Stage) {
    match st
    case Asking(l) => job.Ask? && Inside(l) && Suits(job.request, l)
    case Applying(_) => job.LoadText?
    case Dumping(_) => job.LoadText?
    case Clearing => job.ClearStore?
    case Unlinking => job.ClearStore?
    case _ => true
  }

  function EntryStage(job: Job): Stage
    requires Acceptable(job)
  {
    match job
    case Ask(r) => Asking(Entry(r, Fresh(r)))
    case LoadText(text, key, word, _) => Applying(Read(text, key, word).records)
    case ClearStore => Clearing
  }

  lemma EntryBelongs(job: Job)
    requires Acceptable(job)
    ensures var st := EntryStage(job); Within(st) && Belongs(job, st) && !AtRelease(st)
  {
    if job.Ask? {
      EntryIsInside(job.request, Fresh(job.request));
    }
  }

  /** A write through the log descriptor. */
  function Appended(s: Life, text: Text): Life {
    if s.attached then s.(log := s.log + text) else s
  }

  /** One step inside. */
  function Act(s: Life, job: Job, st: Stage, limit: nat): (Life, Stage)
    requires Within(st) && Belongs(job, st) && !AtRelease(st)
  {
    match st
    case Asking(l) =>
      var (sh, l') := Micro(Shared(s.vars, s.log), job.request, l, limit);
      (Life(sh.vars, if s.attached then sh.log else s.log, s.attached), Asking(l'))
    case Applying(rest) =>
      if rest != [] then (s.(vars := ApplyRecord(s.vars, rest[0])), Applying(rest[1..]))
      else if Read(job.text, job.key, job.word).stop == AtEnd then (s, Dumping(job.lines(s.vars)))
      else (s, Leaving(Failed(EINVAL)))
    case Dumping(rest) =>
      if rest != [] then (Appended(s, PrintRecord(rest[0])), Dumping(rest[1..])) else (s, Leaving(Done))
    case Clearing => (s.(vars := map[]), Unlinking)
    case Unlinking => (Life(s.vars, [], false), Leaving(Done))
  }

  function Phase(st: Stage): nat {
    if st.Applying? || st.Clearing? then 2 else if st.Dumping? || st.Unlinking? then 1 else 0
  }

  function Left(st: Stage): nat {
    match st
    case Asking(l) => Rank(l)
    case Applying(rest) => |rest|
    case Dumping(rest) => |rest|
    case _ => 0
  }

  function Iterations(st: Stage): nat {
    if st.Asking? then st.l.iterations else 0
  }

  lemma ActAdvances(s: Life, job: Job, st: Stage, limit: nat)
    requires Within(st) && Belongs(job, st) && !AtRelease(st)
    ensures var st' := Act(s, job, st, limit).1;
            && Within(st') && Belongs(job, st')
            && (|| Phase(st') < Phase(st)
                || (Phase(st') == Phase(st) && Left(st') < Left(st))
                || (Phase(st') == Phase(st) && Left(st') == Left(st)
                    && limit - Iterations(st') < limit - Iterations(st) && Iterations(st') < limit))
  {
    hide Micro, Rank, Suits;
    if st.Asking? {
      MicroAdvances(Shared(s.vars, s.log), job.request, st.l, limit);
    }
  }

  function ReplyAt(job: Job, st: Stage): Reply
    requires AtRelease(st) && Belongs(job, st)
  {
    if st.Leaving? then st.reply else ReplyOf(job.request, st.l)
  }

  /** The section on its own from here to its end. */
  function ToEnd(s: Life, job: Job, st: Stage, limit: nat): (Life, Reply)
    requires Within(st) && Belongs(job, st)
    decreases Phase(st), Left(st), limit - Iterations(st)
  {
    if AtRelease(st) then (s, ReplyAt(job, st))
    else
      ActAdvances(s, job, st, limit);
      var (s', st') := Act(s, job, st, limit);
      ToEnd(s', job, st', limit)
  }

  // ---------- What a section amounts to ----------

  function Effect(s: Life, job: Job, limit: nat): (Life, Reply) {
    match job
    case Ask(r) => ServeOne(s, r, limit)
    case LoadText(text, key, word, lines) =>
      var reading := Read(text, key, word);
      var loaded := s.(vars := ApplyAll(s.vars, reading.records));
      if reading.stop == AtEnd then (Appended(loaded, Print(lines(loaded.vars))), Done) else (loaded, Failed(EINVAL))
    case ClearStore => (Life(map[], [], false), Done)
  }

  lemma MicroLogFree(m: Variables, log1: Text, log2: Text, r: Request, l: Local, limit: nat)
    requires Inside(l) && l.pc != ToRelease && Suits(r, l)
    ensures var (sh1, l1) := Micro(Shared(m, log1), r, l, limit);
            var (sh2, l2) := Micro(Shared(m, log2), r, l, limit);
            sh1.vars == sh2.vars && l1 == l2
  {
  }

  /** A request's section, on a log that is followed only while the descriptor is attached. */
  lemma {:induction false} AskToEnd(s: Life, log: Text, r: Request, l: Local, limit: nat)
    requires Inside(l) && Suits(r, l) && (s.attached ==> log == s.log)
    ensures var (sh, l') := RunToEnd(Shared(s.vars, log), r, l, limit);
            ToEnd(s, Ask(r), Asking(l), limit) == (Life(sh.vars, if s.attached then sh.log else s.log, s.attached), ReplyOf(r, l'))
    decreases Rank(l), limit - l.iterations
  {
    hide Micro, Rank, Suits, ReplyOf;
    if l.pc != ToRelease {
      MicroAdvances(Shared(s.vars, log), r, l, limit);
      MicroAdvances(Shared(s.vars, s.log), r, l, limit);
      MicroLogFree(s.vars, log, s.log, r, l, limit);
      var (sh, l') := Micro(Shared(s.vars, log), r, l, limit);
      var (s', st') := Act(s, Ask(r), Asking(l), limit);
      ActAdvances(s, Ask(r), Asking(l), limit);
      AskToEnd(s', sh.log, r, l', limit);
    }
  }

  lemma {:induction false} ApplyingToEnd(s: Life, job: Job, rest: seq<Record>, limit: nat)
    requires job.LoadText?
    ensures var s' := s.(vars := ApplyAll(s.vars, rest));
            ToEnd(s, job, Applying(rest), limit) ==
            if Read(job.text, job.key, job.word).stop == AtEnd then ToEnd(s', job, Dumping(job.lines(s'.vars)), limit)
            else (s', Failed(EINVAL))
    decreases |rest|
  {
    if rest != [] {
      ApplyingToEnd(s.(vars := ApplyRecord(s.vars, rest[0])), job, rest[1..], limit);
    }
  }

  lemma {:induction false} DumpingToEnd(s: Life, job: Job, rest: seq<Record>, limit: nat)
    requires job.LoadText?
    ensures ToEnd(s, job, Dumping(rest), limit) == (Appended(s, Print(rest)), Done)
    decreases |rest|
  {
    if rest == [] {
      assert s.log + [] == s.log;
    } else {
      DumpingToEnd(Appended(s, PrintRecord(rest[0])), job, rest[1..], limit);
      assert s.log + PrintRecord(rest[0]) + Print(rest[1..]) == s.log + Print(rest);
    }
  }

  /** Refinement: a section that is not interrupted does what its effect says. */
  lemma SectionIsEffect(s: Life, job: Job, limit: nat)
    requires Acceptable(job)
    ensures var st := EntryStage(job);
            Within(st) && Belongs(job, st) && ToEnd(s, job, st, limit) == Effect(s, job, limit)
  {
    hide Read, RunToEnd, Entry, Fresh, Execute, ApplyAll;
    EntryBelongs(job);
    match job
    case Ask(r) =>
      SectionIsRequest(Shared(s.vars, s.log), r, limit);
      AskToEnd(s, s.log, r, Entry(r, Fresh(r)), limit);
    case LoadText(text, key, word, lines) =>
      ApplyingToEnd(s, job, Read(text, key, word).records, limit);
      DumpingToEnd(s.(vars := ApplyAll(s.vars, Read(text, key, word).records)), job,
                   lines(ApplyAll(s.vars, Read(text, key, word).records)), limit);
    case ClearStore =>
      assert ToEnd(Life(map[], [], false), job, Leaving(Done), limit) == (Life(map[], [], false), Done);
      assert ToEnd(s.(vars := map[]), job, Unlinking, limit) == (Life(map[], [], false), Done);
  }

  /** The effect of a load is one of the steps that Durability allows, and its reply says how it ended. */
  lemma LoadIsStep(s: Life, job: Job, limit: nat)
    requires Acceptable(job) && job.LoadText?
    ensures LoadStep(s, LoadFile(job.text, job.key, job.word), Effect(s, job, limit).0)
    ensures Effect(s, job, limit).1 == if Load(job.text, job.key, job.word, s.vars).Complete? then Done else Failed(EINVAL)
  {
    hide Read;
    var m := ApplyAll(s.vars, Read(job.text, job.key, job.word).records);
    assert IsDump(Print(job.lines(m)), m);
  }

  /** The effects of a clear and of a request are steps as well. */
  lemma OtherIsStep(s: Life, job: Job, limit: nat)
    requires !job.LoadText?
    ensures Step(s, if job.Ask? then Serve(job.request) else Clear, Effect(s, job, limit).0, limit)
    ensures job.ClearStore? ==>
              var (s', reply) := Effect(s, job, limit);
              s'.vars == map[] && s'.log == [] && !s'.attached && reply == Done
  {
    hide Execute;
  }
}
