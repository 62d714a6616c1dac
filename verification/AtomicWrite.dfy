/**
 Atomic file replacement as a step machine: any number of writers in one directory, interleaved at
 system-call granularity, with short writes and a failure or an interrupt possible at every call.
 */
module AtomicWrite {
  import opened Bytes

  // -------------------------------------------------------------- file system

  /** One directory: names point to inodes, inodes hold bytes, `next` is the next unused inode. */
  datatype FileSystem = FileSystem(dir: map<string, nat>, content: map<nat, bytes>, next: nat)

  /** Every name has a file, inodes in use are below `next`, and no two names share an inode. */
  ghost predicate Sound(fs: FileSystem) {
    && (forall n | n in fs.dir :: fs.dir[n] in fs.content)
    && (forall i | i in fs.content :: i < fs.next)
    && (forall m, n | m in fs.dir && n in fs.dir && fs.dir[m] == fs.dir[n] :: m == n)
  }

  function Read(fs: FileSystem, name: string): Option<bytes> {
    if name in fs.dir && fs.dir[name] in fs.content then Some(fs.content[fs.dir[name]]) else None
  }

  /** `os.open` with O_CREAT and O_TRUNC: an existing file is emptied, a missing one is created. */
  function OpenTruncated(fs: FileSystem, name: string): FileSystem {
    if name in fs.dir then fs.(content := fs.content[fs.dir[name] := []])
    else FileSystem(fs.dir[name := fs.next], fs.content[fs.next := []], fs.next + 1)
  }

  /** `os.write` at a file offset; bytes past the chunk stay. */
  function WriteAt(was: bytes, offset: nat, chunk: bytes): bytes {
    var gap := if |was| < offset then seq(offset - |was|, _ => 0) else [];
    var front := (was + gap)[..offset];
    front + chunk + if offset + |chunk| < |was| then was[offset + |chunk|..] else []
  }

  /** `os.replace`: the source name disappears and the target names its file, in one step. */
  function Rename(fs: FileSystem, source: string, target: string): FileSystem
    requires source in fs.dir
  {
    fs.(dir := (fs.dir - {source})[target := fs.dir[source]])
  }

  // ------------------------------------------------------------------ writers

  /** One call of `write_bytes_atomic`: target name, random suffix of the temporary name, content. */
  datatype Job = Job(target: string, unique: string, data: bytes) {
    function Tmp(): string {
      TmpName(target, unique)
    }
  }

  function TmpName(target: string, unique: string): string {
    ".canary-tmp-" + target + "-" + unique
  }

  /** The system call whose failure a writer reports. */
  datatype Call = OpenCall | WriteCall | FsyncCall | CloseCall | ReplaceCall | DirectoryCall

  datatype Phase =
    | Opening
    | Writing(fd: nat, written: nat)
    | Closing(fd: nat, pending: Option<Call>)
    | Reclosing(fd: nat, call: Call)
    | Replacing
    | DirOpening
    | DirFsyncing
    | DirClosing(interrupted: bool)
    | Unlinking(call: Call)
    | Returned
    | Raised(call: Call, unlinked: bool)

  /** How a system call ends: normally (`count` matters to writes), with OSError, or interrupted. */
  datatype Outcome = Done(count: int) | Failed | Interrupted

  /** One system call of one writer. */
  function Step(job: Job, fs: FileSystem, phase: Phase, o: Outcome): (FileSystem, Phase) {
    match phase
    case Opening =>
      if o.Done? then
        var emptied := OpenTruncated(fs, job.Tmp());
        (emptied, Writing(emptied.dir[job.Tmp()], 0))
      else (fs, Unlinking(OpenCall))
    case Writing(fd, written) =>
      if written < |job.data| then
        if o.Done? && o.count > 0 && fd in fs.content then
          var end := if o.count <= |job.data| - written then written + o.count else |job.data|;
          var after := WriteAt(fs.content[fd], written, job.data[written..end]);
          (fs.(content := fs.content[fd := after]), Writing(fd, end))
        else (fs, Closing(fd, Some(WriteCall)))
      else (fs, Closing(fd, if o.Done? then None else Some(FsyncCall)))
    case Closing(fd, pending) =>
      if !o.Done? then (fs, Reclosing(fd, CloseCall))
      else (fs, if pending.Some? then Unlinking(pending.value) else Replacing)
    case Reclosing(fd, call) =>
      (fs, if o.Interrupted? then Raised(call, false) else Unlinking(call))
    case Replacing =>
      if o.Done? && job.Tmp() in fs.dir then (Rename(fs, job.Tmp(), job.target), DirOpening)
      else (fs, Unlinking(ReplaceCall))
    case DirOpening =>
      (fs, if o.Done? then DirFsyncing else if o.Failed? then Returned else Unlinking(DirectoryCall))
    case DirFsyncing => (fs, DirClosing(o.Interrupted?))
    case DirClosing(interrupted) =>
      (fs, if o.Done? && !interrupted then Returned else Unlinking(DirectoryCall))
    case Unlinking(call) =>
      if o.Done? then (fs.(dir := fs.dir - {job.Tmp()}), Raised(call, true)) else (fs, Raised(call, false))
    case Returned => (fs, phase)
    case Raised(_, _) => (fs, phase)
  }

  /** Whether a writer's `os.replace` has happened. */
  predicate Committed(phase: Phase) {
    || phase.DirOpening? || phase.DirFsyncing? || phase.DirClosing? || phase.Returned?
    || ((phase.Unlinking? || phase.Raised?) && phase.call == DirectoryCall)
  }

  // ------------------------------------------------------- what one step keeps

  /** What a writer relies on: its temporary file holds what it wrote, until it is renamed away. */
  ghost predicate PhaseOk(job: Job, fs: FileSystem, phase: Phase) {
    var tmp := job.Tmp();
    match phase
    case Writing(fd, written) =>
      tmp in fs.dir && fs.dir[tmp] == fd && written <= |job.data| && Read(fs, tmp) == Some(job.data[..written])
    case Closing(fd, pending) =>
      && tmp in fs.dir && fs.dir[tmp] == fd
      && (if pending.None? then Read(fs, tmp) == Some(job.data) else pending.value in {WriteCall, FsyncCall})
    case Reclosing(_, call) => call == CloseCall && tmp in fs.dir
    case Replacing => Read(fs, tmp) == Some(job.data)
    case Unlinking(call) => if Committed(phase) then tmp !in fs.dir else call != OpenCall ==> tmp in fs.dir
    case Raised(call, unlinked) =>
      if Committed(phase) || unlinked then tmp !in fs.dir else call != OpenCall ==> tmp in fs.dir
    case _ => Committed(phase) ==> tmp !in fs.dir
  }

  /** Everything about a name is as before. */
  ghost predicate Untouched(fs: FileSystem, after: FileSystem, name: string) {
    && (name in fs.dir <==> name in after.dir)
    && (name in fs.dir ==> fs.dir[name] == after.dir[name])
    && Read(fs, name) == Read(after, name)
  }

  /** What a step of `job` from `phase` to `next` must leave true. */
  ghost predicate Kept(job: Job, fs: FileSystem, phase: Phase, after: FileSystem, next: Phase) {
    && Sound(after) && PhaseOk(job, after, next)
    && (Committed(phase) ==> Committed(next))
    && (forall n | n != job.Tmp() && n != job.target :: Untouched(fs, after, n))
    && (if Committed(next) && !Committed(phase) then Read(after, job.target) == Some(job.data)
        else Untouched(fs, after, job.target))
  }

  lemma StepKeeps(job: Job, fs: FileSystem, phase: Phase, o: Outcome)
    requires Sound(fs) && PhaseOk(job, fs, phase) && job.Tmp() != job.target
    ensures var (after, next) := Step(job, fs, phase, o); Kept(job, fs, phase, after, next)
  {
    hide Sound, Kept, PhaseOk, OpenTruncated, WriteAt, Rename, Job.Tmp, Committed;
    match phase
    case Opening => OpeningKeeps(job, fs, phase, o);
    case Writing(_, _) => WritingKeeps(job, fs, phase, o);
    case Replacing => ReplacingKeeps(job, fs, phase, o);
    case Unlinking(_) => UnlinkingKeeps(job, fs, phase, o);
    case _ => QuietKeeps(job, fs, phase, o);
  }

  lemma OpeningKeeps(job: Job, fs: FileSystem, phase: Phase, o: Outcome)
    requires Sound(fs) && PhaseOk(job, fs, phase) && job.Tmp() != job.target && phase.Opening?
    ensures var (after, next) := Step(job, fs, phase, o); Kept(job, fs, phase, after, next)
  {
  }

  lemma WritingKeeps(job: Job, fs: FileSystem, phase: Phase, o: Outcome)
    requires Sound(fs) && PhaseOk(job, fs, phase) && job.Tmp() != job.target && phase.Writing?
    ensures var (after, next) := Step(job, fs, phase, o); Kept(job, fs, phase, after, next)
  {
    if phase.written < |job.data| && o.Done? && o.count > 0 {
      WriteExtends(job, fs, phase, o);
    }
    assert job.data[..|job.data|] == job.data;
  }

  lemma ReplacingKeeps(job: Job, fs: FileSystem, phase: Phase, o: Outcome)
    requires Sound(fs) && PhaseOk(job, fs, phase) && job.Tmp() != job.target && phase.Replacing?
    ensures var (after, next) := Step(job, fs, phase, o); Kept(job, fs, phase, after, next)
  {
  }

  lemma UnlinkingKeeps(job: Job, fs: FileSystem, phase: Phase, o: Outcome)
    requires Sound(fs) && PhaseOk(job, fs, phase) && job.Tmp() != job.target && phase.Unlinking?
    ensures var (after, next) := Step(job, fs, phase, o); Kept(job, fs, phase, after, next)
  {
  }

  /** The calls that leave the file system as it is. */
  lemma QuietKeeps(job: Job, fs: FileSystem, phase: Phase, o: Outcome)
    requires Sound(fs) && PhaseOk(job, fs, phase)
    requires !phase.Opening? && !phase.Writing? && !phase.Replacing? && !phase.Unlinking?
    ensures var (after, next) := Step(job, fs, phase, o); Kept(job, fs, phase, after, next)
  {
  }

  lemma WriteExtends(job: Job, fs: FileSystem, phase: Phase, o: Outcome)
    requires Sound(fs) && PhaseOk(job, fs, phase)
    requires phase.Writing? && phase.written < |job.data| && o.Done? && o.count > 0
    ensures var (after, next) := Step(job, fs, phase, o);
            && next.Writing? && phase.written < next.written <= |job.data|
            && Read(after, job.Tmp()) == Some(job.data[..next.written])
  {
    var (_, next) := Step(job, fs, phase, o);
    assert job.data[..phase.written] + [] == job.data[..phase.written];
    assert job.data[..next.written] == job.data[..phase.written] + job.data[phase.written..next.written] + [];
  }

  // ------------------------------------------------------------ interleavings

  /** The directory, every writer's phase, and the writers whose replace happened, in order. */
  datatype State = State(fs: FileSystem, phases: seq<Phase>, log: seq<nat>)

  datatype Event = Event(writer: nat, outcome: Outcome)

  function Start(jobs: seq<Job>, fs: FileSystem): State {
    State(fs, seq(|jobs|, _ => Opening), [])
  }

  function Next(jobs: seq<Job>, s: State, e: Event): State
    requires |s.phases| == |jobs|
  {
    if e.writer >= |jobs| then s
    else
      var (fs, phase) := Step(jobs[e.writer], s.fs, s.phases[e.writer], e.outcome);
      var commits := Committed(phase) && !Committed(s.phases[e.writer]);
      State(fs, s.phases[e.writer := phase], if commits then s.log + [e.writer] else s.log)
  }

  /** The state after any finite schedule of system calls. */
  function Run(jobs: seq<Job>, s: State, events: seq<Event>): (r: State)
    requires |s.phases| == |jobs|
    ensures |r.phases| == |jobs|
  {
    if events == [] then s
    else Next(jobs, Run(jobs, s, events[..|events| - 1]), events[|events| - 1])
  }

  /** Temporary names are pairwise distinct and none of them is a target. */
  ghost predicate Separate(jobs: seq<Job>) {
    && (forall i, j | 0 <= i < j < |jobs| :: jobs[i].Tmp() != jobs[j].Tmp())
    && (forall i, j | 0 <= i < |jobs| && 0 <= j < |jobs| :: jobs[i].Tmp() != jobs[j].target)
  }

  ghost predicate IsTmp(jobs: seq<Job>, name: string) {
    exists i | 0 <= i < |jobs| :: jobs[i].Tmp() == name
  }

  ghost predicate InRange(log: seq<nat>, n: nat) {
    forall k | 0 <= k < |log| :: log[k] < n
  }

  /** The content a name should have: that of its last committed writer, or what it had at first. */
  ghost function Latest(jobs: seq<Job>, fs: FileSystem, log: seq<nat>, name: string): Option<bytes>
    requires InRange(log, |jobs|)
  {
    if log == [] then Read(fs, name)
    else
      var last := log[|log| - 1];
      if jobs[last].target == name then Some(jobs[last].data)
      else Latest(jobs, fs, log[..|log| - 1], name)
  }

  ghost predicate Inv(jobs: seq<Job>, fs: FileSystem, s: State) {
    && |s.phases| == |jobs| && Sound(s.fs)
    && (forall i | 0 <= i < |jobs| :: PhaseOk(jobs[i], s.fs, s.phases[i]))
    && InRange(s.log, |jobs|)
    && (forall i: nat | i < |jobs| :: i in s.log <==> Committed(s.phases[i]))
    && (forall i, j | 0 <= i < j < |s.log| :: s.log[i] != s.log[j])
    && (forall n | !IsTmp(jobs, n) :: Read(s.fs, n) == Latest(jobs, fs, s.log, n))
  }

  lemma PhaseOkFrame(job: Job, fs: FileSystem, after: FileSystem, phase: Phase)
    requires PhaseOk(job, fs, phase) && Untouched(fs, after, job.Tmp())
    ensures PhaseOk(job, after, phase)
  {
  }

  lemma NextKeeps(jobs: seq<Job>, fs: FileSystem, s: State, e: Event)
    requires Separate(jobs) && Inv(jobs, fs, s)
    ensures Inv(jobs, fs, Next(jobs, s, e))
  {
    if e.writer < |jobs| {
      hide Step, PhaseOk, Committed, Untouched, Sound, Latest, Read, TmpName;
      var w := e.writer;
      var job := jobs[w];
      var (after, phase) := Step(job, s.fs, s.phases[w], e.outcome);
      var t := Next(jobs, s, e);
      StepKeeps(job, s.fs, s.phases[w], e.outcome);
      forall i | 0 <= i < |jobs|
        ensures PhaseOk(jobs[i], t.fs, t.phases[i])
      {
        if i != w {
          PhaseOkFrame(jobs[i], s.fs, after, s.phases[i]);
        }
      }
      forall n | !IsTmp(jobs, n)
        ensures Read(t.fs, n) == Latest(jobs, fs, t.log, n)
      {
        ReadAfter(jobs, fs, s, e, n);
      }
    }
  }

  lemma ReadAfter(jobs: seq<Job>, fs: FileSystem, s: State, e: Event, n: string)
    requires Separate(jobs) && Inv(jobs, fs, s) && e.writer < |jobs| && !IsTmp(jobs, n)
    ensures var t := Next(jobs, s, e);
            InRange(t.log, |jobs|) && Read(t.fs, n) == Latest(jobs, fs, t.log, n)
  {
    hide Step, PhaseOk, Committed, Sound;
    var w := e.writer;
    var t := Next(jobs, s, e);
    StepKeeps(jobs[w], s.fs, s.phases[w], e.outcome);
    assert jobs[w].Tmp() != n;
    assert n != jobs[w].target ==> Untouched(s.fs, t.fs, n);
    if t.log != s.log {
      assert t.log[|t.log| - 1] == w && t.log[..|t.log| - 1] == s.log;
    }
  }

  lemma {:induction false} RunKeeps(jobs: seq<Job>, fs: FileSystem, events: seq<Event>)
    requires Separate(jobs) && Sound(fs)
    ensures Inv(jobs, fs, Run(jobs, Start(jobs, fs), events))
  {
    if events != [] {
      RunKeeps(jobs, fs, events[..|events| - 1]);
      NextKeeps(jobs, fs, Run(jobs, Start(jobs, fs), events[..|events| - 1]), events[|events| - 1]);
    }
  }

  // ------------------------------------------------------------- main results

  /**
   At every moment of every schedule a name that is not a temporary one holds its initial content
   or the complete data of the last writer whose replace happened: never a truncated file.
   */
  lemma NeverTruncated(jobs: seq<Job>, fs: FileSystem, events: seq<Event>, name: string)
    requires Separate(jobs) && Sound(fs) && !IsTmp(jobs, name)
    ensures var s := Run(jobs, Start(jobs, fs), events);
            && InRange(s.log, |jobs|)
            && Read(s.fs, name) == Latest(jobs, fs, s.log, name)
            && (Read(s.fs, name) == Read(fs, name)
                || exists i: nat | i in s.log && jobs[i].target == name :: Read(s.fs, name) == Some(jobs[i].data))
  {
    RunKeeps(jobs, fs, events);
    LatestIsWhole(jobs, fs, Run(jobs, Start(jobs, fs), events).log, name);
  }

  /** The writer has come past the fsync of its temporary file. */
  predicate Flushed(phase: Phase) {
    Committed(phase) || phase.Replacing? || (phase.Closing? && phase.pending.None?)
  }

  /** An fsync of one writer that succeeded on its complete data. */
  ghost predicate FlushAt(jobs: seq<Job>, fs: FileSystem, events: seq<Event>, w: nat, k: nat)
    requires w < |jobs|
  {
    && k < |events| && events[k].writer == w && events[k].outcome.Done?
    && var s := Run(jobs, Start(jobs, fs), events[..k]);
       && s.phases[w].Writing? && s.phases[w].written == |jobs[w].data|
       && Read(s.fs, jobs[w].Tmp()) == Some(jobs[w].data)
  }

  /**
   Nothing is published that was not flushed: in every schedule, a writer that has replaced its target,
   or is about to, has made an fsync that succeeded when its temporary file held the complete data.
   */
  lemma {:induction false} FlushedBeforeReplace(jobs: seq<Job>, fs: FileSystem, events: seq<Event>, w: nat)
    requires Separate(jobs) && Sound(fs) && w < |jobs| && Flushed(Run(jobs, Start(jobs, fs), events).phases[w])
    ensures exists k: nat :: FlushAt(jobs, fs, events, w, k)
  {
    if events != [] {
      var front, e := events[..|events| - 1], events[|events| - 1];
      var before := Run(jobs, Start(jobs, fs), front);
      RunKeeps(jobs, fs, front);
      if Flushed(before.phases[w]) {
        hide Step, Inv, Flushed;
        FlushedBeforeReplace(jobs, fs, front, w);
        var k: nat :| FlushAt(jobs, fs, front, w, k);
        assert events[..k] == front[..k] && events[k] == front[k];
        assert FlushAt(jobs, fs, events, w, k);
      } else {
        FlushStep(jobs[w], before.fs, before.phases[w], e.outcome);
        hide Step, Read;
        assert FlushAt(jobs, fs, events, w, |front|);
      }
    }
  }

  lemma FlushStep(job: Job, fs: FileSystem, phase: Phase, o: Outcome)
    requires PhaseOk(job, fs, phase) && !Flushed(phase) && Flushed(Step(job, fs, phase, o).1)
    ensures o.Done? && phase.Writing? && phase.written == |job.data| && Read(fs, job.Tmp()) == Some(job.data)
  {
    if phase.Writing? && phase.written == |job.data| {
      assert job.data[..phase.written] == job.data;
    }
  }

  lemma {:induction false} LatestIsWhole(jobs: seq<Job>, fs: FileSystem, log: seq<nat>, name: string)
    requires InRange(log, |jobs|)
    ensures || Latest(jobs, fs, log, name) == Read(fs, name)
            || exists i: nat | i in log && jobs[i].target == name :: Latest(jobs, fs, log, name) == Some(jobs[i].data)
  {
    if log != [] {
      LatestIsWhole(jobs, fs, log[..|log| - 1], name);
    }
  }

  /**
   A writer that returned has replaced its target exactly once, with all its bytes, and its
   temporary file is gone. A writer that raised has replaced its target exactly when the call it
   reports is one on the directory, after the replace; its temporary file is gone if it was
   renamed or unlinked, and otherwise left behind, unless it could not even be opened.
   */
  lemma WriterOutcome(jobs: seq<Job>, fs: FileSystem, events: seq<Event>, i: nat)
    requires Separate(jobs) && Sound(fs) && i < |jobs|
    ensures var s := Run(jobs, Start(jobs, fs), events);
            && (s.phases[i].Returned? ==> i in s.log && jobs[i].Tmp() !in s.fs.dir)
            && (s.phases[i].Raised? ==>
                  && (i in s.log <==> s.phases[i].call == DirectoryCall)
                  && (s.phases[i].unlinked || i in s.log ==> jobs[i].Tmp() !in s.fs.dir)
                  && (s.phases[i].call != OpenCall ==>
                        (jobs[i].Tmp() in s.fs.dir <==> !s.phases[i].unlinked && i !in s.log)))
            && multiset(s.log)[i] <= 1
  {
    hide Run, Sound, Latest, Separate;
    RunKeeps(jobs, fs, events);
    var s := Run(jobs, Start(jobs, fs), events);
    assert PhaseOk(jobs[i], s.fs, s.phases[i]);
    DistinctCount(s.log, i);
  }

  lemma {:induction false} DistinctCount(log: seq<nat>, i: nat)
    requires forall k, l | 0 <= k < l < |log| :: log[k] != log[l]
    ensures multiset(log)[i] <= 1
  {
    if log != [] {
      var front := log[..|log| - 1];
      assert log == front + [log[|log| - 1]];
      DistinctCount(front, i);
      if log[|log| - 1] == i {
        assert i !in front;
      }
    }
  }

  /** Only a replace changes what a reader of a non-temporary name sees. */
  lemma OnlyReplacePublishes(jobs: seq<Job>, fs: FileSystem, events: seq<Event>, e: Event, name: string)
    requires Separate(jobs) && Sound(fs) && !IsTmp(jobs, name)
    ensures var s := Run(jobs, Start(jobs, fs), events);
            var t := Next(jobs, s, e);
            Read(t.fs, name) != Read(s.fs, name) ==>
              && e.writer < |jobs| && jobs[e.writer].target == name
              && s.phases[e.writer].Replacing? && e.outcome.Done?
              && Read(t.fs, name) == Some(jobs[e.writer].data)
  {
    hide Run, Sound, Latest;
    RunKeeps(jobs, fs, events);
    var s := Run(jobs, Start(jobs, fs), events);
    if e.writer < |jobs| {
      var job := jobs[e.writer];
      assert job.Tmp() != name;
      StepKeeps(job, s.fs, s.phases[e.writer], e.outcome);
      assert name != job.target ==> Untouched(s.fs, Next(jobs, s, e).fs, name);
    }
  }

  // ------------------------------------------------------- temporary names

  /** Different targets, or different suffixes of one target, give different temporary names. */
  lemma TmpNameInjective(t1: string, u1: string, t2: string, u2: string)
    requires |u1| == |u2|
    ensures TmpName(t1, u1) == TmpName(t2, u2) <==> t1 == t2 && u1 == u2
  {
    var prefix := ".canary-tmp-";
    var n1, n2 := TmpName(t1, u1), TmpName(t2, u2);
    if n1 == n2 {
      assert |t1| == |t2|;
      assert n1[|prefix|..][..|t1|] == t1 && n2[|prefix|..][..|t1|] == t2;
      assert n1[|prefix| + |t1| + 1..] == u1 && n2[|prefix| + |t1| + 1..] == u2;
    }
  }

  /** Writers of one target are separate as soon as their random suffixes differ. */
  lemma OneTargetSeparate(jobs: seq<Job>)
    requires forall i | 0 <= i < |jobs| :: jobs[i].target == jobs[0].target && |jobs[i].unique| == 12
    requires forall i, j | 0 <= i < j < |jobs| :: jobs[i].unique != jobs[j].unique
    ensures Separate(jobs)
    ensures |jobs| > 0 ==> !IsTmp(jobs, jobs[0].target)
  {
    forall i, j | 0 <= i < j < |jobs|
      ensures jobs[i].Tmp() != jobs[j].Tmp()
    {
      TmpNameInjective(jobs[i].target, jobs[i].unique, jobs[j].target, jobs[j].unique);
    }
    forall i | 0 <= i < |jobs|
      ensures jobs[i].Tmp() != jobs[0].target
    {
      assert |jobs[i].Tmp()| > |jobs[0].target|;
    }
  }

  // -------------------------------------------- where the documentation is wrong

  lemma RunNone(jobs: seq<Job>, s: State)
    requires |s.phases| == |jobs|
    ensures Run(jobs, s, []) == s
  {
  }

  lemma RunSnoc(jobs: seq<Job>, s: State, events: seq<Event>, e: Event)
    requires |s.phases| == |jobs|
    ensures Run(jobs, s, events + [e]) == Next(jobs, Run(jobs, s, events), e)
  {
    assert (events + [e])[..|events|] == events;
  }

  /** One more system call of the only writer. */
  lemma OneMore(job: Job, fs: FileSystem, events: seq<Event>, o: Outcome) returns (more: seq<Event>)
    requires Sound(fs)
    ensures var s, t := Run([job], Start([job], fs), events), Run([job], Start([job], fs), more);
            && t.phases[0] == Step(job, s.fs, s.phases[0], o).1
            && PhaseOk(job, t.fs, t.phases[0])
  {
    more := events + [Event(0, o)];
    RunSnoc([job], Start([job], fs), events, Event(0, o));
    AloneSeparate(job);
    RunKeeps([job], fs, more);
  }

  lemma AloneSeparate(job: Job)
    ensures Separate([job]) && !IsTmp([job], job.target)
  {
    assert |job.Tmp()| > |job.target|;
  }

  /**
   "On any error the final path keeps its previous content" is not what happens when closing the
   directory fails: whatever is written, the call raises with the new content in place.
   */
  lemma ErrorAfterReplace(job: Job, fs: FileSystem) returns (events: seq<Event>)
    requires Sound(fs)
    ensures var s := Run([job], Start([job], fs), events);
            s.phases[0].Raised? && Read(s.fs, job.target) == Some(job.data)
  {
    hide Run, Sound, Latest, Separate, PhaseOk;
    events := AllWritten(job, fs);
    events := OneMore(job, fs, events, Done(0));
    events := OneMore(job, fs, events, Done(0));
    events := Replaced(job, fs, events);
    events := OneMore(job, fs, events, Done(0));
    events := OneMore(job, fs, events, Done(0));
    events := OneMore(job, fs, events, Failed);
    events := OneMore(job, fs, events, Done(0));
    CommittedContent(job, fs, events);
  }

  /**
   "No temporary file is left behind" is not what happens when the file cannot be unlinked: whatever is
   written, a call can raise and leave it.
   */
  lemma TmpLeftBehind(job: Job, fs: FileSystem) returns (events: seq<Event>)
    requires Sound(fs)
    ensures var s := Run([job], Start([job], fs), events);
            s.phases[0].Raised? && job.Tmp() in s.fs.dir && Read(s.fs, job.target) == Read(fs, job.target)
  {
    hide Run, Sound, Latest, Separate, Read;
    events := Opened(job, fs);
    events := OneMore(job, fs, events, Failed);
    events := OneMore(job, fs, events, Done(0));
    events := OneMore(job, fs, events, Failed);
    UncommittedContent(job, fs, events);
  }

  lemma Opened(job: Job, fs: FileSystem) returns (events: seq<Event>)
    requires Sound(fs)
    ensures var s := Run([job], Start([job], fs), events);
            s.phases[0].Writing? && s.phases[0].written == 0 && PhaseOk(job, s.fs, s.phases[0])
  {
    events := OneMore(job, fs, [], Done(0));
  }

  lemma AllWritten(job: Job, fs: FileSystem) returns (events: seq<Event>)
    requires Sound(fs)
    ensures var phase := Run([job], Start([job], fs), events).phases[0];
            phase.Writing? && phase.written == |job.data|
  {
    events := Opened(job, fs);
    if job.data != [] {
      events := OneMore(job, fs, events, Done(|job.data|));
    }
  }

  lemma Replaced(job: Job, fs: FileSystem, events: seq<Event>) returns (more: seq<Event>)
    requires Sound(fs) && Run([job], Start([job], fs), events).phases[0].Replacing?
    ensures Run([job], Start([job], fs), more).phases[0].DirOpening?
  {
    AloneSeparate(job);
    RunKeeps([job], fs, events);
    more := OneMore(job, fs, events, Done(0));
  }

  lemma CommittedContent(job: Job, fs: FileSystem, events: seq<Event>)
    requires Sound(fs) && Committed(Run([job], Start([job], fs), events).phases[0])
    ensures Read(Run([job], Start([job], fs), events).fs, job.target) == Some(job.data)
  {
    AloneSeparate(job);
    RunKeeps([job], fs, events);
    var log := Run([job], Start([job], fs), events).log;
    assert 0 in log && log[|log| - 1] < 1;
  }

  lemma UncommittedContent(job: Job, fs: FileSystem, events: seq<Event>)
    requires Sound(fs) && !Committed(Run([job], Start([job], fs), events).phases[0])
    ensures Read(Run([job], Start([job], fs), events).fs, job.target) == Read(fs, job.target)
  {
    AloneSeparate(job);
    RunKeeps([job], fs, events);
    var log := Run([job], Start([job], fs), events).log;
    if log != [] {
      ZeroIn(log);
    }
  }

  lemma ZeroIn(log: seq<nat>)
    requires InRange(log, 1) && log != []
    ensures 0 in log
  {
    assert log[0] == 0;
  }

  // ------------------------------------------------ why the suffixes must differ

  /** Two writers that share a temporary name can publish a file that is neither old nor complete. */
  lemma SharedTmpNameTruncates(target: string, unique: string)
    ensures exists events ::
              var job := Job(target, unique, [1]);
              var s := Run([job, job], Start([job, job], FileSystem(map[], map[], 0)), events);
              Read(s.fs, target) == Some([])
  {
    hide Run, Job.Tmp, TmpName;
    var job := Job(target, unique, [1]);
    var jobs, tmp := [job, job], job.Tmp();
    var s0 := Start(jobs, FileSystem(map[], map[], 0));
    var fs := FileSystem(map[tmp := 0], map[0 := [1]], 1);
    var emptied := fs.(content := map[0 := []]);
    var events := FirstWriterReady(job);
    RunSnoc(jobs, s0, events, Event(1, Done(1)));
    events := events + [Event(1, Done(1))];
    assert Run(jobs, s0, events) == State(emptied, [Replacing, Writing(0, 0)], []);
    RunSnoc(jobs, s0, events, Event(0, Done(1)));
    events := events + [Event(0, Done(1))];
    assert Read(Run(jobs, s0, events).fs, target) == Some([]);
  }

  lemma FirstWriterReady(job: Job) returns (events: seq<Event>)
    requires job.data == [1]
    ensures var fs := FileSystem(map[job.Tmp() := 0], map[0 := [1]], 1);
            Run([job, job], Start([job, job], FileSystem(map[], map[], 0)), events)
            == State(fs, [Replacing, Opening], [])
  {
    hide Run, Job.Tmp, TmpName;
    var jobs, tmp, a := [job, job], job.Tmp(), Event(0, Done(1));
    var s0 := Start(jobs, FileSystem(map[], map[], 0));
    var fs := FileSystem(map[tmp := 0], map[0 := [1]], 1);
    var e1, e2, e3 := [a], [a] + [a], [a] + [a] + [a];
    RunNone(jobs, s0);
    RunSnoc(jobs, s0, [], a);
    assert [] + [a] == e1;
    assert Run(jobs, s0, e1) == State(fs.(content := map[0 := []]), [Writing(0, 0), Opening], []);
    RunSnoc(jobs, s0, e1, a);
    assert WriteAt([], 0, [1]) == [1];
    assert Run(jobs, s0, e2) == State(fs, [Writing(0, 1), Opening], []);
    RunSnoc(jobs, s0, e2, a);
    assert Run(jobs, s0, e3) == State(fs, [Closing(0, None), Opening], []);
    RunSnoc(jobs, s0, e3, a);
    events := e3 + [a];
  }
}
