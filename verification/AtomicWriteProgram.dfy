/**
 `write_bytes_atomic` as the program runs it, over an operating system whose every call may fail or
 be interrupted and among other writers that make any calls in between: its try, finally and except
 blocks take exactly the steps of the step machine.
 */
module AtomicWriteProgram {
  import opened Bytes
  import opened AtomicWrite

  class System {
    const jobs: seq<Job>
    /** The writer whose program this is; all other writers are part of its surroundings. */
    const me: nat
    ghost const initial: FileSystem
    var fs: FileSystem
    var phases: seq<Phase>
    ghost var trace: seq<Event>

    ghost predicate Valid()
      reads this
    {
      && me < |jobs| && Separate(jobs) && Sound(initial)
      && var s := Run(jobs, Start(jobs, initial), trace);
         s.fs == fs && s.phases == phases
    }

    /** Where this program is. */
    ghost function Phase(): Phase
      requires Valid()
      reads this
    {
      phases[me]
    }

    /** The writers whose replace has happened, in order. */
    ghost function Log(): seq<nat>
      requires Valid()
      reads this
    {
      Run(jobs, Start(jobs, initial), trace).log
    }

    constructor (jobs: seq<Job>, me: nat, fs: FileSystem)
      requires Sound(fs) && Separate(jobs) && me < |jobs|
      ensures Valid() && this.jobs == jobs && this.me == me && initial == this.fs == fs && trace == []
      ensures Phase() == Opening
    {
      this.jobs, this.me := jobs, me;
      initial := fs;
      this.fs := fs;
      phases := seq(|jobs|, _ => Opening);
      trace := [];
    }

    method Outcome() returns (o: Outcome)
    {
      o := *;
    }

    /** Anything the other writers do before the next call of this one. */
    method Others()
      requires Valid()
      modifies this`fs, this`phases, this`trace
      ensures Valid() && Phase() == old(Phase())
    {
      hide Step;
      var turns: int := *;
      while turns > 0
        invariant Valid() && Phase() == old(Phase())
        decreases turns
      {
        turns := turns - 1;
        var w: int := *;
        if 0 <= w < |jobs| && w != me {
          var o := Outcome();
          ghost var e := Event(w, o);
          RunSnoc(jobs, Start(jobs, initial), trace, e);
          var (after, next) := Step(jobs[w], fs, phases[w], o);
          fs, phases := after, phases[w := next];
          trace := trace + [e];
        }
      }
    }

    /** Record a call of this program; `before` is the file system it was made on, `fs` what it left. */
    method Record(o: Outcome, before: FileSystem)
      requires me < |jobs| && Separate(jobs) && Sound(initial)
      requires var s := Run(jobs, Start(jobs, initial), trace); s.fs == before && s.phases == phases
      requires |phases| == |jobs|
      requires fs == Step(jobs[me], before, phases[me], o).0
      modifies this`phases, this`trace
      ensures Valid() && Phase() == Step(jobs[me], before, old(phases[me]), o).1
    {
      ghost var e := Event(me, o);
      RunSnoc(jobs, Start(jobs, initial), trace, e);
      trace := trace + [e];
      hide Step;
      phases := phases[me := Step(jobs[me], before, phases[me], o).1];
    }

    lemma Holds()
      requires Valid()
      ensures Sound(fs) && PhaseOk(jobs[me], fs, Phase())
    {
      RunKeeps(jobs, initial, trace);
    }

    method OpenTmp() returns (o: Outcome, fd: nat)
      requires Valid() && Phase().Opening?
      modifies this`fs, this`phases, this`trace
      ensures Valid() && Phase() == if o.Done? then Writing(fd, 0) else Unlinking(OpenCall)
    {
      Others();
      var before := fs;
      o := Outcome();
      fd := 0;
      if o.Done? {
        fs := OpenTruncated(fs, jobs[me].Tmp());
        fd := fs.dir[jobs[me].Tmp()];
      }
      Record(o, before);
    }

    /** `os.write`: reports how many bytes of `view` it took, possibly fewer than all, possibly none. */
    method Write(fd: nat, view: bytes) returns (o: Outcome, written: int)
      requires Valid() && Phase().Writing? && Phase().fd == fd && Phase().written < |jobs[me].data|
      requires view == jobs[me].data[Phase().written..]
      modifies this`fs, this`phases, this`trace
      ensures Valid()
      ensures o.Done? && written > 0 ==>
                written <= |view| && Phase() == Writing(fd, old(Phase().written) + written)
      ensures !(o.Done? && written > 0) ==> Phase() == Closing(fd, Some(WriteCall))
    {
      hide Run, Sound, Separate;
      Others();
      var before := fs;
      ghost var offset := Phase().written;
      Holds();
      o := Outcome();
      var data := jobs[me].data;
      written := if o.Done? then if o.count <= |view| then o.count else |view| else 0;
      if written > 0 {
        assert view[..written] == data[offset..offset + written];
        hide WriteAt;
        fs := fs.(content := fs.content[fd := WriteAt(fs.content[fd], |data| - |view|, view[..written])]);
      }
      Record(o, before);
    }

    method Fsync(fd: nat) returns (o: Outcome)
      requires Valid() && Phase().Writing? && Phase().fd == fd && Phase().written == |jobs[me].data|
      modifies this`fs, this`phases, this`trace
      ensures Valid() && Phase() == Closing(fd, if o.Done? then None else Some(FsyncCall))
    {
      Others();
      o := Outcome();
      Record(o, fs);
    }

    method Close(fd: nat) returns (o: Outcome)
      requires Valid() && Phase().Closing? && Phase().fd == fd
      modifies this`fs, this`phases, this`trace
      ensures Valid()
      ensures Phase() == if !o.Done? then Reclosing(fd, CloseCall)
                         else if old(Phase()).pending.Some? then Unlinking(old(Phase()).pending.value)
                         else Replacing
    {
      Others();
      o := Outcome();
      Record(o, fs);
    }

    method CloseAgain(fd: nat) returns (o: Outcome)
      requires Valid() && Phase().Reclosing? && Phase().fd == fd
      modifies this`fs, this`phases, this`trace
      ensures Valid()
      ensures Phase() == if o.Interrupted? then Raised(old(Phase()).call, false) else Unlinking(old(Phase()).call)
    {
      Others();
      o := Outcome();
      Record(o, fs);
    }

    method Replace() returns (o: Outcome)
      requires Valid() && Phase().Replacing?
      modifies this`fs, this`phases, this`trace
      ensures Valid() && Phase() == if o.Done? then DirOpening else Unlinking(ReplaceCall)
    {
      Others();
      var before := fs;
      Holds();
      o := Outcome();
      if o.Done? {
        fs := Rename(fs, jobs[me].Tmp(), jobs[me].target);
      }
      Record(o, before);
    }

    method OpenDirectory() returns (o: Outcome)
      requires Valid() && Phase().DirOpening?
      modifies this`fs, this`phases, this`trace
      ensures Valid()
      ensures Phase() == if o.Done? then DirFsyncing else if o.Failed? then Returned else Unlinking(DirectoryCall)
    {
      Others();
      o := Outcome();
      Record(o, fs);
    }

    method SyncDirectory() returns (o: Outcome)
      requires Valid() && Phase().DirFsyncing?
      modifies this`fs, this`phases, this`trace
      ensures Valid() && Phase() == DirClosing(o.Interrupted?)
    {
      Others();
      o := Outcome();
      Record(o, fs);
    }

    method CloseDirectory() returns (o: Outcome)
      requires Valid() && Phase().DirClosing?
      modifies this`fs, this`phases, this`trace
      ensures Valid()
      ensures Phase() == if o.Done? && !old(Phase()).interrupted then Returned else Unlinking(DirectoryCall)
    {
      Others();
      o := Outcome();
      Record(o, fs);
    }

    method Unlink() returns (o: Outcome)
      requires Valid() && Phase().Unlinking?
      modifies this`fs, this`phases, this`trace
      ensures Valid() && Phase() == Raised(old(Phase()).call, o.Done?)
    {
      Others();
      var before := fs;
      o := Outcome();
      if o.Done? {
        fs := fs.(dir := fs.dir - {jobs[me].Tmp()});
      }
      Record(o, before);
    }

    /** `_fsync_directory`: an OSError from opening or syncing is ignored, one from closing is not. */
    method FsyncDirectory() returns (raised: Option<Call>)
      requires Valid() && Phase().DirOpening?
      modifies this`fs, this`phases, this`trace
      ensures Valid() && raised in {None, Some(DirectoryCall)}
      ensures Phase() == if raised.None? then Returned else Unlinking(DirectoryCall)
    {
      hide Valid;
      var o := OpenDirectory();
      if o.Failed? {
        return None;
      }
      if o.Interrupted? {
        return Some(DirectoryCall);
      }
      var synced := SyncDirectory();
      var closed := CloseDirectory();
      return if closed.Done? && !synced.Interrupted? then None else Some(DirectoryCall);
    }

    /** The `while view` loop, the fsync and the close in `finally`; the caller learns what raised. */
    method WriteAll(fd: nat) returns (raised: Option<Call>, closed: bool)
      requires Valid() && Phase() == Writing(fd, 0)
      modifies this`fs, this`phases, this`trace
      ensures Valid()
      ensures if !closed then Phase() == Reclosing(fd, CloseCall)
              else Phase() == if raised.Some? then Unlinking(raised.value) else Replacing
      ensures !closed ==> raised == Some(CloseCall)
    {
      var view := jobs[me].data;
      raised := None;
      while view != [] && raised.None?
        invariant Valid()
        invariant raised.None? ==> Phase().Writing? && Phase().fd == fd && Phase().written <= |jobs[me].data|
                                   && view == jobs[me].data[Phase().written..]
        invariant raised.Some? ==> Phase() == Closing(fd, raised)
        decreases raised.None?, |view|
      {
        var o, written := Write(fd, view);
        if o.Done? && written > 0 {
          view := view[written..];
        } else {
          raised := Some(WriteCall);
        }
      }
      if raised.None? {
        var o := Fsync(fd);
        if !o.Done? {
          raised := Some(FsyncCall);
        }
      }
      var o := Close(fd);
      closed := o.Done?;
      if !closed {
        raised := Some(CloseCall);
      }
    }

    /**
     `write_bytes_atomic`, whatever the other writers do meanwhile. Returning means that the complete data
     was put in place and the temporary file is gone. Raising means that it was put in place exactly when
     the failing call was on the directory, and that the temporary file is left behind exactly when it was
     opened and neither renamed nor unlinked. If no other writer has this target, it holds the data or what
     it held before.
     */
    method WriteBytesAtomic() returns (raised: Option<Call>, ghost unlinked: bool)
      requires Valid() && Phase() == Opening && trace == []
      modifies this`fs, this`phases, this`trace
      ensures Valid()
      ensures if raised.None? then Phase().Returned? else Phase() == Raised(raised.value, unlinked)
      ensures me in Log() <==> raised.None? || raised.value == DirectoryCall
      ensures raised.None? || unlinked || raised.value == DirectoryCall ==> jobs[me].Tmp() !in fs.dir
      ensures raised.Some? && raised.value !in {OpenCall, DirectoryCall} && !unlinked ==> jobs[me].Tmp() in fs.dir
      ensures SoleWriter() ==>
                Read(fs, jobs[me].target)
                == if raised.None? || raised.value == DirectoryCall then Some(jobs[me].data)
                   else Read(initial, jobs[me].target)
    {
      hide Run, Step, Sound, PhaseOk, Read, TmpName, Valid, Separate, SoleWriter;
      var fd: Option<nat> := None;
      var o, f := OpenTmp();
      unlinked := false;
      if !o.Done? {
        raised := Some(OpenCall);
      } else {
        fd := Some(f);
        var closed;
        raised, closed := WriteAll(f);
        if closed {
          fd := None;
        }
        if raised.None? {
          o := Replace();
          if o.Done? {
            raised := FsyncDirectory();
          } else {
            raised := Some(ReplaceCall);
          }
        }
      }
      if raised.Some? {
        var interrupted := false;
        if fd.Some? {
          var again := CloseAgain(fd.value);
          interrupted := again.Interrupted?;
        }
        if !interrupted {
          var gone := Unlink();
          unlinked := gone.Done?;
        }
      }
      Outcomes();
    }

    /** No other writer has the target of this one. */
    ghost predicate SoleWriter() {
      me < |jobs| && forall i | 0 <= i < |jobs| && i != me :: jobs[i].target != jobs[me].target
    }

    /** What is known of this writer when its program has ended. */
    lemma Outcomes()
      requires Valid()
      ensures me in Log() <==> Committed(Phase())
      ensures Phase().Returned? ==> jobs[me].Tmp() !in fs.dir
      ensures Phase().Raised? && (Phase().unlinked || me in Log()) ==> jobs[me].Tmp() !in fs.dir
      ensures Phase().Raised? && Phase().call != OpenCall && !Phase().unlinked && me !in Log() ==>
                jobs[me].Tmp() in fs.dir
      ensures SoleWriter() ==>
                Read(fs, jobs[me].target)
                == if me in Log() then Some(jobs[me].data) else Read(initial, jobs[me].target)
    {
      RunKeeps(jobs, initial, trace);
      assert PhaseOk(jobs[me], fs, Phase());
      if SoleWriter() {
        SoleContent(Log());
        assert !IsTmp(jobs, jobs[me].target);
      }
    }

    lemma {:induction false} SoleContent(log: seq<nat>)
      requires SoleWriter() && InRange(log, |jobs|)
      ensures Latest(jobs, initial, log, jobs[me].target)
           == if me in log then Some(jobs[me].data) else Read(initial, jobs[me].target)
    {
      if log != [] {
        var front, last := log[..|log| - 1], log[|log| - 1];
        assert log == front + [last];
        SoleContent(front);
        assert last != me ==> jobs[last].target != jobs[me].target;
      }
    }
  }
}
