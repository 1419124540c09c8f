/** What back_finalize leaves: a whole body in place of the old copy, and the old copy
    in place of anything else. */
module BackupCommits {
  import opened Wrappers
  import opened Backup
  import opened BackupLaws

  /** The transfer is over, without an error and as long as it should be. */
  predicate IsWhole(slot: Slot, e: Ending) {
    slot.ready && !slot.finalized && slot.statuscode > 0 && !slot.job.testmode && e.whole
  }

  /** The bytes c are under the file's name, or were a small page taken off the disk. */
  predicate IsInPlace(s: State, e: Ending, c: Content, t: State) {
    if s.slot.statuscode == 200 && s.slot.isWrite && e.page != NoPage && 0 < |c| < 8192 then
      s.slot.job.path !in t.files && (e.page == ReadIn ==> t.slot.body == Some(c))
    else Lookup(t.files, s.slot.job.path) == Some(c)
  }

  /** A whole body that came as it is: it takes the copy's place exactly when there is
      one to settle, and the backup is then gone. */
  lemma WholeCommits(s: State, e: Ending, c: Content)
    requires SlotOk(s) && IsWhole(s.slot, e) && !s.slot.coded && Lookup(s.files, s.slot.job.path) == Some(c)
    ensures var t := Finalize(s, e);
            && t.slot.committed == (if s.slot.tmp == Backup then Some(c) else None)
            && IsInPlace(s, e, c, t)
            && (s.slot.tmp == Backup ==> s.slot.job.bak !in t.files)
  {
    if s.slot.tmp == Backup {
      BackupDrops(s, e, c);
    } else {
      AsItIs(s, e, c);
    }
  }

  lemma BackupDrops(s: State, e: Ending, c: Content)
    requires SlotOk(s) && IsWhole(s.slot, e) && s.slot.tmp == Backup && Lookup(s.files, s.slot.job.path) == Some(c)
    ensures var t := Finalize(s, e);
            t.slot.committed == Some(c) && IsInPlace(s, e, c, t) && s.slot.job.bak !in t.files
  {
  }

  lemma AsItIs(s: State, e: Ending, c: Content)
    requires SlotOk(s) && IsWhole(s.slot, e) && s.slot.tmp == NoTmp && !s.slot.coded
    requires Lookup(s.files, s.slot.job.path) == Some(c)
    ensures var t := Finalize(s, e); t.slot.committed == None && IsInPlace(s, e, c, t)
  {
  }

  /** A coded one: it takes the file's place exactly when it was decoded whole and could
      be renamed; else the file stays as it was. */
  lemma DecodedCommits(s: State, e: Ending)
    requires SlotOk(s) && IsWhole(s.slot, e) && s.slot.coded && s.slot.isWrite && e.sized
    ensures var t := Finalize(s, e);
            match e.decoded
            case Whole(c, true) => t.slot.committed == Some(c) && IsInPlace(s, e, c, t)
            case _ =>
              && t.slot.committed == None && t.slot.statuscode < 0
              && Lookup(t.files, s.slot.job.path) == Lookup(s.files, s.slot.job.path)
  {
  }

  /** Anything else puts the old copy back, or leaves it at its backup name with the file
      as it is. */
  lemma OthersRestore(s: State, e: Ending)
    requires SlotOk(s) && s.slot.tmp == Backup
    requires !IsWhole(s.slot, e) || s.slot.job.path !in s.files
    ensures var t := Finalize(s, e);
            && t.slot.committed == None
            && (if e.moved then Lookup(t.files, s.slot.job.path) == s.slot.previous && s.slot.job.bak !in t.files
                else Lookup(t.files, s.slot.job.bak) == s.slot.previous
                     && Lookup(t.files, s.slot.job.path) == Lookup(s.files, s.slot.job.path))
  {
  }

  // ---- over runs ----

  /** All bytes that a run writes, in order. */
  function Written(evs: seq<Event>): Content {
    if evs == [] then "" else
    var last := evs[|evs| - 1];
    Written(evs[..|evs| - 1]) + if last.Write? then last.bytes else ""
  }

  /** Where these bytes are, and what is committed of them. */
  predicate Holds(s: State, written: Content) {
    && (!s.slot.begun ==> written == "")
    && (!s.slot.ready && s.slot.out ==> Lookup(s.files, Target(s.slot)) == Some(written))
    && (s.slot.tmp == Backup && s.slot.job.path in s.files ==> s.files[s.slot.job.path] == written)
    && (!s.slot.coded && s.slot.committed.Some? ==> s.slot.committed == Some(written))
  }

  lemma OpenHolds(s: State, ev: Event, written: Content)
    requires SlotOk(s) && Legal(s, ev) && (ev.Open? || ev.OpenFtp?) && Holds(s, written)
    ensures Holds(Step(s, ev), written)
  {
  }

  lemma WriteHolds(s: State, ev: Event, written: Content)
    requires SlotOk(s) && Legal(s, ev) && ev.Write? && Holds(s, written)
    ensures Holds(Step(s, ev), written + ev.bytes)
  {
  }

  lemma SettleHolds(s: State, e: Ending, written: Content)
    requires SlotOk(s) && s.slot.ready && !s.slot.finalized && Holds(s, written)
    ensures Holds(Finalize(s, e), written)
  {
    FinalizeOk(s, e);
    if s.slot.tmp == Backup {
      if IsWhole(s.slot, e) && s.slot.job.path in s.files {
        WholeCommits(s, e, s.files[s.slot.job.path]);
      } else {
        OthersRestore(s, e);
      }
    }
  }

  lemma StepHolds(s: State, ev: Event, written: Content)
    requires SlotOk(s) && Legal(s, ev) && Holds(s, written)
    ensures Holds(Step(s, ev), written + if ev.Write? then ev.bytes else "")
  {
    assert written + "" == written;
    if ev.Open? || ev.OpenFtp? {
      OpenHolds(s, ev, written);
    } else if ev.Write? {
      WriteHolds(s, ev, written);
    } else if ev.Settled? {
      SettleHolds(s, ev.ending, written);
    }
  }

  /** In every run the file that a plain slot is writing holds the bytes written, and what
      it commits is all of them, in order. */
  lemma {:induction false} RunHolds(files: Files, path: string, delayed: bool, testmode: bool, ftp: bool,
                                    evs: seq<Event>)
    requires !InTmpDir(path) && RunSlot(Start(files, path, delayed, testmode, ftp), evs).legal
    ensures Holds(RunSlot(Start(files, path, delayed, testmode, ftp), evs).state, Written(evs))
  {
    if evs != [] {
      var start, before := Start(files, path, delayed, testmode, ftp), evs[..|evs| - 1];
      RunHolds(files, path, delayed, testmode, ftp, before);
      RunIsSafe(files, path, delayed, testmode, ftp, before);
      StepHolds(RunSlot(start, before).state, evs[|evs| - 1], Written(before));
    }
  }

  /** So a re-fetch over a copy that was moved aside ends with exactly the bytes it
      received, committed, and the backup gone. */
  lemma RefetchCommits(files: Files, path: string, delayed: bool, ftp: bool, evs: seq<Event>, e: Ending)
    requires !InTmpDir(path)
    requires var r := RunSlot(Start(files, path, delayed, false, ftp), evs);
             r.legal && IsWhole(r.state.slot, e) && r.state.slot.tmp == Backup && path in r.state.files
    ensures var s := RunSlot(Start(files, path, delayed, false, ftp), evs).state;
            var t := Finalize(s, e);
            && t.slot.committed == Some(Written(evs)) && IsInPlace(s, e, Written(evs), t)
            && Bak(path) !in t.files
  {
    RunHolds(files, path, delayed, false, ftp, evs);
    RunIsSafe(files, path, delayed, false, ftp, evs);
    RunKeepsNames(Start(files, path, delayed, false, ftp), evs);
    WholeCommits(RunSlot(Start(files, path, delayed, false, ftp), evs).state, e, Written(evs));
  }

  lemma {:induction false} RunKeepsNames(start: State, evs: seq<Event>)
    ensures SameNames(start.slot, RunSlot(start, evs).state.slot)
  {
    if evs != [] {
      var before := evs[..|evs| - 1];
      RunKeepsNames(start, before);
      var r := RunSlot(start, before);
      if r.legal && Legal(r.state, evs[|evs| - 1]) {
        StepIsLocal(r.state, evs[|evs| - 1]);
      }
    }
  }

  /** A whole FTP re-fetch is one. */
  lemma FtpCommits(files: Files, path: string, bytes: string, code: int, e: Ending)
    requires !InTmpDir(path) && path in files && code > 0 && e.whole
    ensures var evs := [OpenFtp(true, true), Write(bytes), End(code), Settled(e)];
            var r := RunSlot(Start(files, path, false, false, true), evs);
            && r.legal && Lookup(r.state.files, path) == Some(bytes) && Bak(path) !in r.state.files
            && r.state.slot.committed == Some(bytes)
  {
    OwnNames(path);
    var s := Start(files, path, false, false, true);
    var e1, e2, e3, e4 := OpenFtp(true, true), Write(bytes), End(code), Settled(e);
    assert [e1][..0] == [] && [e1, e2][..1] == [e1] && [e1, e2, e3][..2] == [e1, e2];
    assert [e1, e2, e3, e4][..3] == [e1, e2, e3];
    var s1 := OpenFtpFile(s, e1);
    assert RunSlot(s, []) == Run(s, true);
    assert RunSlot(s, [e1]) == Run(s1, true);
    var s2 := Step(s1, e2);
    assert "" + bytes == bytes;
    assert RunSlot(s, [e1, e2]) == Run(s2, true);
    var s3 := Step(s2, e3);
    assert RunSlot(s, [e1, e2, e3]) == Run(s3, true);
    assert RunSlot(s, [e1, e2, e3, e4]) == Run(Step(s3, e4), true);
    RunIsSafe(files, path, false, false, true, [e1, e2, e3]);
    WholeCommits(s3, e, bytes);
  }

  // ---- what is given back ----

  /** A placeholder still being written, or failed, goes with its slot; a partial file
      under its own name stays, with nothing to settle, to be resumed. */
  lemma OnlyPlaceholdersGo(s: State, e: Ending)
    requires SlotOk(s) && s.slot.tmp == NoTmp && s.slot.job.path in s.files
    ensures var gone := s.slot.isWrite && s.slot.job.delayed && (!s.slot.ready || s.slot.statuscode <= 0);
            var t := Delete(s, false, e);
            Lookup(t.files, s.slot.job.path) == if gone then None else Lookup(s.files, s.slot.job.path)
  {
  }

  /** A cancel touches no slot but one of its own name that is ready, not a test and not
      writing. */
  lemma CancelSpares(s: State, name: string)
    requires !s.slot.ready || s.slot.isWrite || s.slot.job.testmode || s.slot.job.path != name
    ensures Cancel(s, name) == s
  {
  }
}
