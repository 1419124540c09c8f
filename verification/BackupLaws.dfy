/** No re-fetch loses the copy it moved aside. */
module BackupLaws {
  import opened Wrappers
  import opened Backup

  // ---- names do not collide ----

  lemma {:induction false} DirLengthOf(dir: string, name: string)
    requires dir == "" || dir[|dir| - 1] == '/'
    requires forall i :: 0 <= i < |name| ==> name[i] != '/'
    ensures DirLength(dir + name) == |dir|
  {
    if name != "" {
      var n := |name| - 1;
      assert (dir + name)[..|dir| + n] == dir + name[..n];
      DirLengthOf(dir, name[..n]);
    }
  }

  /** The temporary directory a path is in, if it is. */
  predicate InTmpDir(path: string) {
    var n := DirLength(path);
    n >= |TMPDIR| + 1 && path[n - |TMPDIR| - 1..n] == TMPDIR + "/"
  }

  predicate PlainExt(ext: string) {
    forall i :: 0 <= i < |ext| ==> ext[i] != '/' && ext[i] != '.'
  }

  lemma TmpDirLength(path: string, ext: string)
    requires PlainExt(ext)
    ensures DirLength(TmpName(path, ext)) == DirLength(path) + |TMPDIR| + 1 && InTmpDir(TmpName(path, ext))
  {
    var n := DirLength(path);
    var dir, name := path[..n] + (TMPDIR + "/"), path[n..] + ("." + ext);
    assert TmpName(path, ext) == dir + name;
    DirLengthOf(dir, name);
  }

  /** Different paths, or different uses, never share a temporary file. */
  lemma TmpNamesDiffer(p: string, q: string, e: string, f: string)
    requires PlainExt(e) && PlainExt(f) && |e| > 0 && |f| > 0 && TmpName(p, e) == TmpName(q, f)
    ensures p == q && e == f
  {
    TmpDirLength(p, e);
    TmpDirLength(q, f);
    var n := DirLength(p);
    var a, b := p[n..] + ("." + e), q[n..] + ("." + f);
    SameParts(p[..n], TMPDIR + "/" + a, q[..n], TMPDIR + "/" + b);
    SameParts(TMPDIR + "/", a, TMPDIR + "/", b);
    SameExt(p[n..], e, q[n..], f);
    assert p == p[..n] + p[n..] && q == q[..n] + q[n..];
  }

  lemma SameParts(a: string, b: string, c: string, d: string)
    requires a + b == c + d && |a| == |c|
    ensures a == c && b == d
  {
    assert a == (a + b)[..|a|] && b == (a + b)[|a|..];
    assert c == (c + d)[..|a|] && d == (c + d)[|a|..];
  }

  lemma {:induction false} SameExt(a: string, e: string, b: string, f: string)
    requires PlainExt(e) && PlainExt(f) && a + ("." + e) == b + ("." + f)
    ensures a == b && e == f
  {
    var t := a + ("." + e);
    var last := t[|t| - 1];
    assert last == if e == "" then '.' else e[|e| - 1];
    assert t == b + ("." + f) && last == if f == "" then '.' else f[|f| - 1];
    if e == "" {
      assert t == a + "." && t == b + ".";
      SameParts(a, ".", b, ".");
    } else {
      var e', f' := e[..|e| - 1], f[..|f| - 1];
      assert t[..|t| - 1] == a + ("." + e') && t[..|t| - 1] == b + ("." + f');
      SameExt(a, e', b, f');
      assert e == e' + [last] && f == f' + [last];
    }
  }

  lemma OwnNames(path: string)
    requires !InTmpDir(path)
    ensures path != Bak(path) && path != Spool(path) && Bak(path) != Spool(path)
  {
    TmpDirLength(path, "bak");
    TmpDirLength(path, "z");
    if Bak(path) == Spool(path) {
      TmpNamesDiffer(path, path, "bak", "z");
    }
  }

  // ---- one slot ----

  /** The copy that a slot has to keep: the one it moved aside, or the file itself
      while only coded bytes were written, beside it. */
  function Copy(slot: Slot): Option<Content> {
    if slot.coded || !slot.begun then slot.job.before else slot.previous
  }

  /** Is the new file in its place, byte for byte what was committed? */
  predicate IsNew(s: State) {
    s.slot.committed.Some? && Lookup(s.files, s.slot.job.path) == s.slot.committed
  }

  predicate AtBackup(s: State) {
    s.slot.previous.Some? && Lookup(s.files, s.slot.job.bak) == s.slot.previous
  }

  /** The new file or the old copy is on disk. */
  predicate OnDisk(s: State) {
    Copy(s.slot).Some? ==> IsNew(s) || Lookup(s.files, s.slot.job.path) == Copy(s.slot) || AtBackup(s)
  }

  /** One of the two was read back into memory. */
  predicate InMemory(s: State) {
    s.slot.body.Some? && (s.slot.body == s.slot.committed || s.slot.body == Copy(s.slot))
  }

  predicate Safe(s: State) {
    OnDisk(s) || InMemory(s)
  }

  /** Neither is left: the page was removed and not read. */
  predicate Lost(s: State) {
    && Copy(s.slot).Some? && s.slot.finalized && s.slot.isWrite
    && s.slot.job.path !in s.files && !AtBackup(s)
  }

  predicate NamesApart(slot: Slot) {
    slot.job.path != slot.job.bak && slot.job.path != slot.job.spool && slot.job.bak != slot.job.spool
  }

  /** What the fields of a slot say of each other. */
  predicate FieldsOk(slot: Slot) {
    && NamesApart(slot)
    && (slot.tmp == Backup ==> !slot.finalized && !slot.coded)
    && (slot.tmp == Coded ==> slot.coded)
    && (slot.compressed ==> slot.coded)
    && (slot.coded ==> slot.previous == None)
    && (slot.coded && !slot.finalized ==> slot.compressed && slot.tmp == Coded)
    && (!slot.begun ==> !slot.coded && slot.previous == None && slot.tmp == NoTmp && !slot.out && !slot.isWrite)
    && (slot.previous.Some? && slot.tmp != Backup ==> slot.finalized)
    && (slot.finalized ==> slot.ready)
    && (slot.committed.Some? || slot.body.Some? ==> slot.finalized)
  }

  predicate SlotOk(s: State) {
    && FieldsOk(s.slot)
    && (s.slot.tmp == Backup ==> AtBackup(s))
    && (s.slot.body.Some? ==> !s.slot.isWrite && s.slot.job.path !in s.files)
    && (s.slot.committed.Some? ==> !AtBackup(s) && (s.slot.job.path in s.files ==> IsNew(s)))
    && (Safe(s) || Lost(s))
  }

  lemma LostExactly(s: State)
    requires SlotOk(s)
    ensures Safe(s) <==> !Lost(s)
  {
  }

  // ---- one step ----

  /** What back_finalize would find under the file's name when it looks for a page. */
  function NewFile(s: State, e: Ending): Option<Content> {
    if s.slot.compressed && e.sized then
      if e.decoded.Whole? && e.decoded.moved then Some(e.decoded.content) else None
    else Lookup(s.files, s.slot.job.path)
  }

  /** Does it take that file off the disk? */
  predicate TakesPage(s: State, e: Ending) {
    && s.slot.ready && !s.slot.finalized && s.slot.statuscode == HTTP_OK && !s.slot.job.testmode
    && s.slot.isWrite && e.whole && e.page != NoPage
    && NewFile(s, e).Some? && IsSmall(NewFile(s, e).value)
  }

  /** It does, and reads nothing. */
  predicate FailsToRead(s: State, ev: Event) {
    ev.Settled? && TakesPage(s, ev.ending) && ev.ending.page == ReadFails && Copy(s.slot).Some?
  }

  lemma SettlesNothing(s: State, moved: bool)
    requires SlotOk(s) && s.slot.ready && !s.slot.finalized && s.slot.tmp != Backup
    ensures var f := s.(slot := s.slot.(finalized := true));
            Settle(f, false, moved) == f && Settle(f, true, moved) == f && SlotOk(f) && Safe(f) && !AtBackup(f)
  {
  }

  lemma RestoreOk(s: State, moved: bool)
    requires SlotOk(s) && s.slot.ready && s.slot.tmp == Backup
    ensures var t := Restore(s.(slot := s.slot.(finalized := true)), moved);
            SlotOk(t) && Safe(t) && t.slot.tmp == NoTmp && OnDisk(t)
  {
  }

  lemma DropOk(s: State)
    requires SlotOk(s) && s.slot.ready && s.slot.tmp == Backup && s.slot.job.path in s.files
    ensures var t := DropBackup(s.(slot := s.slot.(finalized := true)));
            SlotOk(t) && IsNew(t) && !AtBackup(t) && t.slot.tmp == NoTmp
  {
  }

  lemma DecodeOk(s: State, decoded: Decoded)
    requires SlotOk(s) && s.slot.ready && !s.slot.finalized && s.slot.compressed
    ensures var t := Decode(s.(slot := s.slot.(finalized := true)), decoded);
            SlotOk(t) && OnDisk(t) && !AtBackup(t) && t.slot.tmp == NoTmp && t.slot.compressed
  {
  }

  /** The page that is read back was the last copy on disk. */
  lemma ReadPageOk(s: State, page: Page)
    requires SlotOk(s) && OnDisk(s) && s.slot.finalized && !AtBackup(s)
    ensures var t := Uncode(ReadPage(s, page));
            && SlotOk(t) && t.slot.finalized && t.slot.tmp == s.slot.tmp
            && (Safe(t) <==> !(RemovesPage(s, page) && page == ReadFails && Copy(s.slot).Some?))
            && (OnDisk(t) <==> !(RemovesPage(s, page) && Copy(s.slot).Some?))
  {
  }

  predicate RemovesPage(s: State, page: Page) {
    && s.slot.statuscode == HTTP_OK && s.slot.isWrite && page != NoPage
    && s.slot.job.path in s.files && IsSmall(s.files[s.slot.job.path])
  }

  /** What back_finalize comes to: everything is settled, and a copy is left unless the
      page that took its place was removed without being read. */
  ghost predicate Settles(s: State, e: Ending, t: State) {
    && SlotOk(t) && t.slot.finalized && t.slot.tmp != Backup
    && (Safe(t) <==> !FailsToRead(s, Settled(e)))
    && (OnDisk(t) <==> !(TakesPage(s, e) && Copy(s.slot).Some?))
  }

  lemma StoresCoded(s: State, e: Ending)
    requires SlotOk(s) && s.slot.ready && !s.slot.finalized && s.slot.compressed && e.sized
    requires e.whole && s.slot.statuscode > 0 && !s.slot.job.testmode
    ensures Settles(s, e, Finalize(s, e))
  {
    DecodeOk(s, e.decoded);
    ReadPageOk(Decode(s.(slot := s.slot.(finalized := true)), e.decoded), e.page);
  }

  lemma StoresBackedUp(s: State, e: Ending)
    requires SlotOk(s) && s.slot.ready && s.slot.tmp == Backup
    requires e.whole && s.slot.statuscode > 0 && !s.slot.job.testmode
    ensures Settles(s, e, Finalize(s, e))
  {
    if s.slot.job.path in s.files {
      DropOk(s);
      ReadPageOk(DropBackup(s.(slot := s.slot.(finalized := true))), e.page);
    } else {
      RestoreOk(s, e.moved);
    }
  }

  lemma StoresAsIs(s: State, e: Ending)
    requires SlotOk(s) && s.slot.ready && !s.slot.finalized && s.slot.tmp != Backup && !(s.slot.compressed && e.sized)
    requires e.whole && s.slot.statuscode > 0 && !s.slot.job.testmode
    ensures Settles(s, e, Finalize(s, e))
  {
    SettlesNothing(s, e.moved);
    ReadPageOk(s.(slot := s.slot.(finalized := true)), e.page);
  }

  lemma Aborts(s: State, e: Ending)
    requires SlotOk(s) && s.slot.ready && !s.slot.finalized
    requires !e.whole || s.slot.statuscode <= 0 || s.slot.job.testmode
    ensures Settles(s, e, Finalize(s, e))
  {
    if s.slot.tmp == Backup {
      RestoreOk(s, e.moved);
    } else {
      SettlesNothing(s, e.moved);
    }
  }

  lemma FinalizeOk(s: State, e: Ending)
    requires SlotOk(s) && s.slot.ready && !s.slot.finalized
    ensures Settles(s, e, Finalize(s, e))
  {
    if !e.whole || s.slot.statuscode <= 0 || s.slot.job.testmode {
      Aborts(s, e);
    } else if s.slot.compressed && e.sized {
      StoresCoded(s, e);
    } else if s.slot.tmp == Backup {
      StoresBackedUp(s, e);
    } else {
      StoresAsIs(s, e);
    }
  }

  lemma OpenOk(s: State, ev: Event)
    requires SlotOk(s) && Legal(s, ev) && ev.Open?
    ensures SlotOk(OpenFile(s, ev)) && Safe(OpenFile(s, ev))
  {
  }

  lemma OpenFtpOk(s: State, ev: Event)
    requires SlotOk(s) && Legal(s, ev) && ev.OpenFtp?
    ensures SlotOk(OpenFtpFile(s, ev)) && Safe(OpenFtpFile(s, ev))
  {
  }

  lemma OtherOk(s: State, ev: Event)
    requires SlotOk(s) && Legal(s, ev) && (ev.Write? || ev.TooBig? || ev.End?)
    ensures SlotOk(Step(s, ev)) && Safe(Step(s, ev))
  {
  }

  /** A step keeps a copy exactly unless it removes the page that took the copy's
      place, and cannot read it. */
  lemma StepOk(s: State, ev: Event)
    requires SlotOk(s) && Legal(s, ev)
    ensures SlotOk(Step(s, ev)) && Safe(s)
    ensures Safe(Step(s, ev)) <==> !FailsToRead(s, ev)
  {
    match ev
    case Open(_, _, _) => OpenOk(s, ev);
    case OpenFtp(_, _) => OpenFtpOk(s, ev);
    case Settled(e) => FinalizeOk(s, e);
    case _ => OtherOk(s, ev);
  }

  /** A copy is dropped only for a whole body, received without error: the bytes
      written, or the decoded ones. They are then under the file's name, or were a
      small page, read back or lost. */
  lemma CommitsOnlyWhole(s: State, e: Ending)
    requires SlotOk(s) && !s.slot.finalized
    ensures var t := Finalize(s, e);
            t.slot.committed.Some? ==>
              && e.whole && s.slot.statuscode > 0 && s.slot.ready && t.slot.committed == NewFile(s, e)
              && (if !TakesPage(s, e) then Lookup(t.files, s.slot.job.path) == t.slot.committed
                  else if e.page == ReadIn then t.slot.body == t.slot.committed
                  else t.slot.statuscode == STATUSCODE_INVALID)
  {
    if s.slot.ready {
      FinalizeOk(s, e);
    }
  }

  // ---- giving the slot back ----

  /** Will back_delete leave the new file or the old copy on disk? A discarded
      placeholder leaves a backup that is pending and settled, or out of its reach. A
      slot finalized now must not have its page taken off the disk. Any other must
      have its file there, which is the old copy while a backup is pending, or a
      backup that was left behind. */
  predicate Keeps(s: State, cache: bool, e: Ending) {
    if Discards(s.slot) then AtBackup(s) && (s.slot.tmp == Backup ==> cache)
    else if cache && !s.slot.finalized then !TakesPage(s, e)
    else if s.slot.tmp == Backup then Lookup(s.files, s.slot.job.path) == s.slot.previous
    else s.slot.job.path in s.files || AtBackup(s)
  }

  lemma DeleteDiscards(s: State, cache: bool, e: Ending)
    requires SlotOk(s) && Copy(s.slot).Some? && Discards(s.slot)
    ensures OnDisk(Delete(s, cache, e)) <==> Keeps(s, cache, e)
  {
  }

  lemma DeleteFinalizes(s: State, e: Ending)
    requires SlotOk(s) && Copy(s.slot).Some? && !Discards(s.slot) && !s.slot.finalized
    ensures OnDisk(Delete(s, true, e)) <==> Keeps(s, true, e)
  {
    if s.slot.ready {
      FinalizeOk(s, e);
      ClearKeeps(Finalize(s, e));
    }
  }

  lemma ClearKeeps(s: State)
    requires NamesApart(s.slot) && s.slot.tmp != Backup
    ensures OnDisk(Clear(s)) <==> OnDisk(s)
  {
  }

  lemma DeleteClears(s: State, cache: bool, e: Ending)
    requires SlotOk(s) && Copy(s.slot).Some? && !Discards(s.slot) && (cache ==> s.slot.finalized)
    ensures OnDisk(Delete(s, cache, e)) <==> Keeps(s, cache, e)
  {
  }

  /** back_delete leaves one of the two on disk exactly then. */
  lemma DeleteKeepsExactly(s: State, cache: bool, e: Ending)
    requires SlotOk(s) && Copy(s.slot).Some?
    ensures OnDisk(Delete(s, cache, e)) <==> Keeps(s, cache, e)
  {
    if Discards(s.slot) {
      DeleteDiscards(s, cache, e);
    } else if cache && !s.slot.finalized {
      DeleteFinalizes(s, e);
    } else {
      DeleteClears(s, cache, e);
    }
  }

  /** With a cache, a pending backup is lost only to a page that is read back. */
  lemma CacheKeepsBackup(s: State, e: Ending)
    requires SlotOk(s) && s.slot.tmp == Backup
    ensures OnDisk(Delete(s, true, e)) <==> !TakesPage(s, e)
  {
    DeleteKeepsExactly(s, true, e);
  }

  /** Without a cache, the bytes of an aborted re-fetch are all that is left. */
  lemma NoCacheLoses(s: State, e: Ending)
    requires SlotOk(s) && s.slot.tmp == Backup && Lookup(s.files, s.slot.job.path) != s.slot.previous
    ensures !OnDisk(Delete(s, false, e)) && !Safe(Delete(s, false, e))
  {
  }

  /** back_finalize has nothing to commit when the new file was never created: the
      copy goes back, or stays at its backup name when it cannot. */
  lemma FailedCreateRestores(files: Files, path: string, delayed: bool, e: Ending)
    requires !InTmpDir(path) && path in files
    ensures var s := OpenFile(Start(files, path, delayed, false, false), Open(false, true, false));
            var t := Finalize(s, e);
            Lookup(t.files, if e.moved then path else Bak(path)) == Some(files[path]) && t.slot.committed == None
  {
    OwnNames(path);
  }

  // ---- cancelling a queued link ----

  /** Cancelling leaves one of the two on disk exactly when the file is there, which
      must be the old copy while a backup is pending, or a backup was left behind. */
  lemma CancelKeepsExactly(s: State, name: string)
    requires SlotOk(s) && Copy(s.slot).Some? && CancelTakes(s.slot, name)
    ensures OnDisk(Cancel(s, name))
       <==> if s.slot.tmp == Backup then Lookup(s.files, name) == s.slot.previous else name in s.files || AtBackup(s)
  {
    DeleteKeepsExactly(s, false, NO_ENDING);
  }

  /** An FTP transfer that fails is left ready and not writing, with its backup
      pending: only a code above 0 is finalized. Cancelling its link then leaves its
      bytes in place of the copy. */
  lemma FailedFtpIsCancelled(files: Files, path: string, bytes: string, code: int)
    requires !InTmpDir(path) && path in files && code <= 0
    ensures var r := RunSlot(Start(files, path, false, false, true), [OpenFtp(true, true), Write(bytes), End(code)]);
            && r.legal && CancelTakes(r.state.slot, path) && r.state.slot.tmp == Backup
            && r.state.slot.previous == Some(files[path]) && r.state.slot.committed == None
            && r.state.slot.statuscode == code
            && var t := Cancel(r.state, path);
               Lookup(t.files, path) == Some(bytes) && Lookup(t.files, Bak(path)) == None
  {
    OwnNames(path);
    var s := Start(files, path, false, false, true);
    var e1, e2, e3 := OpenFtp(true, true), Write(bytes), End(code);
    assert [e1][..0] == [] && [e1, e2][..1] == [e1] && [e1, e2, e3][..2] == [e1, e2];
    var s1 := OpenFtpFile(s, e1);
    assert RunSlot(s, []) == Run(s, true);
    assert RunSlot(s, [e1]) == Run(s1, true);
    var s2 := Step(s1, e2);
    assert "" + bytes == bytes;
    assert RunSlot(s, [e1, e2]) == Run(s2, true);
    assert RunSlot(s, [e1, e2, e3]) == Run(Step(s2, e3), true);
  }

  const PAGE := Ending(true, true, Failed, true, ReadIn)

  /** A small page fetched over its old copy is left in memory alone: the copy was
      dropped for it, and then its file was removed. */
  lemma PageIsInMemory(files: Files, path: string, bytes: string, page: Page)
    requires !InTmpDir(path) && path in files && IsSmall(bytes) && page != NoPage
    ensures var evs := [Open(false, true, true), Write(bytes), End(HTTP_OK), Settled(PAGE.(page := page))];
            var r := RunSlot(Start(files, path, false, false, false), evs);
            && r.legal && path !in r.state.files && Bak(path) !in r.state.files
            && r.state.slot.previous == Some(files[path]) && r.state.slot.committed == Some(bytes)
            && r.state.slot.ready
            && r.state.slot.job == Job(path, Bak(path), Spool(path), false, false, false, Some(files[path]))
            && (page == ReadIn ==> r.state.slot.body == Some(bytes) && !r.state.slot.isWrite)
            && (page == ReadFails ==> r.state.slot.body == None)
  {
    OwnNames(path);
    var s := Start(files, path, false, false, false);
    var e1, e2, e3, e4 := Open(false, true, true), Write(bytes), End(HTTP_OK), Settled(PAGE.(page := page));
    assert [e1][..0] == [] && [e1, e2][..1] == [e1] && [e1, e2, e3][..2] == [e1, e2];
    assert [e1, e2, e3, e4][..3] == [e1, e2, e3];
    var s1 := OpenFile(s, e1);
    assert RunSlot(s, []) == Run(s, true);
    assert RunSlot(s, [e1]) == Run(s1, true);
    var s2 := Step(s1, e2);
    assert "" + bytes == bytes;
    assert RunSlot(s, [e1, e2]) == Run(s2, true);
    var s3 := Step(s2, e3);
    assert RunSlot(s, [e1, e2, e3]) == Run(s3, true);
    assert RunSlot(s, [e1, e2, e3, e4]) == Run(Step(s3, e4), true);
  }

  /** Cancelling its link then leaves neither on disk. */
  lemma PageIsCancelled(files: Files, path: string, bytes: string)
    requires !InTmpDir(path) && path in files && IsSmall(bytes)
    ensures var evs := [Open(false, true, true), Write(bytes), End(HTTP_OK), Settled(PAGE)];
            var s := RunSlot(Start(files, path, false, false, false), evs).state;
            && CancelTakes(s.slot, path) && Safe(s) && !OnDisk(s)
            && var t := Cancel(s, path); path !in t.files && Bak(path) !in t.files && t.slot.body == None
  {
    PageIsInMemory(files, path, bytes, ReadIn);
    OwnNames(path);
  }

  /** A read error loses both without a cancel. */
  lemma UnreadPageIsLost(files: Files, path: string, bytes: string)
    requires !InTmpDir(path) && path in files && IsSmall(bytes)
    ensures var evs := [Open(false, true, true), Write(bytes), End(HTTP_OK), Settled(PAGE.(page := ReadFails))];
            var s := RunSlot(Start(files, path, false, false, false), evs).state;
            !Safe(s) && path !in s.files && Bak(path) !in s.files
  {
    PageIsInMemory(files, path, bytes, ReadFails);
  }

  // ---- runs of one slot ----

  datatype Run = Run(state: State, legal: bool)

  function RunSlot(s: State, evs: seq<Event>): Run {
    if evs == [] then Run(s, true) else
    var before := RunSlot(s, evs[..|evs| - 1]);
    if before.legal && Legal(before.state, evs[|evs| - 1]) then Run(Step(before.state, evs[|evs| - 1]), true)
    else Run(before.state, false)
  }

  /** Did a step of the run remove a page that it could not read? */
  predicate ReadFailed(s: State, evs: seq<Event>) {
    evs != [] &&
    var before := RunSlot(s, evs[..|evs| - 1]);
    || ReadFailed(s, evs[..|evs| - 1])
    || (before.legal && Legal(before.state, evs[|evs| - 1]) && FailsToRead(before.state, evs[|evs| - 1]))
  }

  /** In every run of a slot, whatever renames and creations fail: the new file, as
      committed, or the old copy is on disk or read back into memory, if and only if no
      page was removed that could not be read. */
  lemma {:induction false} RunIsSafe(files: Files, path: string, delayed: bool, testmode: bool, ftp: bool,
                                     evs: seq<Event>)
    requires !InTmpDir(path)
    ensures var start := Start(files, path, delayed, testmode, ftp);
            var s := RunSlot(start, evs).state;
            SlotOk(s) && (Safe(s) <==> !ReadFailed(start, evs))
  {
    var start := Start(files, path, delayed, testmode, ftp);
    OwnNames(path);
    if evs != [] {
      var before := RunSlot(start, evs[..|evs| - 1]);
      RunIsSafe(files, path, delayed, testmode, ftp, evs[..|evs| - 1]);
      if before.legal && Legal(before.state, evs[|evs| - 1]) {
        StepOk(before.state, evs[|evs| - 1]);
      }
    }
  }

  // ---- slots side by side ----

  predicate Owns(slot: Slot, file: string) {
    file == slot.job.path || file == slot.job.bak || file == slot.job.spool
  }

  predicate SameNames(a: Slot, b: Slot) {
    a.job.path == b.job.path && a.job.bak == b.job.bak && a.job.spool == b.job.spool
  }

  ghost predicate Untouched(slot: Slot, was: Files, now: Files) {
    forall file :: !Owns(slot, file) ==> Lookup(now, file) == Lookup(was, file)
  }

  /** A step's reach: the slot's own three files. */
  ghost predicate StaysHome(s: State, t: State) {
    SameNames(s.slot, t.slot) && Untouched(s.slot, s.files, t.files)
  }

  lemma StepIsLocal(s: State, ev: Event)
    requires Legal(s, ev)
    ensures StaysHome(s, Step(s, ev))
  {
    if ev.Settled? {
      FinalizeIsLocal(s, ev.ending);
    } else if ev.Open? {
      OpenIsLocal(s, ev);
    } else if ev.OpenFtp? {
      OpenFtpIsLocal(s, ev);
    }
  }

  lemma OpenIsLocal(s: State, ev: Event)
    requires ev.Open?
    ensures StaysHome(s, OpenFile(s, ev))
  {
  }

  lemma OpenFtpIsLocal(s: State, ev: Event)
    requires ev.OpenFtp?
    ensures StaysHome(s, OpenFtpFile(s, ev))
  {
  }

  lemma SettleIsLocal(s: State, commit: bool, moved: bool)
    ensures StaysHome(s, Settle(s, commit, moved))
  {
  }

  lemma DecodeIsLocal(s: State, decoded: Decoded)
    ensures StaysHome(s, Decode(s, decoded))
  {
  }

  lemma ReadPageIsLocal(s: State, page: Page)
    ensures StaysHome(s, ReadPage(s, page))
  {
  }

  lemma StoreIsLocal(s: State, e: Ending)
    ensures StaysHome(s, Store(s, e))
  {
    var t := if s.slot.compressed && e.sized then Decode(s, e.decoded) else s;
    DecodeIsLocal(s, e.decoded);
    SettleIsLocal(t, true, e.moved);
    ReadPageIsLocal(Settle(t, true, e.moved), e.page);
  }

  lemma FinalizeIsLocal(s: State, e: Ending)
    ensures StaysHome(s, Finalize(s, e))
  {
    var t := s.(slot := s.slot.(finalized := true));
    SettleIsLocal(s, false, e.moved);
    SettleIsLocal(t, false, e.moved);
    StoreIsLocal(t, e);
  }

  /** The slot's temporary files are named after its path. */
  predicate Named(slot: Slot) {
    !InTmpDir(slot.job.path) && slot.job.bak == Bak(slot.job.path) && slot.job.spool == Spool(slot.job.path)
  }

  lemma FilesAreApart(a: Slot, b: Slot, file: string)
    requires Named(a) && Named(b) && a.job.path != b.job.path && Owns(a, file)
    ensures !Owns(b, file)
  {
    TmpIsApart(a.job.path, b.job.path, "bak");
    TmpIsApart(a.job.path, b.job.path, "z");
    TmpIsApart(b.job.path, a.job.path, "bak");
    TmpIsApart(b.job.path, a.job.path, "z");
  }

  lemma TmpIsApart(p: string, q: string, ext: string)
    requires p != q && !InTmpDir(q) && (ext == "bak" || ext == "z")
    ensures TmpName(p, ext) != q && TmpName(p, ext) != Bak(q) && TmpName(p, ext) != Spool(q)
  {
    TmpDirLength(p, ext);
    if TmpName(p, ext) == Bak(q) {
      TmpNamesDiffer(p, q, ext, "bak");
    }
    if TmpName(p, ext) == Spool(q) {
      TmpNamesDiffer(p, q, ext, "z");
    }
  }

  /** So a slot never disturbs another one's copy. */
  lemma OthersAreSafe(s: State, ev: Event, other: Slot)
    requires Legal(s, ev) && SlotOk(s) && SlotOk(State(s.files, other))
    requires Named(s.slot) && Named(other) && other.job.path != s.slot.job.path
    ensures SlotOk(State(Step(s, ev).files, other))
  {
    StepIsLocal(s, ev);
    FilesAreApart(other, s.slot, other.job.path);
    FilesAreApart(other, s.slot, other.job.bak);
  }
}
