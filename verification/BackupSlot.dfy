/** The slot code that backs up, finalizes and clears, on the files of the mirror. */
module BackupSlot {
  import opened Wrappers
  import opened Backup
  import opened BackupLaws

  /** The mirror's directory tree, where a rename may fail and leave its source. */
  class Disk {
    var files: Files

    method RenameOver(src: string, dst: string, works: bool) returns (ok: bool)
      modifies this
      ensures ok == (works && src in old(files))
      ensures files == if ok then Rename(old(files), src, dst) else old(files)
    {
      ok := works && src in files;
      if ok {
        var content := files[src];
        files := files - {src};
        files := files[dst := content];
      }
    }

    method Unlink(file: string)
      modifies this
      ensures files == old(files) - {file}
    {
      files := files - {file};
    }

    method Create(file: string)
      modifies this
      ensures files == old(files)[file := ""]
    {
      files := files[file := ""];
    }
  }

  class SlotFile {
    const disk: Disk
    const job: Job
    var begun: bool
    var ready: bool
    var statuscode: int
    var isWrite: bool
    var out: bool
    var body: Option<Content>
    var compressed: bool
    var finalized: bool
    var tmp: Tmp
    ghost var coded: bool
    ghost var previous: Option<Content>
    ghost var committed: Option<Content>

    ghost function View(): State
      reads this, disk
    {
      State(disk.files, Slot(job, begun, ready, statuscode, isWrite, out, body, compressed, finalized,
                             tmp, coded, previous, committed))
    }

    constructor (disk: Disk, path: string, delayed: bool, testmode: bool, ftp: bool)
      ensures this.disk == disk && View() == Start(disk.files, path, delayed, testmode, ftp)
    {
      this.disk := disk;
      job := Job(path, Bak(path), Spool(path), delayed, testmode, ftp, Lookup(disk.files, path));
      begun, ready, statuscode, isWrite, out, body := false, false, 0, false, false, None;
      compressed, finalized, tmp, coded, previous, committed := false, false, NoTmp, false, None, None;
    }

    /** back_refetch_backup. The rename is tried again once the directory, which
        another slot may have removed, was made again. */
    method RefetchBackup(named: bool, first: bool, remade: bool, second: bool)
      modifies this, disk
      ensures View() == TakeBackup(old(View()), named && (first || (remade && second)))
    {
      tmp := NoTmp;
      if job.path in disk.files {
        var saved := false;
        ghost var content := disk.files[job.path];
        if named {
          saved := disk.RenameOver(job.path, job.bak, first);
          if !saved && remade {
            saved := disk.RenameOver(job.path, job.bak, second);
          }
        }
        if saved {
          tmp := Backup;
          previous := Some(content);
        }
      }
    }

    /** back_finalize_backup. Nothing is dropped for a file that was never created. */
    method FinalizeBackup(commit: bool, moved: bool) returns (ok: bool)
      modifies this, disk
      ensures View() == Settle(old(View()), commit, moved)
      ensures ok == (HasBackup(old(View().slot)) ==> Commits(old(View()), commit) == commit)
    {
      if tmp == NoTmp || compressed {
        return true;
      }
      var puts := commit && job.path in disk.files;
      if puts {
        committed := Lookup(disk.files, job.path);
        disk.Unlink(job.bak);
      } else {
        out := false;
        var restored := disk.RenameOver(if tmp == Backup then job.bak else job.spool, job.path, moved);
      }
      tmp := NoTmp;
      return puts == commit;
    }

    static lemma UnlinkLast(was: Files, now: Files, path: string, spool: string, content: Content)
      requires path != spool && (now == was || now == was[spool := ""])
      ensures now - {spool} == was - {spool}
      ensures now[path := content] - {spool} == (was - {spool})[path := content]
    {
    }

    /** The decoding in back_finalize, into a temporary that replaces the file. */
    method DecodeBody(decoded: Decoded)
      requires job.path != job.spool
      modifies this, disk
      ensures View() == Decode(old(View()), decoded)
    {
      ghost var was := disk.files;
      if !isWrite {
        disk.Create(job.spool);  // from memory to disk
      }
      UnlinkLast(was, disk.files, job.path, job.spool, if decoded.Whole? then decoded.content else "");
      out := false;
      if decoded == Failed {
        statuscode := STATUSCODE_INVALID;
      } else if decoded == Oversize {
        statuscode := STATUSCODE_TOO_BIG;
      } else if isWrite {
        if decoded.moved {
          disk.files := disk.files[job.path := decoded.content];
          committed := Some(decoded.content);
        } else {
          statuscode := STATUSCODE_INVALID;
        }
      }
      disk.Unlink(job.spool);
      tmp := NoTmp;
    }

    /** The page hack: a small page that was written to disk is read into memory, and
        unlinked even when it was not read. */
    method ReadPageBack(page: Page)
      modifies this, disk
      ensures View() == ReadPage(old(View()), page)
    {
      if statuscode == HTTP_OK && isWrite && job.path in disk.files {
        var size := |disk.files[job.path]|;
        if 0 < size && size < PAGE_MAX && page != NoPage {
          if page == ReadIn {
            body, isWrite := Some(disk.files[job.path]), false;
          } else {
            statuscode := STATUSCODE_INVALID;
          }
          disk.Unlink(job.path);
        }
      }
    }

    /** A whole body: decoded if it came coded, and kept. */
    method StoreHere(e: Ending)
      requires NamesApart(View().slot)
      modifies this, disk
      ensures View() == Store(old(View()), e)
    {
      if compressed && e.sized {
        DecodeBody(e.decoded);
      }
      var ok := FinalizeBackup(true, e.moved);
      if !ok {
        return;
      }
      ReadPageBack(e.page);
      compressed := false;
    }

    /** back_finalize. */
    method FinalizeHere(e: Ending)
      requires NamesApart(View().slot)
      modifies this, disk
      ensures View() == Finalize(old(View()), e)
    {
      if finalized {
        var ok := FinalizeBackup(false, e.moved);
      } else {
        finalized := true;
        FinalizeOnce(e);
      }
    }

    method FinalizeOnce(e: Ending)
      requires NamesApart(View().slot)
      modifies this, disk
      ensures View() == FinalizeFresh(old(View()), e)
    {
      if !e.whole && statuscode > 0 {
        var ok := FinalizeBackup(false, e.moved);
      } else if ready && statuscode > 0 && !job.testmode {
        StoreHere(e);
      } else {
        var ok := FinalizeBackup(false, e.moved);
      }
    }

    /** The first body bytes go to disk. */
    method OpenHere(coded: bool, named: bool, first: bool, remade: bool, second: bool, created: bool)
      requires Legal(View(), Open(coded, named && (first || (remade && second)), created))
      modifies this, disk
      ensures View() == Step(old(View()), Open(coded, named && (first || (remade && second)), created))
    {
      if coded {
        OpenCoded(created);
      } else {
        OpenPlain(named, first, remade, second, created);
      }
    }

    method OpenCoded(created: bool)
      modifies this, disk
      ensures View() == OpenFile(old(View()), Open(true, false, created))
    {
      statuscode, begun, compressed, coded, tmp := HTTP_OK, true, true, true, Coded;
      if created {
        disk.Create(job.spool);
        isWrite, out := true, true;
      } else {
        ready := true;
      }
    }

    method OpenPlain(named: bool, first: bool, remade: bool, second: bool, created: bool)
      modifies this, disk
      ensures View() == OpenFile(old(View()), Open(false, named && (first || (remade && second)), created))
    {
      statuscode, begun, compressed := HTTP_OK, true, false;
      RefetchBackup(named, first, remade, second);
      OpenOrStop(created);
    }

    /** filecreate, or the end of the slot without it. */
    method OpenOrStop(created: bool)
      modifies this, disk
      ensures var s := old(View());
              View() == if created then State(s.files[job.path := ""], s.slot.(isWrite := true, out := true))
                        else s.(slot := s.slot.(ready := true))
    {
      if created {
        disk.Create(job.path);
        isWrite, out := true, true;
      } else {
        ready := true;
      }
    }

    /** An FTP worker opens the file. */
    method OpenFtpHere(named: bool, first: bool, remade: bool, second: bool, created: bool)
      requires Legal(View(), OpenFtp(named && (first || (remade && second)), created))
      modifies this, disk
      ensures View() == Step(old(View()), OpenFtp(named && (first || (remade && second)), created))
    {
      begun := true;
      RefetchBackup(named, first, remade, second);
      if created {
        disk.Create(job.path);
        out := true;
      }
    }

    /** back_clear_entry, which unlinks whatever temporary is left. */
    method ClearHere()
      modifies this, disk
      ensures View() == Clear(old(View()))
    {
      if tmp != NoTmp {
        disk.Unlink(if tmp == Backup then job.bak else job.spool);
      }
      tmp, out, isWrite, body := NoTmp, false, false, None;
    }

    /** back_delayed_discard, for a placeholder that is still written to, or failed. */
    method DiscardHere()
      modifies this, disk
      ensures View() == Discard(old(View()))
    {
      if isWrite && job.delayed && (!ready || statuscode <= 0) {
        out, isWrite := false, false;
        disk.Unlink(job.path);
      }
    }

    /** back_delete, and what it leaves on disk. */
    method DeleteHere(cache: bool, e: Ending)
      requires SlotOk(View())
      modifies this, disk
      ensures View() == Delete(old(View()), cache, e)
      ensures Copy(old(View()).slot).Some? ==> (OnDisk(View()) <==> Keeps(old(View()), cache, e))
    {
      if Copy(View().slot).Some? {
        DeleteKeepsExactly(View(), cache, e);
      }
      DeleteSteps(cache, e);
    }

    method DeleteSteps(cache: bool, e: Ending)
      requires NamesApart(View().slot)
      modifies this, disk
      ensures View() == Delete(old(View()), cache, e)
    {
      DiscardHere();
      if !finalized && cache {
        FinalizeHere(e);
      }
      ClearHere();
    }
  }
}
