/** A file re-fetched over its previous copy: the copy is moved aside, and dropped or
    put back when the transfer is settled. */
module Backup {
  import opened Wrappers

  type Content = string

  /** What is in the mirror. */
  type Files = map<string, Content>

  const HTTP_OK := 200
  const STATUSCODE_INVALID := -1
  const STATUSCODE_TOO_BIG := -7
  const TMPDIR := "~hts-tmp"
  const PAGE_MAX := 8192

  // ---- names ----

  /** The length of the directory part of a path, its last slash included. */
  function DirLength(path: string): (n: nat)
    ensures n <= |path| && (n > 0 ==> path[n - 1] == '/')
    ensures forall i :: n <= i < |path| ==> path[i] != '/'
  {
    if path == "" then 0
    else if path[|path| - 1] == '/' then |path|
    else DirLength(path[..|path| - 1])
  }

  /** back_tmpname: the temporary file of a path, in a directory beside it. */
  function TmpName(path: string, ext: string): string {
    var n := DirLength(path);
    path[..n] + (TMPDIR + "/" + (path[n..] + ("." + ext)))
  }

  function Bak(path: string): string {
    TmpName(path, "bak")
  }

  function Spool(path: string): string {
    TmpName(path, "z")
  }

  // ---- the slot ----

  /** What the slot's temporary name stands for: the previous copy, moved aside, or
      the coded body on its way to be decoded. */
  datatype Tmp = NoTmp | Backup | Coded

  /** What a slot is for: the file, the names of its temporary files, and in `before`,
      for the proofs, the file when the slot started. */
  datatype Job = Job(path: string, bak: string, spool: string, delayed: bool, testmode: bool, ftp: bool,
                     before: Option<Content>)

  /** A slot's part in writing its file, and in `body` the page it read back from
      there. For the proofs, `coded` says that the body came coded, and `previous` and
      `committed` remember the copy that was moved aside and what took its place. */
  datatype Slot = Slot(job: Job, begun: bool, ready: bool, statuscode: int, isWrite: bool, out: bool,
                       body: Option<Content>, compressed: bool, finalized: bool, tmp: Tmp, coded: bool,
                       previous: Option<Content>, committed: Option<Content>)

  datatype State = State(files: Files, slot: Slot)

  function Lookup(files: Files, path: string): Option<Content> {
    if path in files then Some(files[path]) else None
  }

  function Rename(files: Files, src: string, dst: string): Files
    requires src in files
  {
    (files - {src})[dst := files[src]]
  }

  function Start(files: Files, path: string, delayed: bool, testmode: bool, ftp: bool): State {
    State(files, Slot(Job(path, Bak(path), Spool(path), delayed, testmode, ftp, Lookup(files, path)),
                      false, false, 0, false, false, None, false, false, NoTmp, false, None, None))
  }

  // ---- backup, restore, commit ----

  /** back_refetch_backup: `moved` says whether the copy could be moved aside. */
  function TakeBackup(s: State, moved: bool): State {
    var slot := s.slot.(tmp := NoTmp);
    if s.slot.job.path in s.files && moved then
      State(Rename(s.files, s.slot.job.path, s.slot.job.bak),
        slot.(tmp := Backup, previous := Some(s.files[s.slot.job.path])))
    else s.(slot := slot)
  }

  /** Does back_finalize_backup have a backup to settle? */
  predicate HasBackup(slot: Slot) {
    slot.tmp != NoTmp && !slot.compressed
  }

  /** Does settling put the new file in place? Only where there is one. */
  predicate Commits(s: State, commit: bool) {
    commit && s.slot.job.path in s.files
  }

  /** The new copy is good: the backup goes. */
  function DropBackup(s: State): State {
    State(s.files - {s.slot.job.bak}, s.slot.(tmp := NoTmp, committed := Lookup(s.files, s.slot.job.path)))
  }

  /** The temporary file a slot names. */
  function TmpFile(slot: Slot): string {
    if slot.tmp == Backup then slot.job.bak else slot.job.spool
  }

  /** The backup goes back, or stays where it is when it cannot. */
  function Restore(s: State, moved: bool): State {
    var tmp := TmpFile(s.slot);
    State(if moved && tmp in s.files then Rename(s.files, tmp, s.slot.job.path) else s.files,
          s.slot.(tmp := NoTmp, out := false))
  }

  /** back_finalize_backup; `moved` says whether a copy could be put back. */
  function Settle(s: State, commit: bool, moved: bool): State {
    if !HasBackup(s.slot) then s else if Commits(s, commit) then DropBackup(s) else Restore(s, moved)
  }

  /** What decoding a coded body comes to: it fails, passes the limit, or gives a whole body, which
      then replaces the file if the rename succeeds. */
  datatype Decoded = Failed | Oversize | Whole(content: Content, moved: bool)

  /** The decoding part of back_finalize. The coded bytes are never decoded over the
      file; a failure leaves it alone. */
  function Decode(s: State, decoded: Decoded): State {
    var slot := s.slot.(out := false, tmp := NoTmp);
    var files := s.files - {s.slot.job.spool};
    match decoded
    case Failed => State(files, slot.(statuscode := STATUSCODE_INVALID))
    case Oversize => State(files, slot.(statuscode := STATUSCODE_TOO_BIG))
    case Whole(content, moved) =>
      if !s.slot.isWrite then State(files, slot)
      else if moved then State(files[s.slot.job.path := content], slot.(committed := Some(content)))
      else State(files, slot.(statuscode := STATUSCODE_INVALID))
  }

  /** What becomes of a small file that may be a page: it is left alone (it is no page,
      or cannot be opened), read into memory, or lost to a read error. */
  datatype Page = NoPage | ReadIn | ReadFails

  predicate IsSmall(content: Content) {
    0 < |content| < PAGE_MAX
  }

  /** A small page that was written to disk is read back, and removed either way. */
  function ReadPage(s: State, page: Page): State {
    var path := s.slot.job.path;
    if s.slot.statuscode == HTTP_OK && s.slot.isWrite && path in s.files && IsSmall(s.files[path]) then
      match page
      case NoPage => s
      case ReadIn => State(s.files - {path}, s.slot.(isWrite := false, body := Some(s.files[path])))
      case ReadFails => State(s.files - {path}, s.slot.(statuscode := STATUSCODE_INVALID))
    else s
  }

  /** How a transfer turns out. `whole`: the body has its declared length and its last
      chunk, or broken files are tolerated; `sized`: the body is not empty. */
  datatype Ending = Ending(whole: bool, sized: bool, decoded: Decoded, moved: bool, page: Page)

  /** back_finalize. */
  function Finalize(s: State, e: Ending): State {
    if s.slot.finalized then Settle(s, false, e.moved)
    else FinalizeFresh(s.(slot := s.slot.(finalized := true)), e)
  }

  /** Only a whole body that was received without error is stored. */
  function FinalizeFresh(s: State, e: Ending): State {
    if !e.whole && s.slot.statuscode > 0 then Settle(s, false, e.moved)
    else if s.slot.ready && s.slot.statuscode > 0 && !s.slot.job.testmode then Store(s, e)
    else Settle(s, false, e.moved)
  }

  /** A body with its coding undone, put in place; a file that was never created ends
      it there. */
  function Store(s: State, e: Ending): State {
    var t := if s.slot.compressed && e.sized then Decode(s, e.decoded) else s;
    var u := Settle(t, true, e.moved);
    if HasBackup(t.slot) && !Commits(t, true) then u else Uncode(ReadPage(u, e.page))
  }

  function Uncode(s: State): State {
    s.(slot := s.slot.(compressed := false))
  }

  // ---- steps ----

  datatype Event =
    /** The first body bytes go to disk: plain ones to the file itself. */
    | Open(compressed: bool, moved: bool, created: bool)
    /** An FTP worker opens the file. It never counts as writing. */
    | OpenFtp(moved: bool, created: bool)
    | Write(bytes: string)
    /** The transfer grew past its limit; its partial file goes, unless a backup is to
        be put back over it. */
    | TooBig
    /** The transfer ends, well or not. */
    | End(statuscode: int)
    | Settled(ending: Ending)

  /** Can the event happen to the slot? Each caller of back_finalize finalizes a slot
      that just got ready, or asks first whether it was finalized. */
  predicate Legal(s: State, ev: Event) {
    match ev
    case Open(_, _, _) => !s.slot.ready && !s.slot.begun && !s.slot.job.ftp && !s.slot.job.testmode
    case OpenFtp(_, _) => !s.slot.ready && !s.slot.begun && s.slot.job.ftp
    case Write(_) => !s.slot.ready && s.slot.out
    case TooBig => !s.slot.ready && !s.slot.job.ftp
    case End(_) => !s.slot.ready
    case Settled(_) => s.slot.ready && !s.slot.finalized
  }

  function OpenFile(s: State, ev: Event): State
    requires ev.Open?
  {
    if ev.compressed then
      var slot := s.slot.(begun := true, compressed := true, coded := true, tmp := Coded, statuscode := HTTP_OK);
      if ev.created then State(s.files[s.slot.job.spool := ""], slot.(isWrite := true, out := true))
      else s.(slot := slot.(ready := true))
    else
      var t := TakeBackup(s.(slot := s.slot.(begun := true, compressed := false, statuscode := HTTP_OK)), ev.moved);
      if ev.created then State(t.files[s.slot.job.path := ""], t.slot.(isWrite := true, out := true))
      else t.(slot := t.slot.(ready := true))
  }

  function OpenFtpFile(s: State, ev: Event): State
    requires ev.OpenFtp?
  {
    var t := TakeBackup(s.(slot := s.slot.(begun := true)), ev.moved);
    if ev.created then State(t.files[s.slot.job.path := ""], t.slot.(out := true)) else t
  }

  /** The file the slot writes to. */
  function Target(slot: Slot): string {
    if slot.compressed then slot.job.spool else slot.job.path
  }

  function Step(s: State, ev: Event): State
    requires Legal(s, ev)
  {
    match ev
    case Open(_, _, _) => OpenFile(s, ev)
    case OpenFtp(_, _) => OpenFtpFile(s, ev)
    case Write(bytes) =>
      var was := Lookup(s.files, Target(s.slot)).GetOr("");
      s.(files := s.files[Target(s.slot) := was + bytes])
    case TooBig =>
      State(if s.slot.isWrite && s.slot.tmp == NoTmp then s.files - {s.slot.job.path} else s.files,
            s.slot.(ready := true, statuscode := STATUSCODE_TOO_BIG))
    case End(code) => s.(slot := s.slot.(ready := true, statuscode := code))
    case Settled(e) => Finalize(s, e)
  }

  // ---- the slot is given back ----

  /** back_delayed_discard: a cancelled placeholder has no use. */
  predicate Discards(slot: Slot) {
    slot.isWrite && slot.job.delayed && (!slot.ready || slot.statuscode <= 0)
  }

  function Discard(s: State): State {
    if Discards(s.slot) then
      State(s.files - {s.slot.job.path}, s.slot.(out := false, isWrite := false))
    else s
  }

  /** back_clear_entry, as far as the slot's files and its page go. */
  function Clear(s: State): State {
    State(if s.slot.tmp == NoTmp then s.files else s.files - {TmpFile(s.slot)},
          s.slot.(tmp := NoTmp, out := false, isWrite := false, body := None))
  }

  /** back_delete. Without a cache the slot is cleared as it stands. */
  function Delete(s: State, cache: bool, e: Ending): State {
    var t := Discard(s);
    Clear(if cache && !t.slot.finalized then Finalize(t, e) else t)
  }

  // ---- a queued link is cancelled ----

  /** The slots that live_cancel_link_ takes for the link saved as `name`. */
  predicate CancelTakes(slot: Slot, name: string) {
    slot.ready && !slot.isWrite && !slot.job.testmode && slot.job.path == name
  }

  const NO_ENDING := Ending(false, false, Failed, false, NoPage)

  /** It deletes the slot without a cache, so that nothing is recorded as fetched. */
  function Cancel(s: State, name: string): State {
    if CancelTakes(s.slot, name) then Delete(s, false, NO_ENDING) else s
  }
}
