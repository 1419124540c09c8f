/** The change report's accumulator, shared by threads: one step for every stretch
    of code that holds its lock, in any order the threads take it. */
module Changes {
  import opened Wrappers

  type Md5 = string

  datatype Bucket = New | Changed | Unchanged | Gone

  /** What a digest was taken from: a file on disk, or the payload of a page. */
  datatype Origin = Disk | Payload

  datatype Digest = Digest(origin: Origin, md5: Md5)

  datatype Entry = Entry(file: string, url: string, rewritten: bool, notUpdated: bool, existed: bool, onDisk: bool,
                         listedPrev: bool, prevDigest: Option<Digest>, newDigest: Option<Digest>, prevSize: int,
                         size: int, bucket: Bucket)

  /** A zeroed entry. */
  function Fresh(file: string): Entry {
    Entry(file, "", false, false, false, false, false, None, None, -1, -1, New)
  }

  datatype Acc = Acc(index: map<string, nat>, entries: seq<Entry>, hasIndex: bool, oldIndex: bool, overflow: bool,
                     closed: bool)

  const EMPTY := Acc(map[], [], false, false, false, false)

  /** A notify between its two critical sections: its slot is new, and it looks at
      the file on disk. */
  datatype Pending = Pending(slot: nat, rewritten: bool)

  /** The notify of a file that a thread is in; a thread is in one at a time. */
  datatype Notify = Notify(file: string, thread: nat)

  /** `pending` holds the notifies under way. */
  datatype Sys = Sys(acc: Acc, pending: map<Notify, Pending>)

  const START := Sys(EMPTY, map[])

  /** A file of the mirror when the report is made: its size, -1 if there is none,
      and its digest if it can be read. */
  datatype OnDisk = OnDisk(size: int, md5: Option<Md5>)

  /** One stretch under the lock. `mem` says whether its allocations succeed. */
  datatype Event =
    | Begin(notify: Notify, rewritten: bool, mem: bool)
    | End(notify: Notify, url: string, notUpdated: bool, prevSize: int, md5: Option<Md5>, mem: bool)
    | Html(file: string, newMd5: Md5, prevMd5: Option<Md5>)
    | Dropped(file: string, kept: bool, mem: bool)
    | Previous(file: string)
    | Indexed
    | Report(disk: string -> OnDisk)
    | Close(disk: string -> OnDisk)
    | Free

  // ---- what an event does to an entry ----

  function Rewrite(e: Entry, rewritten: bool): Entry {
    e.(rewritten := e.rewritten || rewritten)
  }

  /** The second half of a notify. A digest of the file about to be overwritten
      gives way to one taken from payloads. */
  function Fill(e: Entry, rewritten: bool, ev: Event): Entry
    requires ev.End?
  {
    var hashed := ev.prevSize >= 0 && rewritten && ev.md5.Some?;
    e.(url := if ev.mem then ev.url else "", rewritten := e.rewritten || rewritten, notUpdated := ev.notUpdated,
       prevSize := ev.prevSize, onDisk := ev.prevSize >= 0,
       prevDigest := if hashed && e.newDigest == None then Some(Digest(Disk, ev.md5.value)) else e.prevDigest)
  }

  function Refine(e: Entry, ev: Event): Entry
    requires ev.Html?
  {
    e.(newDigest := Some(Digest(Payload, ev.newMd5)),
       prevDigest := match ev.prevMd5 case Some(m) => Some(Digest(Payload, m)) case None => None)
  }

  function Drop(file: string, kept: bool): Entry {
    Fresh(file).(listedPrev := true, bucket := if kept then New else Gone)
  }

  function Classify(rewritten: bool, existed: bool, notUpdated: bool, equal: Option<bool>): Bucket {
    if !rewritten then Unchanged
    else if !existed then New
    else match equal
      case Some(same) => if same then Unchanged else Changed
      case None => if notUpdated then Unchanged else Changed
  }

  /** The two digests the report compares, when it compares any. */
  function Compared(e: Entry, disk: OnDisk): Option<(Digest, Digest)> {
    if e.prevDigest == None then None
    else if e.newDigest.Some? then Some((e.newDigest.value, e.prevDigest.value))
    else match disk.md5
      case Some(m) => Some((Digest(Disk, m), e.prevDigest.value))
      case None => None
  }

  /** Are the bytes those of the previous mirror, as far as can be told? */
  function Same(e: Entry, disk: OnDisk): Option<bool> {
    if e.newDigest == None && disk.size >= 0 && e.prevSize >= 0 && disk.size != e.prevSize then Some(false)
    else match Compared(e, disk)
      case Some(pair) => Some(pair.0.md5 == pair.1.md5)
      case None => None
  }

  function Resolve(e: Entry, oldIndex: bool, disk: OnDisk): Entry {
    if e.bucket == Gone then e
    else
      var existed := if oldIndex then e.listedPrev else e.onDisk;
      var equal := if e.rewritten && existed then Same(e, disk) else None;
      e.(existed := existed, size := disk.size, bucket := Classify(e.rewritten, existed, e.notUpdated, equal))
  }

  function ResolveAll(es: seq<Entry>, oldIndex: bool, disk: string -> OnDisk): (rs: seq<Entry>)
    ensures |rs| == |es|
    ensures forall i :: 0 <= i < |es| ==> rs[i] == Resolve(es[i], oldIndex, disk(es[i].file))
  {
    if es == [] then []
    else ResolveAll(es[..|es| - 1], oldIndex, disk) + [Resolve(es[|es| - 1], oldIndex, disk(es[|es| - 1].file))]
  }

  function Resolved(a: Acc, disk: string -> OnDisk): Acc {
    a.(entries := ResolveAll(a.entries, a.oldIndex, disk))
  }

  // ---- steps ----

  function Append(a: Acc, e: Entry): Acc {
    a.(index := a.index[e.file := |a.entries|], entries := a.entries + [e])
  }

  function Update(a: Acc, i: nat, e: Entry): Acc
    requires i < |a.entries|
  {
    a.(entries := a.entries[i := e])
  }

  function BeginStep(s: Sys, ev: Event): Sys
    requires ev.Begin? && IndexOk(s.acc)
  {
    var a := s.acc;
    var file := ev.notify.file;
    if a.closed then s
    else if file in a.index then
      s.(acc := Update(a, a.index[file], Rewrite(a.entries[a.index[file]], ev.rewritten)))
    else if !ev.mem then s.(acc := a.(overflow := true))
    else Sys(Append(a, Fresh(file)), s.pending[ev.notify := Pending(|a.entries|, ev.rewritten)])
  }

  function EndStep(s: Sys, ev: Event): Sys
    requires ev.End?
  {
    if ev.notify !in s.pending then s
    else
      var a, p := s.acc, s.pending[ev.notify];
      var done := s.(pending := s.pending - {ev.notify});
      if a.closed || p.slot >= |a.entries| then done
      else done.(acc := Update(a, p.slot, Fill(a.entries[p.slot], p.rewritten, ev)).(overflow := a.overflow || !ev.mem))
  }

  /** hts_changes_html, dropped, previous and indexed. */
  function NoteStep(a: Acc, ev: Event): Acc
    requires (ev.Html? || ev.Dropped? || ev.Previous? || ev.Indexed?) && IndexOk(a)
  {
    if a.closed then a
    else match ev
      case Html(file, _, _) =>
        if file in a.index then Update(a, a.index[file], Refine(a.entries[a.index[file]], ev)) else a
      case Dropped(file, kept, mem) =>
        if file in a.index then a
        else if !mem then a.(overflow := true)
        else Append(a, Drop(file, kept))
      case Previous(file) =>
        var b := a.(hasIndex := true, oldIndex := true);
        if file in a.index then Update(b, a.index[file], a.entries[a.index[file]].(listedPrev := true)) else b
      case Indexed => a.(hasIndex := true)
  }

  function Step(s: Sys, ev: Event): Sys
    requires IndexOk(s.acc)
  {
    match ev
    case Begin(_, _, _) => BeginStep(s, ev)
    case End(_, _, _, _, _, _) => EndStep(s, ev)
    case Report(disk) => s.(acc := Resolved(s.acc, disk))
    case Close(disk) =>
      if s.acc.closed then s
      else s.(acc := Resolved(s.acc, disk).(closed := true))
    case Free => s.(acc := EMPTY)
    case _ => s.(acc := NoteStep(s.acc, ev))
  }

  /** The index and the entries name each other. */
  predicate IndexOk(a: Acc) {
    && (forall f :: f in a.index ==> a.index[f] < |a.entries| && a.entries[a.index[f]].file == f)
    && (forall i :: 0 <= i < |a.entries| ==> a.entries[i].file in a.index && a.index[a.entries[i].file] == i)
  }
}
