/** What every interleaving of the change report's steps keeps. */
module ChangesLaws {
  import opened Wrappers
  import opened Changes

  // ---- invariants ----

  /** The report never compares a payload with a file on disk. */
  ghost predicate OneKind(e: Entry) {
    && (e.newDigest.Some? ==> e.newDigest.value.origin == Payload)
    && (e.prevDigest.Some? ==> e.prevDigest.value.origin == if e.newDigest.Some? then Payload else Disk)
  }

  ghost predicate AccOk(a: Acc) {
    IndexOk(a) && forall i :: 0 <= i < |a.entries| ==> OneKind(a.entries[i])
  }

  /** A notify under way is on its own file's slot. */
  ghost predicate PendingOk(s: Sys) {
    forall n :: n in s.pending ==> OnSlot(s.acc, n.file, s.pending[n].slot)
  }

  ghost predicate OnSlot(a: Acc, f: string, slot: nat) {
    f in a.index && a.index[f] == slot
  }

  ghost predicate SysOk(s: Sys) {
    AccOk(s.acc) && PendingOk(s)
  }

  /** All but what a report computes. */
  ghost predicate SameSample(a: Entry, b: Entry) {
    a == b.(existed := a.existed, size := a.size, bucket := a.bucket)
  }

  /** Slots are handed out once and for all. */
  ghost predicate Grows(a: Acc, b: Acc) {
    && (forall f :: f in a.index ==> OnSlot(b, f, a.index[f]))
    && |a.entries| <= |b.entries|
    && forall i :: 0 <= i < |a.entries| ==> b.entries[i].file == a.entries[i].file
  }

  lemma AppendOk(a: Acc, e: Entry)
    requires AccOk(a) && e.file !in a.index && OneKind(e)
    ensures AccOk(Append(a, e)) && Grows(a, Append(a, e))
  {
  }

  lemma UpdateOk(a: Acc, i: nat, e: Entry)
    requires AccOk(a) && i < |a.entries| && e.file == a.entries[i].file && OneKind(e)
    ensures AccOk(Update(a, i, e)) && Grows(a, Update(a, i, e))
  {
  }

  lemma ReplaceOk(a: Acc, es: seq<Entry>)
    requires AccOk(a) && |es| == |a.entries|
    requires forall i :: 0 <= i < |es| ==> es[i].file == a.entries[i].file && OneKind(es[i])
    ensures AccOk(a.(entries := es)) && Grows(a, a.(entries := es))
  {
  }

  lemma ResolveOk(a: Acc, disk: string -> OnDisk)
    requires AccOk(a)
    ensures AccOk(Resolved(a, disk)) && Grows(a, Resolved(a, disk))
  {
    var es := ResolveAll(a.entries, a.oldIndex, disk);
    forall i | 0 <= i < |es| ensures es[i].file == a.entries[i].file && OneKind(es[i]) {
      assert SameSample(es[i], a.entries[i]) && OneKind(a.entries[i]);
    }
    ReplaceOk(a, es);
  }

  lemma NoteOk(a: Acc, ev: Event)
    requires AccOk(a) && (ev.Html? || ev.Dropped? || ev.Previous? || ev.Indexed?)
    ensures AccOk(NoteStep(a, ev)) && Grows(a, NoteStep(a, ev))
  {
    if !a.closed && !ev.Indexed? {
      if ev.file in a.index {
        var i := a.index[ev.file];
        match ev
        case Html(_, _, _) => UpdateOk(a, i, Refine(a.entries[i], ev));
        case Previous(_) => UpdateOk(a.(hasIndex := true, oldIndex := true), i, a.entries[i].(listedPrev := true));
        case _ =>
      } else if ev.Dropped? {
        AppendOk(a, Drop(ev.file, ev.kept));
      }
    }
  }

  lemma BeginOk(s: Sys, ev: Event)
    requires AccOk(s.acc) && ev.Begin?
    ensures AccOk(BeginStep(s, ev).acc) && Grows(s.acc, BeginStep(s, ev).acc)
  {
    var a, file := s.acc, ev.notify.file;
    if file in a.index {
      var i := a.index[file];
      UpdateOk(a, i, Rewrite(a.entries[i], ev.rewritten));
    } else {
      AppendOk(a, Fresh(file));
    }
  }

  lemma EndOk(s: Sys, ev: Event)
    requires AccOk(s.acc) && ev.End?
    ensures AccOk(EndStep(s, ev).acc) && Grows(s.acc, EndStep(s, ev).acc)
  {
    var a := s.acc;
    if ev.notify in s.pending && s.pending[ev.notify].slot < |a.entries| {
      var p := s.pending[ev.notify];
      UpdateOk(a, p.slot, Fill(a.entries[p.slot], p.rewritten, ev));
    }
  }

  lemma ClosingOk(a: Acc, b: Acc)
    requires AccOk(b) && Grows(a, b)
    ensures AccOk(b.(closed := true)) && Grows(a, b.(closed := true))
  {
  }

  lemma StepAccOk(s: Sys, ev: Event)
    requires AccOk(s.acc)
    ensures AccOk(Step(s, ev).acc) && (!ev.Free? ==> Grows(s.acc, Step(s, ev).acc))
  {
    match ev
    case Begin(_, _, _) => BeginOk(s, ev);
    case End(_, _, _, _, _, _) => EndOk(s, ev);
    case Report(disk) => ResolveOk(s.acc, disk);
    case Close(disk) =>
      ResolveOk(s.acc, disk);
      ClosingOk(s.acc, Resolved(s.acc, disk));
    case Free =>
    case _ => NoteOk(s.acc, ev);
  }

  /** Every step keeps the index exact, every notify under way on its own file's
      slot, and the digests of an entry of one kind. Only Free can break this. */
  lemma StepOk(s: Sys, ev: Event)
    requires SysOk(s) && !ev.Free?
    ensures SysOk(Step(s, ev))
  {
    StepAccOk(s, ev);
    var t := Step(s, ev);
    forall n | n in t.pending ensures OnSlot(t.acc, n.file, t.pending[n].slot) {
      if n in s.pending && t.pending[n] == s.pending[n] {
        assert OnSlot(s.acc, n.file, s.pending[n].slot);
      }
    }
  }

  function Run(es: seq<Event>): (s: Sys)
    ensures AccOk(s.acc)
  {
    if es == [] then START else
    var s := Run(es[..|es| - 1]);
    StepAccOk(s, es[|es| - 1]);
    Step(s, es[|es| - 1])
  }

  /** A run that frees the accumulator only while no notify is under way. */
  ghost predicate Kept(es: seq<Event>) {
    es == [] || (Kept(es[..|es| - 1]) && (es[|es| - 1].Free? ==> Run(es[..|es| - 1]).pending == map[]))
  }

  /** Freeing keeps every notify on its own slot if and only if none is under way. */
  lemma FreeExactly(s: Sys)
    requires SysOk(s)
    ensures SysOk(Step(s, Free)) <==> s.pending == map[]
  {
    if s.pending != map[] {
      var n :| n in s.pending;
      assert !OnSlot(EMPTY, n.file, s.pending[n].slot);
    }
  }

  lemma {:induction false} RunOk(es: seq<Event>)
    requires Kept(es)
    ensures SysOk(Run(es))
  {
    if es != [] {
      var s := Run(es[..|es| - 1]);
      RunOk(es[..|es| - 1]);
      if es[|es| - 1].Free? {
        FreeExactly(s);
      } else {
        StepOk(s, es[|es| - 1]);
      }
    }
  }

  /** Whenever the report compares digests, both are of one kind; a digest of the
      file on disk is never compared with a payload's. */
  lemma ComparesOneKind(es: seq<Event>, i: nat, disk: OnDisk)
    requires i < |Run(es).acc.entries|
    ensures match Compared(Run(es).acc.entries[i], disk)
            case Some(pair) => pair.0.origin == pair.1.origin
            case None => true
  {
    assert AccOk(Run(es).acc);
  }

  /** Free under a notify breaks it: the notify then fills another file's entry. */
  lemma FreeMovesSlots()
    ensures var n := Notify("a", 0);
            var es := [Begin(n, true, true), Free, Dropped("b", true, true), End(n, "u", false, -1, None, true)];
            Run(es).acc.entries == [Drop("b", true).(url := "u", rewritten := true)]
  {
    var n := Notify("a", 0);
    var e1, e2, e3, e4 := Begin(n, true, true), Free, Dropped("b", true, true), End(n, "u", false, -1, None, true);
    assert Run([]) == START;
    assert [e1][..0] == [] && [e1, e2][..1] == [e1] && [e1, e2, e3][..2] == [e1, e2];
    assert [e1, e2, e3, e4][..3] == [e1, e2, e3];
    var s1 := Step(START, e1);
    assert s1 == Sys(Append(EMPTY, Fresh("a")), map[n := Pending(0, true)]);
    assert Run([e1]) == s1;
    var s2 := Sys(EMPTY, map[n := Pending(0, true)]);
    assert Run([e1, e2]) == s2;
    var s3 := Sys(Append(EMPTY, Drop("b", true)), s2.pending);
    assert Run([e1, e2, e3]) == s3;
    assert Run([e1, e2, e3, e4]).acc.entries == [Fill(Drop("b", true), true, e4)];
  }

  // ---- after the report ----

  /** Once closed, no step records anything: entries stay, and keep all but what a
      report computes, which only another Report changes. */
  lemma ClosedIsFinal(s: Sys, ev: Event)
    requires SysOk(s) && s.acc.closed && !ev.Free?
    ensures Step(s, ev).acc.closed && Step(s, ev).acc.index == s.acc.index
    ensures !ev.Report? ==> Step(s, ev).acc == s.acc
    ensures |Step(s, ev).acc.entries| == |s.acc.entries|
    ensures forall i :: 0 <= i < |s.acc.entries| ==> SameSample(Step(s, ev).acc.entries[i], s.acc.entries[i])
  {
  }

  /** A later report stands alone: an earlier one leaves nothing in it. */
  lemma ResolveForgets(e: Entry, old1: bool, old2: bool, disk1: OnDisk, disk2: OnDisk)
    ensures Resolve(Resolve(e, old1, disk1), old2, disk2) == Resolve(e, old2, disk2)
  {
  }

  // ---- one file at a time ----

  /** What a file's own steps, and the few that concern all files, make of it: its
      entry, and what the notifies of it that are under way say. */
  datatype FileView = FileView(entry: Option<Entry>, waiting: map<Notify, bool>, closed: bool, oldIndex: bool)

  function EntryOf(a: Acc, f: string): Option<Entry>
    requires IndexOk(a)
  {
    if f in a.index then Some(a.entries[a.index[f]]) else None
  }

  /** The notifies of f that are under way, with their flags. */
  function Waiting(pending: map<Notify, Pending>, f: string): map<Notify, bool> {
    map n | n in pending && n.file == f :: pending[n].rewritten
  }

  lemma WaitingMore(pending: map<Notify, Pending>, f: string, n: Notify, p: Pending)
    ensures Waiting(pending[n := p], f)
         == if n.file == f then Waiting(pending, f)[n := p.rewritten] else Waiting(pending, f)
  {
  }

  lemma WaitingLess(pending: map<Notify, Pending>, f: string, n: Notify)
    ensures Waiting(pending - {n}, f) == Waiting(pending, f) - {n}
    ensures n.file != f ==> Waiting(pending, f) - {n} == Waiting(pending, f)
    ensures n in Waiting(pending, f) <==> n in pending && n.file == f
  {
  }

  function View(s: Sys, f: string): FileView
    requires IndexOk(s.acc)
  {
    FileView(EntryOf(s.acc, f), Waiting(s.pending, f), s.acc.closed, s.acc.oldIndex)
  }

  /** The steps that bear on f. */
  predicate Concerns(f: string, ev: Event) {
    match ev
    case Begin(n, _, _) => n.file == f
    case End(n, _, _, _, _, _) => n.file == f
    case Html(file, _, _) => file == f
    case Dropped(file, _, _) => file == f
    case Indexed => false
    case _ => true
  }

  function FileStep(f: string, v: FileView, ev: Event): FileView {
    if !Concerns(f, ev) then v else
    match ev
    case Begin(n, rewritten, mem) =>
      if v.closed then v
      else if v.entry.Some? then v.(entry := Some(Rewrite(v.entry.value, rewritten)))
      else if mem then v.(entry := Some(Fresh(f)), waiting := v.waiting[n := rewritten])
      else v
    case End(n, _, _, _, _, _) =>
      if n !in v.waiting then v
      else if v.closed || v.entry == None then v.(waiting := v.waiting - {n})
      else v.(waiting := v.waiting - {n}, entry := Some(Fill(v.entry.value, v.waiting[n], ev)))
    case Html(_, _, _) =>
      if v.closed || v.entry == None then v else v.(entry := Some(Refine(v.entry.value, ev)))
    case Dropped(_, kept, mem) =>
      if v.closed || v.entry.Some? || !mem then v else v.(entry := Some(Drop(f, kept)))
    case Previous(file) =>
      if v.closed then v
      else if file == f && v.entry.Some? then v.(oldIndex := true, entry := Some(v.entry.value.(listedPrev := true)))
      else v.(oldIndex := true)
    case Report(disk) =>
      if v.entry.Some? then v.(entry := Some(Resolve(v.entry.value, v.oldIndex, disk(f)))) else v
    case Close(disk) =>
      if v.closed then v
      else if v.entry.Some? then v.(closed := true, entry := Some(Resolve(v.entry.value, v.oldIndex, disk(f))))
      else v.(closed := true)
    case _ => FileView(None, v.waiting, false, false)  // Free; no other step concerns f
  }

  lemma UpdateIsLocal(a: Acc, i: nat, e: Entry, f: string)
    requires AccOk(a) && i < |a.entries| && e.file == a.entries[i].file && OneKind(e)
    ensures AccOk(Update(a, i, e))
    ensures EntryOf(Update(a, i, e), f) == if f == e.file then Some(e) else EntryOf(a, f)
  {
    UpdateOk(a, i, e);
  }

  lemma AppendIsLocal(a: Acc, e: Entry, f: string)
    requires AccOk(a) && e.file !in a.index && OneKind(e)
    ensures AccOk(Append(a, e))
    ensures EntryOf(Append(a, e), f) == if f == e.file then Some(e) else EntryOf(a, f)
  {
    AppendOk(a, e);
  }

  lemma BeginIsLocal(s: Sys, ev: Event, f: string)
    requires SysOk(s) && ev.Begin? && AccOk(Step(s, ev).acc)
    ensures View(Step(s, ev), f) == FileStep(f, View(s, f), ev)
  {
    var a, file := s.acc, ev.notify.file;
    if !a.closed {
      if file in a.index {
        KnownIsLocal(s, ev, f);
      } else if ev.mem {
        AddedIsLocal(s, ev, f);
      }
    }
  }

  lemma AddedIsLocal(s: Sys, ev: Event, f: string)
    requires SysOk(s) && ev.Begin? && !s.acc.closed && ev.notify.file !in s.acc.index && ev.mem
    requires AccOk(Step(s, ev).acc)
    ensures View(Step(s, ev), f) == FileStep(f, View(s, f), ev)
  {
    AppendIsLocal(s.acc, Fresh(ev.notify.file), f);
    WaitingMore(s.pending, f, ev.notify, Pending(|s.acc.entries|, ev.rewritten));
  }

  lemma KnownIsLocal(s: Sys, ev: Event, f: string)
    requires SysOk(s) && ev.Begin? && !s.acc.closed && ev.notify.file in s.acc.index && AccOk(Step(s, ev).acc)
    ensures View(Step(s, ev), f) == FileStep(f, View(s, f), ev)
  {
    var a, i := s.acc, s.acc.index[ev.notify.file];
    UpdateIsLocal(a, i, Rewrite(a.entries[i], ev.rewritten), f);
  }

  lemma EndIsLocal(s: Sys, ev: Event, f: string)
    requires SysOk(s) && ev.End? && AccOk(Step(s, ev).acc)
    ensures View(Step(s, ev), f) == FileStep(f, View(s, f), ev)
  {
    WaitingLess(s.pending, f, ev.notify);
    if ev.notify in s.pending {
      assert OnSlot(s.acc, ev.notify.file, s.pending[ev.notify].slot);
      FilledIsLocal(s, ev, f);
    }
  }

  lemma FilledIsLocal(s: Sys, ev: Event, f: string)
    requires AccOk(s.acc) && ev.End? && ev.notify in s.pending && AccOk(Step(s, ev).acc)
    requires OnSlot(s.acc, ev.notify.file, s.pending[ev.notify].slot)
    ensures View(Step(s, ev), f) == FileStep(f, View(s, f), ev)
  {
    var a, p := s.acc, s.pending[ev.notify];
    WaitingLess(s.pending, f, ev.notify);
    if !a.closed {
      var e := Fill(a.entries[p.slot], p.rewritten, ev);
      UpdateIsLocal(a, p.slot, e, f);
      EntryOnly(Update(a, p.slot, e), a.overflow || !ev.mem, f);
    }
  }

  lemma EntryOnly(a: Acc, overflow: bool, f: string)
    requires IndexOk(a)
    ensures IndexOk(a.(overflow := overflow)) && EntryOf(a.(overflow := overflow), f) == EntryOf(a, f)
  {
  }

  lemma HtmlIsLocal(s: Sys, ev: Event, f: string)
    requires SysOk(s) && ev.Html? && AccOk(Step(s, ev).acc)
    ensures View(Step(s, ev), f) == FileStep(f, View(s, f), ev)
  {
    var a := s.acc;
    if !a.closed && ev.file in a.index {
      UpdateIsLocal(a, a.index[ev.file], Refine(a.entries[a.index[ev.file]], ev), f);
    }
  }

  lemma DroppedIsLocal(s: Sys, ev: Event, f: string)
    requires SysOk(s) && ev.Dropped? && AccOk(Step(s, ev).acc)
    ensures View(Step(s, ev), f) == FileStep(f, View(s, f), ev)
  {
    if !s.acc.closed && ev.file !in s.acc.index {
      AppendIsLocal(s.acc, Drop(ev.file, ev.kept), f);
    }
  }

  lemma PreviousIsLocal(s: Sys, ev: Event, f: string)
    requires SysOk(s) && ev.Previous? && AccOk(Step(s, ev).acc)
    ensures View(Step(s, ev), f) == FileStep(f, View(s, f), ev)
  {
    var a := s.acc;
    if !a.closed && ev.file in a.index {
      var b := a.(hasIndex := true, oldIndex := true);
      UpdateIsLocal(b, a.index[ev.file], a.entries[a.index[ev.file]].(listedPrev := true), f);
    }
  }

  /** The shared table is exact: a step moves a file's view as it would move the
      file alone, whatever other files have in the table and on the way to it. */
  lemma StepIsLocal(s: Sys, ev: Event, f: string)
    requires SysOk(s)
    ensures AccOk(Step(s, ev).acc) && View(Step(s, ev), f) == FileStep(f, View(s, f), ev)
  {
    StepAccOk(s, ev);
    if ev.Begin? {
      BeginIsLocal(s, ev, f);
    } else if ev.End? {
      EndIsLocal(s, ev, f);
    } else if ev.Html? {
      HtmlIsLocal(s, ev, f);
    } else if ev.Dropped? {
      DroppedIsLocal(s, ev, f);
    } else if ev.Previous? {
      PreviousIsLocal(s, ev, f);
    }
  }

  /** A file alone, through the steps of a run. */
  function FileRun(f: string, es: seq<Event>): FileView {
    if es == [] then FileView(None, map[], false, false) else FileStep(f, FileRun(f, es[..|es| - 1]), es[|es| - 1])
  }

  lemma {:induction false} RunIsLocal(es: seq<Event>, f: string)
    requires Kept(es)
    ensures View(Run(es), f) == FileRun(f, es)
  {
    if es != [] {
      var before := es[..|es| - 1];
      RunIsLocal(before, f);
      RunOk(before);
      StepIsLocal(Run(before), es[|es| - 1], f);
    }
  }

  /** The steps of a run that bear on f, in order. */
  function Concerning(f: string, es: seq<Event>): seq<Event> {
    if es == [] then [] else
    var before := Concerning(f, es[..|es| - 1]);
    if Concerns(f, es[|es| - 1]) then before + [es[|es| - 1]] else before
  }

  lemma {:induction false} OthersDoNotMatter(f: string, es: seq<Event>)
    ensures FileRun(f, es) == FileRun(f, Concerning(f, es))
  {
    if es != [] {
      OthersDoNotMatter(f, es[..|es| - 1]);
      if Concerns(f, es[|es| - 1]) {
        var own := Concerning(f, es[..|es| - 1]);
        assert (own + [es[|es| - 1]])[..|own|] == own;
      }
    }
  }

  /** Two interleavings with the same steps on a file, in the same order, record the
      same of it. */
  lemma InterleavingDoesNotMatter(es: seq<Event>, fs: seq<Event>, f: string)
    requires Kept(es) && Kept(fs) && Concerning(f, es) == Concerning(f, fs)
    ensures View(Run(es), f) == View(Run(fs), f)
  {
    RunIsLocal(es, f);
    RunIsLocal(fs, f);
    OthersDoNotMatter(f, es);
    OthersDoNotMatter(f, fs);
  }
}
