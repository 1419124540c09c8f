/** Which bucket a file is in, told from the events alone. */
module ChangesBuckets {
  import opened Wrappers
  import opened Changes
  import opened ChangesLaws

  // ---- what the events say, since the accumulator was last freed ----

  /** Nothing was closed yet. */
  predicate IsOpen(es: seq<Event>) {
    es == [] || es[|es| - 1].Free? || (!es[|es| - 1].Close? && IsOpen(es[..|es| - 1]))
  }

  /** Is this a step that records f, when nothing recorded it before? */
  predicate RecordsIt(f: string, ev: Event) {
    (ev.Begin? && ev.notify.file == f && ev.mem) || (ev.Dropped? && ev.file == f && ev.mem)
  }

  predicate Known(f: string, es: seq<Event>) {
    es != [] && !es[|es| - 1].Free? && (Known(f, es[..|es| - 1]) || RecordsIt(f, es[|es| - 1]))
  }

  /** The flag of a notify that recorded its file and has not ended. */
  function UnderWay(n: Notify, es: seq<Event>): Option<bool> {
    if es == [] then None else
    var before, last := es[..|es| - 1], es[|es| - 1];
    if last.Free? || (last.End? && last.notify == n) then None
    else if last.Begin? && last.notify == n && last.mem && !Known(n.file, before) then Some(last.rewritten)
    else UnderWay(n, before)
  }

  /** What the notify that recorded f saw of it. */
  function Told(f: string, es: seq<Event>): Option<Event> {
    if es == [] then None else
    var before, last := es[..|es| - 1], es[|es| - 1];
    if last.Free? then None
    else if last.End? && last.notify.file == f && UnderWay(last.notify, before).Some? then Some(last)
    else Told(f, before)
  }

  /** Did it hash the file it was about to overwrite? */
  predicate Hashed(f: string, es: seq<Event>) {
    es != [] &&
    var before, last := es[..|es| - 1], es[|es| - 1];
    && !last.Free?
    && if last.End? && last.notify.file == f && UnderWay(last.notify, before).Some?
       then last.prevSize >= 0 && last.md5.Some? && UnderWay(last.notify, before) == Some(true)
       else Hashed(f, before)
  }

  /** Did a notify that ended, or one of a file already recorded, say it was rewritten? */
  predicate WasRewritten(f: string, es: seq<Event>) {
    es != [] &&
    var before, last := es[..|es| - 1], es[|es| - 1];
    && !last.Free?
    && (|| WasRewritten(f, before)
        || (last.Begin? && last.notify.file == f && last.rewritten && Known(f, before))
        || (last.End? && last.notify.file == f && UnderWay(last.notify, before) == Some(true)))
  }

  /** Did the index of the previous mirror, or the purge, list it? */
  predicate WasListed(f: string, es: seq<Event>) {
    es != [] &&
    var before, last := es[..|es| - 1], es[|es| - 1];
    && !last.Free?
    && (|| WasListed(f, before)
        || (last.Previous? && last.file == f && Known(f, before))
        || (last.Dropped? && last.file == f && last.mem && !Known(f, before)))
  }

  /** Was there an index at all? */
  predicate AnyIndex(es: seq<Event>) {
    es != [] && !es[|es| - 1].Free? && (es[|es| - 1].Previous? || AnyIndex(es[..|es| - 1]))
  }

  /** The last payload of a page. */
  function PageOf(f: string, es: seq<Event>): Option<Event> {
    if es == [] then None else
    var before, last := es[..|es| - 1], es[|es| - 1];
    if last.Free? then None
    else if last.Html? && last.file == f && Known(f, before) then Some(last)
    else PageOf(f, before)
  }

  /** Did the purge record it first, and not keep it? */
  predicate WasPurged(f: string, es: seq<Event>) {
    es != [] &&
    var before, last := es[..|es| - 1], es[|es| - 1];
    && !last.Free?
    && (WasPurged(f, before) || (last.Dropped? && last.file == f && last.mem && !last.kept && !Known(f, before)))
  }

  // ---- the entry says the same ----

  predicate ToldOk(e: Entry, told: Option<Event>)
    requires told.Some? ==> told.value.End?
  {
    match told
    case None => !e.notUpdated && e.prevSize == -1 && !e.onDisk && e.url == ""
    case Some(ev) =>
      && e.notUpdated == ev.notUpdated && e.prevSize == ev.prevSize && e.onDisk == (ev.prevSize >= 0)
      && e.url == if ev.mem then ev.url else ""
  }

  predicate DigestsOk(e: Entry, page: Option<Event>, told: Option<Event>, hashed: bool)
    requires (page.Some? ==> page.value.Html?) && (told.Some? ==> told.value.End?)
    requires hashed ==> told.Some? && told.value.md5.Some?
  {
    match page
    case Some(p) =>
      && e.newDigest == Some(Digest(Payload, p.newMd5))
      && e.prevDigest == (if p.prevMd5.Some? then Some(Digest(Payload, p.prevMd5.value)) else None)
    case None =>
      && e.newDigest == None
      && e.prevDigest == if hashed then Some(Digest(Disk, told.value.md5.value)) else None
  }

  lemma {:induction false} KindsOk(f: string, es: seq<Event>)
    ensures Told(f, es).Some? ==> Told(f, es).value.End?
    ensures PageOf(f, es).Some? ==> PageOf(f, es).value.Html?
    ensures Hashed(f, es) ==> Told(f, es).Some? && Told(f, es).value.End? && Told(f, es).value.md5.Some?
  {
    if es != [] {
      KindsOk(f, es[..|es| - 1]);
    }
  }

  ghost predicate EntryOk(f: string, es: seq<Event>, e: Entry) {
    KindsOk(f, es);
    && e.rewritten == WasRewritten(f, es) && e.listedPrev == WasListed(f, es)
    && ToldOk(e, Told(f, es)) && DigestsOk(e, PageOf(f, es), Told(f, es), Hashed(f, es))
    && (e.bucket == Gone <==> WasPurged(f, es))
  }

  /** Nothing is said of a file that is not recorded. */
  predicate Silent(f: string, es: seq<Event>) {
    && Told(f, es) == None && PageOf(f, es) == None && !Hashed(f, es)
    && !WasRewritten(f, es) && !WasListed(f, es) && !WasPurged(f, es)
  }

  /** The notifies under way are those of the view, at most one, which has still to
      tell what it saw. */
  ghost predicate WaitingOk(f: string, es: seq<Event>, v: FileView) {
    && (forall n :: n in v.waiting <==> n.file == f && UnderWay(n, es).Some?)
    && (forall n :: n in v.waiting ==> UnderWay(n, es) == Some(v.waiting[n]))
    && (forall n, m :: n in v.waiting && m in v.waiting ==> n == m)
    && (v.waiting != map[] ==> v.entry.Some? && Told(f, es) == None)
  }

  ghost predicate FactsOk(f: string, es: seq<Event>, v: FileView) {
    && !v.closed && v.oldIndex == AnyIndex(es)
    && (v.entry.Some? <==> Known(f, es))
    && WaitingOk(f, es, v)
    && if v.entry.Some? then EntryOk(f, es, v.entry.value) else Silent(f, es)
  }

  lemma FactsFree(f: string, es: seq<Event>, v: FileView)
    requires v.waiting == map[]
    ensures FactsOk(f, es + [Free], FileStep(f, v, Free))
  {
    assert (es + [Free])[..|es|] == es;
  }

  /** A step that does not bear on f changes nothing that is said of it. */
  lemma FactsOther(f: string, es: seq<Event>, v: FileView, ev: Event)
    requires FactsOk(f, es, v) && !Concerns(f, ev)
    ensures FactsOk(f, es + [ev], FileStep(f, v, ev))
  {
    var now := es + [ev];
    assert now[..|es|] == es;
    forall n: Notify | n.file == f ensures UnderWay(n, now) == UnderWay(n, es) {
    }
  }

  lemma FactsBegin(f: string, es: seq<Event>, v: FileView, ev: Event)
    requires FactsOk(f, es, v) && ev.Begin? && ev.notify.file == f
    ensures FactsOk(f, es + [ev], FileStep(f, v, ev))
  {
    var now := es + [ev];
    assert now[..|es|] == es;
    forall n: Notify | n.file == f
      ensures UnderWay(n, now)
           == if n == ev.notify && ev.mem && !Known(f, es) then Some(ev.rewritten) else UnderWay(n, es)
    {
    }
  }

  lemma FactsEnd(f: string, es: seq<Event>, v: FileView, ev: Event)
    requires FactsOk(f, es, v) && ev.End? && ev.notify.file == f
    ensures FactsOk(f, es + [ev], FileStep(f, v, ev))
  {
    var now := es + [ev];
    assert now[..|es|] == es;
    forall n: Notify | n.file == f
      ensures UnderWay(n, now) == if n == ev.notify then None else UnderWay(n, es)
    {
    }
    if ev.notify in v.waiting {
      EndTold(f, es, v, ev);
    }
  }

  lemma EndTold(f: string, es: seq<Event>, v: FileView, ev: Event)
    requires FactsOk(f, es, v) && ev.End? && ev.notify.file == f && ev.notify in v.waiting
    ensures var t := FileStep(f, v, ev);
            t.waiting == map[] && t.entry.Some? && EntryOk(f, es + [ev], t.entry.value)
  {
    var now := es + [ev];
    assert now[..|es|] == es;
    assert FileStep(f, v, ev).waiting == map[];
    KindsOk(f, es);
    NotTold(f, es);
  }

  lemma {:induction false} NotTold(f: string, es: seq<Event>)
    ensures Told(f, es) == None ==> !Hashed(f, es)
  {
    if es != [] {
      NotTold(f, es[..|es| - 1]);
    }
  }

  /** Only a notify's own steps move it. */
  lemma SameWaiting(f: string, es: seq<Event>, ev: Event)
    requires !ev.Begin? && !ev.End? && !ev.Free?
    ensures forall n: Notify :: UnderWay(n, es + [ev]) == UnderWay(n, es)
  {
    assert (es + [ev])[..|es|] == es;
  }

  lemma FactsHtml(f: string, es: seq<Event>, v: FileView, ev: Event)
    requires FactsOk(f, es, v) && ev.Html? && ev.file == f
    ensures FactsOk(f, es + [ev], FileStep(f, v, ev))
  {
    assert (es + [ev])[..|es|] == es;
    SameWaiting(f, es, ev);
  }

  lemma FactsDropped(f: string, es: seq<Event>, v: FileView, ev: Event)
    requires FactsOk(f, es, v) && ev.Dropped? && ev.file == f
    ensures FactsOk(f, es + [ev], FileStep(f, v, ev))
  {
    assert (es + [ev])[..|es|] == es;
    SameWaiting(f, es, ev);
  }

  lemma FactsPrevious(f: string, es: seq<Event>, v: FileView, ev: Event)
    requires FactsOk(f, es, v) && ev.Previous?
    ensures FactsOk(f, es + [ev], FileStep(f, v, ev))
  {
    assert (es + [ev])[..|es|] == es;
    SameWaiting(f, es, ev);
  }

  lemma FactsReport(f: string, es: seq<Event>, v: FileView, ev: Event)
    requires FactsOk(f, es, v) && ev.Report?
    ensures FactsOk(f, es + [ev], FileStep(f, v, ev))
  {
    assert (es + [ev])[..|es|] == es;
    SameWaiting(f, es, ev);
    if v.entry.Some? {
      ReportKeeps(f, es, v.entry.value, v.oldIndex, ev);
    }
  }

  lemma ReportKeeps(f: string, es: seq<Event>, e: Entry, oldIndex: bool, ev: Event)
    requires EntryOk(f, es, e) && ev.Report?
    ensures EntryOk(f, es + [ev], Resolve(e, oldIndex, ev.disk(f)))
  {
    assert (es + [ev])[..|es|] == es;
    KindsOk(f, es);
  }

  lemma FactsStep(f: string, es: seq<Event>, v: FileView, ev: Event)
    requires FactsOk(f, es, v) && !ev.Close? && !ev.Free?
    ensures FactsOk(f, es + [ev], FileStep(f, v, ev))
  {
    if !Concerns(f, ev) {
      FactsOther(f, es, v, ev);
    } else if ev.Begin? {
      FactsBegin(f, es, v, ev);
    } else if ev.End? {
      FactsEnd(f, es, v, ev);
    } else if ev.Report? {
      FactsReport(f, es, v, ev);
    } else if ev.Html? {
      FactsHtml(f, es, v, ev);
    } else if ev.Dropped? {
      FactsDropped(f, es, v, ev);
    } else {
      FactsPrevious(f, es, v, ev);
    }
  }

  /** While the report is open, a file's view says what the events said of it. */
  lemma {:induction false} FactsExact(f: string, es: seq<Event>)
    requires Kept(es) && IsOpen(es)
    ensures FactsOk(f, es, FileRun(f, es))
  {
    if es != [] {
      var before, last := es[..|es| - 1], es[|es| - 1];
      assert before + [last] == es;
      if last.Free? {
        RunIsLocal(before, f);
        assert FileRun(f, before).waiting == map[];
        FactsFree(f, before, FileRun(f, before));
      } else {
        FactsExact(f, before);
        FactsStep(f, before, FileRun(f, before), last);
      }
    }
  }

  // ---- the bucket ----

  /** Did the previous mirror have the file? By its index if there was one, else by what
      the notify saw on disk. */
  predicate Existed(f: string, es: seq<Event>) {
    if AnyIndex(es) then WasListed(f, es) else OldSize(f, es) >= 0
  }

  function OldSize(f: string, es: seq<Event>): int {
    KindsOk(f, es);
    if Told(f, es).Some? then Told(f, es).value.prevSize else -1
  }

  predicate ServerSaidSame(f: string, es: seq<Event>) {
    KindsOk(f, es);
    Told(f, es).Some? && Told(f, es).value.notUpdated
  }

  /** Are its bytes others than those of the previous mirror? A page is compared by its
      payloads, another file by its size and then by its digest; where there is
      nothing to compare, the server's word counts. */
  predicate Differs(f: string, es: seq<Event>, now: OnDisk) {
    KindsOk(f, es);
    if PageOf(f, es).Some? then
      var page := PageOf(f, es).value;
      if page.prevMd5.Some? then page.newMd5 != page.prevMd5.value else !ServerSaidSame(f, es)
    else if now.size >= 0 && OldSize(f, es) >= 0 && now.size != OldSize(f, es) then true
    else if Hashed(f, es) && now.md5.Some? then now.md5 != Told(f, es).value.md5
    else !ServerSaidSame(f, es)
  }

  predicate InBucket(f: string, es: seq<Event>, now: OnDisk, b: Bucket) {
    if WasPurged(f, es) then b == Gone
    else
      && (b == New <==> WasRewritten(f, es) && !Existed(f, es))
      && (b == Changed <==> WasRewritten(f, es) && Existed(f, es) && Differs(f, es, now))
      && (b == Unchanged <==> !WasRewritten(f, es) || (Existed(f, es) && !Differs(f, es, now)))
  }

  /** The URL that the notify gave, if there was memory for it. */
  predicate UrlIs(f: string, es: seq<Event>, url: string) {
    KindsOk(f, es);
    url == if Told(f, es).Some? && Told(f, es).value.mem then Told(f, es).value.url else ""
  }

  lemma ResolvesTo(f: string, es: seq<Event>, e: Entry, now: OnDisk)
    requires EntryOk(f, es, e)
    ensures InBucket(f, es, now, Resolve(e, AnyIndex(es), now).bucket)
    ensures !WasPurged(f, es) ==> Resolve(e, AnyIndex(es), now).size == now.size
    ensures UrlIs(f, es, Resolve(e, AnyIndex(es), now).url)
  {
    KindsOk(f, es);
  }

  lemma ClosesTo(f: string, es: seq<Event>, disk: string -> OnDisk)
    requires FactsOk(f, es, FileRun(f, es))
    ensures var e := FileRun(f, es + [Close(disk)]).entry;
            && (e.Some? <==> Known(f, es))
            && (e.Some? ==> && InBucket(f, es, disk(f), e.value.bucket) && UrlIs(f, es, e.value.url)
                            && (!WasPurged(f, es) ==> e.value.size == disk(f).size))
  {
    var v := FileRun(f, es);
    assert (es + [Close(disk)])[..|es|] == es;
    if v.entry.Some? {
      ResolvesTo(f, es, v.entry.value, disk(f));
    }
  }

  lemma EntryIsLocal(all: seq<Event>, f: string)
    requires Kept(all)
    ensures var a := Run(all).acc;
            FileRun(f, all).entry == if f in a.index then Some(a.entries[a.index[f]]) else None
  {
    RunIsLocal(all, f);
  }

  /** Does the step record something that there is no memory for? */
  predicate Loses(s: Sys, ev: Event)
    requires IndexOk(s.acc)
  {
    match ev
    case Begin(n, _, mem) => !s.acc.closed && n.file !in s.acc.index && !mem
    case Dropped(f, _, mem) => !s.acc.closed && f !in s.acc.index && !mem
    case End(n, _, _, _, _, mem) => !s.acc.closed && n in s.pending && s.pending[n].slot < |s.acc.entries| && !mem
    case _ => false
  }

  /** The report is marked as incomplete from then on, and only then. */
  lemma OverflowExactly(s: Sys, ev: Event)
    requires IndexOk(s.acc)
    ensures Step(s, ev).acc.overflow <==> !ev.Free? && (s.acc.overflow || Loses(s, ev))
  {
  }

  /** The closing report lists exactly the files that were recorded, and each in the
      bucket that the events put it in. */
  lemma BucketExactly(es: seq<Event>, disk: string -> OnDisk, f: string)
    requires Kept(es) && IsOpen(es)
    ensures var a := Run(es + [Close(disk)]).acc;
            && (f in a.index <==> Known(f, es))
            && (f in a.index ==>
                  var e := a.entries[a.index[f]];
                  && InBucket(f, es, disk(f), e.bucket) && UrlIs(f, es, e.url)
                  && (!WasPurged(f, es) ==> e.size == disk(f).size))
  {
    assert (es + [Close(disk)])[..|es|] == es;
    FactsExact(f, es);
    ClosesTo(f, es, disk);
    EntryIsLocal(es + [Close(disk)], f);
  }
}
