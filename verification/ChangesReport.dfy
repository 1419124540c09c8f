/** What the change report says of a run. */
module ChangesReport {
  import opened Wrappers
  import opened Changes
  import opened ChangesLaws

  // ---- buckets ----

  function Count(es: seq<Entry>, b: Bucket): nat {
    if es == [] then 0 else Count(es[..|es| - 1], b) + if es[|es| - 1].bucket == b then 1 else 0
  }

  function FilesIn(es: seq<Entry>, b: Bucket): set<string> {
    set i | 0 <= i < |es| && es[i].bucket == b :: es[i].file
  }

  ghost predicate Distinct(es: seq<Entry>) {
    forall i, j :: 0 <= i < j < |es| ==> es[i].file != es[j].file
  }

  lemma {:induction false} CountIsFiles(es: seq<Entry>, b: Bucket)
    requires Distinct(es)
    ensures Count(es, b) == |FilesIn(es, b)|
  {
    if es != [] {
      CountIsFiles(es[..|es| - 1], b);
      FilesInLast(es, b);
    }
  }

  lemma FilesInLast(es: seq<Entry>, b: Bucket)
    requires es != [] && Distinct(es)
    ensures var before, last := FilesIn(es[..|es| - 1], b), es[|es| - 1];
            last.file !in before && FilesIn(es, b) == if last.bucket == b then before + {last.file} else before
  {
    var n := |es| - 1;
    var before, last := FilesIn(es[..n], b), es[n];
    forall f ensures f in FilesIn(es, b) <==> f in before || (f == last.file && last.bucket == b) {
      if f in FilesIn(es, b) {
        var i :| 0 <= i < |es| && es[i].bucket == b && es[i].file == f;
        assert i == n || es[..n][i] == es[i];
      }
      if f in before {
        var i :| 0 <= i < n && es[..n][i].bucket == b && es[..n][i].file == f;
        assert es[i].bucket == b;
      }
      if f == last.file && last.bucket == b {
        assert es[n].bucket == b;
      }
    }
  }

  lemma {:induction false} CountsAddUp(es: seq<Entry>)
    ensures Count(es, New) + Count(es, Changed) + Count(es, Unchanged) + Count(es, Gone) == |es|
  {
    if es != [] {
      CountsAddUp(es[..|es| - 1]);
    }
  }

  /** The report of any run lists every file of the index in exactly one bucket, and
      its counts are the buckets' sizes. */
  lemma EveryFileIsListedOnce(es: seq<Event>, b: Bucket, c: Bucket)
    requires b != c
    ensures var entries := Run(es).acc.entries;
            && Count(entries, b) == |FilesIn(entries, b)|
            && FilesIn(entries, b) !! FilesIn(entries, c)
            && Count(entries, New) + Count(entries, Changed) + Count(entries, Unchanged) + Count(entries, Gone)
               == |entries| == |Run(es).acc.index|
  {
    var a := Run(es).acc;
    assert AccOk(a);
    CountIsFiles(a.entries, b);
    CountsAddUp(a.entries);
    IndexSize(a);
  }

  lemma IndexSize(a: Acc)
    requires AccOk(a)
    ensures |a.index| == |a.entries|
  {
    var n := |a.entries|;
    FilesAreDistinct(a.entries, n, a);
    var files := set i | 0 <= i < n :: a.entries[i].file;
    assert a.index.Keys == files by {
      forall f ensures f in a.index.Keys <==> f in files {
      }
    }
  }

  lemma {:induction false} FilesAreDistinct(es: seq<Entry>, n: nat, a: Acc)
    requires AccOk(a) && es == a.entries && n <= |es|
    ensures |set i | 0 <= i < n :: es[i].file| == n
  {
    if n > 0 {
      FilesAreDistinct(es, n - 1, a);
      var before := set i | 0 <= i < n - 1 :: es[i].file;
      assert (set i | 0 <= i < n :: es[i].file) == before + {es[n - 1].file};
      assert es[n - 1].file !in before;
    }
  }

  // ---- what a file's entry says ----

  /** A notify that says f was rewritten, and that there is memory or an entry for. */
  predicate IsRewrite(f: string, v: FileView, ev: Event) {
    ev.Begin? && ev.notify.file == f && ev.rewritten && (ev.mem || v.entry.Some?)
  }

  /** Did such a notify come since the accumulator was last freed? */
  predicate AnyRewrite(f: string, es: seq<Event>) {
    es != [] &&
    var before, last := es[..|es| - 1], es[|es| - 1];
    !last.Free? && (IsRewrite(f, FileRun(f, before), last) || AnyRewrite(f, before))
  }

  /** Does a notify under way say so? */
  predicate OnItsWay(v: FileView) {
    exists n :: n in v.waiting && v.waiting[n]
  }

  predicate SaysRewritten(v: FileView) {
    (v.entry.Some? && v.entry.value.rewritten) || OnItsWay(v)
  }

  /** Only a notify raises the flag, and none loses it. */
  lemma RewriteStep(f: string, v: FileView, ev: Event)
    requires !ev.Free? && !FileStep(f, v, ev).closed && (v.waiting != map[] ==> v.entry.Some?)
    ensures var t := FileStep(f, v, ev);
            && (SaysRewritten(t) <==> SaysRewritten(v) || IsRewrite(f, v, ev))
            && (t.waiting != map[] ==> t.entry.Some?)
  {
    var t := FileStep(f, v, ev);
    if ev.Begin? && Concerns(f, ev) && v.entry == None && ev.mem {
      assert v.waiting == map[] && (t.waiting[ev.notify] <==> ev.rewritten);
    } else if ev.End? && ev.notify in v.waiting {
      EndStepKeeps(v, t, ev.notify);
    } else {
      assert t.waiting == v.waiting;
    }
  }

  lemma EndStepKeeps(v: FileView, t: FileView, n: Notify)
    requires n in v.waiting
    requires t.waiting == v.waiting || t.waiting == v.waiting - {n}
    ensures OnItsWay(t) ==> OnItsWay(v)
    ensures OnItsWay(v) ==> OnItsWay(t) || v.waiting[n]
  {
    if OnItsWay(v) && !v.waiting[n] {
      var m :| m in v.waiting && v.waiting[m];
      assert m in t.waiting && t.waiting[m];
    }
    if OnItsWay(t) {
      var m :| m in t.waiting && t.waiting[m];
      assert m in v.waiting && v.waiting[m];
    }
  }

  /** While the report is open, a file counts as rewritten, or has the flag on its
      way in a notify, exactly when some notify said so. */
  lemma {:induction false} RewrittenExact(f: string, es: seq<Event>)
    requires Kept(es) && !FileRun(f, es).closed
    ensures SaysRewritten(FileRun(f, es)) <==> AnyRewrite(f, es)
    ensures FileRun(f, es).waiting != map[] ==> FileRun(f, es).entry.Some?
  {
    if es != [] {
      var before := es[..|es| - 1];
      if es[|es| - 1].Free? {
        RunIsLocal(before, f);
        assert FileRun(f, before).waiting == map[];
      } else {
        RewrittenExact(f, before);
        RewriteStep(f, FileRun(f, before), es[|es| - 1]);
      }
    }
  }

  /** Does the entry say that the file was rewritten? */
  predicate Reported(v: FileView) {
    v.entry.Some? && v.entry.value.rewritten
  }

  /** Once closed, what the entry says of that is final. */
  lemma {:induction false} ClosedStays(f: string, es: seq<Event>, more: seq<Event>)
    requires FileRun(f, es).closed && forall i :: 0 <= i < |more| ==> !more[i].Free?
    ensures FileRun(f, es + more).closed && Reported(FileRun(f, es + more)) == Reported(FileRun(f, es))
  {
    if more == [] {
      assert es + more == es;
    } else {
      var n := |more| - 1;
      ClosedStays(f, es, more[..n]);
      assert (es + more)[..|es + more| - 1] == es + more[..n];
    }
  }

  lemma CloseReports(f: string, es: seq<Event>, disk: string -> OnDisk)
    ensures var v, t := FileRun(f, es), FileRun(f, es + [Close(disk)]); t.closed && Reported(t) == Reported(v)
  {
    assert (es + [Close(disk)])[..|es|] == es;
  }

  /** Some notify said that f was rewritten, and the report that closes now, and every
      later one, says it was not: exactly when a notify has the flag on its way and
      the entry does not have it yet. */
  lemma FlagIsLostExactly(f: string, es: seq<Event>, disk: string -> OnDisk, more: seq<Event>)
    requires Kept(es) && !FileRun(f, es).closed
    requires forall i :: 0 <= i < |more| ==> !more[i].Free?
    ensures var v := FileRun(f, es);
            AnyRewrite(f, es) && !Reported(FileRun(f, es + [Close(disk)] + more))
            <==> OnItsWay(v) && !Reported(v)
  {
    RewrittenExact(f, es);
    CloseReports(f, es, disk);
    ClosedStays(f, es + [Close(disk)], more);
  }

  /** It happens: the report then calls the file unchanged. */
  lemma CloseLosesTheFlag(f: string, url: string, size: nat, disk: string -> OnDisk)
    ensures var n := Notify(f, 0);
            var es := [Begin(n, true, true), Close(disk), End(n, url, false, size, None, true)];
            && AnyRewrite(f, es) && !SaysRewritten(FileRun(f, es)) && FileRun(f, es).entry.Some?
            && FileRun(f, es).entry.value.bucket == Unchanged
  {
    var n := Notify(f, 0);
    var e1, e2, e3 := Begin(n, true, true), Close(disk), End(n, url, false, size, None, true);
    assert [e1][..0] == [] && [e1, e2][..1] == [e1] && [e1, e2, e3][..2] == [e1, e2];
    assert AnyRewrite(f, [e1]) && AnyRewrite(f, [e1, e2]);
    assert FileRun(f, []) == FileView(None, map[], false, false);
    assert FileRun(f, [e1]) == FileView(Some(Fresh(f)), map[n := true], false, false);
    assert FileRun(f, [e1, e2]) == FileView(Some(Resolve(Fresh(f), false, disk(f))), map[n := true], true, false);
    assert FileRun(f, [e1, e2, e3]) == FileView(Some(Resolve(Fresh(f), false, disk(f))), map[], true, false);
  }

  predicate Records(f: string, ev: Event) {
    (ev.Begin? && ev.notify.file == f && ev.mem) || (ev.Dropped? && ev.file == f && ev.mem)
  }

  /** The step that first recorded f, since the accumulator was last freed. */
  function Recorder(f: string, es: seq<Event>): Option<Event> {
    if es == [] then None else
    var before := es[..|es| - 1];
    if es[|es| - 1].Free? then None
    else if Recorder(f, before).Some? then Recorder(f, before)
    else if !FileRun(f, before).closed && Records(f, es[|es| - 1]) then Some(es[|es| - 1])
    else None
  }

  /** A file is listed exactly when something recorded it, and as gone exactly when
      what recorded it first was the purge that did not keep it. */
  lemma {:induction false} GoneExact(f: string, es: seq<Event>)
    ensures FileRun(f, es).entry.Some? <==> Recorder(f, es).Some?
    ensures FileRun(f, es).entry.Some? ==>
              (FileRun(f, es).entry.value.bucket == Gone
               <==> Recorder(f, es).value.Dropped? && !Recorder(f, es).value.kept)
  {
    if es != [] {
      GoneExact(f, es[..|es| - 1]);
    }
  }

  /** The last page payload of a recorded file is the one the report compares. */
  function LastPage(f: string, es: seq<Event>): Option<Event> {
    if es == [] then None else
    var before, last := es[..|es| - 1], es[|es| - 1];
    var v := FileRun(f, before);
    if last.Free? then None
    else if !v.closed && v.entry.Some? && last.Html? && last.file == f then Some(last) else LastPage(f, before)
  }

  lemma {:induction false} PagesExact(f: string, es: seq<Event>)
    requires FileRun(f, es).entry.Some?
    ensures var e := FileRun(f, es).entry.value;
            match LastPage(f, es)
            case None => e.newDigest == None
            case Some(page) =>
              && page.Html? && e.newDigest == Some(Digest(Payload, page.newMd5))
              && e.prevDigest == match page.prevMd5 case Some(m) => Some(Digest(Payload, m)) case None => None
  {
    if es != [] {
      var before := es[..|es| - 1];
      if FileRun(f, before).entry.Some? {
        PagesExact(f, before);
      } else {
        NoEntryNoPage(f, before);
      }
    }
  }

  lemma {:induction false} NoEntryNoPage(f: string, es: seq<Event>)
    requires FileRun(f, es).entry == None
    ensures LastPage(f, es) == None
  {
    if es != [] && !es[|es| - 1].Free? {
      NoEntryNoPage(f, es[..|es| - 1]);
    }
  }
}
