/** The sort of cookie_make_room and the stretch each host gets in its result. */
module CookieSort {
  import opened EvictionPlan
  import opened JarOrder
  import opened CookieTally
  import opened CookiePlanner

  // ---- the sort ----

  /** cookie_rec_cmp < 0: oldest first within a host. */
  predicate Less(a: PlanRec, b: PlanRec) {
    if a.host != b.host then a.host < b.host
    else if a.plen != b.plen then a.plen < b.plen
    else a.pos < b.pos
  }

  ghost predicate Sorted(recs: seq<PlanRec>) {
    forall x, y :: 0 <= x < y < |recs| ==> Less(recs[x], recs[y])
  }

  /** The same records, whatever the order. */
  ghost predicate SameRecs(a: seq<PlanRec>, b: seq<PlanRec>) {
    && |a| == |b|
    && (forall x :: 0 <= x < |a| ==> a[x] in b)
    && (forall x :: 0 <= x < |b| ==> b[x] in a)
  }

  method InsertRec(sorted: seq<PlanRec>, q: PlanRec) returns (out: seq<PlanRec>)
    requires Sorted(sorted) && forall x :: 0 <= x < |sorted| ==> sorted[x].pos != q.pos
    ensures Sorted(out) && SameRecs(out, sorted + [q])
  {
    var p := 0;
    while p < |sorted| && Less(sorted[p], q)
      invariant p <= |sorted|
      invariant forall x :: 0 <= x < p ==> Less(sorted[x], q)
    {
      p := p + 1;
    }
    out := InsertAt(sorted, p, q);
    assert out[p] == q;
    forall x | p <= x < |sorted|
      ensures Less(q, sorted[x])
    {
      assert x > p ==> Less(sorted[p], sorted[x]);
    }
    forall x | 0 <= x < |sorted|
      ensures sorted[x] in out
    {
      assert out[if x < p then x else x + 1] == sorted[x];
    }
  }

  lemma SameSnoc(next: seq<PlanRec>, out: seq<PlanRec>, done: seq<PlanRec>, q: PlanRec)
    requires SameRecs(out, done) && SameRecs(next, out + [q])
    ensures SameRecs(next, done + [q])
  {
    forall x | 0 <= x < |done|
      ensures done[x] in next
    {
      var y :| 0 <= y < |out| && out[y] == done[x];
      assert (out + [q])[y] in next;
    }
    assert (out + [q])[|out|] in next;
  }

  /** qsort by cookie_rec_cmp. Its order is total, because no two records share
      a place in the jar, so every sort gives the one result. */
  method SortRecs(recs: seq<PlanRec>) returns (out: seq<PlanRec>)
    requires forall x, y :: 0 <= x < y < |recs| ==> recs[x].pos != recs[y].pos
    ensures Sorted(out) && SameRecs(out, recs)
  {
    out := [];
    var i := 0;
    while i < |recs|
      invariant i <= |recs| && Sorted(out) && SameRecs(out, recs[..i])
    {
      var next := InsertRec(out, recs[i]);
      SameSnoc(next, out, recs[..i], recs[i]);
      assert recs[..i + 1] == recs[..i] + [recs[i]];
      out := next;
      i := i + 1;
    }
    assert recs[..i] == recs;
  }

  /** The sorted records describe the jar: each in its place, none missing. */
  ghost predicate Ranked(d: Demand, recs: seq<PlanRec>) {
    && |recs| == |d.items| && Sorted(recs)
    && (forall x :: 0 <= x < |recs| ==> recs[x].pos < |d.items| && RecIs(d, Hosts(d), recs[x], recs[x].pos))
    && (forall i :: 0 <= i < |d.items| ==> Placed(recs, i))
  }

  ghost predicate Placed(recs: seq<PlanRec>, i: nat) {
    exists x :: 0 <= x < |recs| && recs[x].pos == i
  }

  lemma SortedIsRanked(d: Demand, recs: seq<PlanRec>, out: seq<PlanRec>)
    requires RecsAre(d, |d.items|, Hosts(d), recs) && Sorted(out) && SameRecs(out, recs)
    ensures Ranked(d, out)
  {
    forall x | 0 <= x < |out|
      ensures out[x].pos < |d.items| && RecIs(d, Hosts(d), out[x], out[x].pos)
    {
      var j :| 0 <= j < |recs| && recs[j] == out[x];
      assert RecIs(d, Hosts(d), recs[j], j);
    }
    forall i | 0 <= i < |d.items|
      ensures Placed(out, i)
    {
      assert RecIs(d, Hosts(d), recs[i], i) && recs[i] in out;
    }
  }

  // ---- each host's stretch of the sorted records ----

  /** x is in host k's stretch exactly when it is host k's record. */
  predicate Stretch(recs: seq<PlanRec>, n: nat, k: nat, start: nat, end: nat)
    requires n <= |recs|
  {
    start <= end <= n && forall x :: 0 <= x < n ==> (start <= x < end <==> recs[x].host == k)
  }

  lemma StretchStep(recs: seq<PlanRec>, n: nat, k: nat, start: nat, end: nat)
    requires Sorted(recs) && n < |recs| && Stretch(recs, n, k, start, end)
    ensures recs[n].host != k ==> Stretch(recs, n + 1, k, start, end)
    ensures recs[n].host == k && (n == 0 || recs[n - 1].host != k) ==> Stretch(recs, n + 1, k, n, n + 1)
    ensures recs[n].host == k && n > 0 && recs[n - 1].host == k ==> Stretch(recs, n + 1, k, start, n + 1)
  {
    if recs[n].host == k {
      forall x | 0 <= x < n && recs[x].host == k
        ensures recs[n - 1].host == k
      {
        assert !Less(recs[n], recs[n - 1]);
        assert x < n - 1 ==> Less(recs[x], recs[n - 1]);
        assert Less(recs[n - 1], recs[n]);
      }
    }
  }

  method SetStretches(hosts: seq<HostTally>, recs: seq<PlanRec>) returns (out: seq<HostTally>)
    requires Sorted(recs) && forall x :: 0 <= x < |recs| ==> recs[x].host < |hosts|
    requires forall k :: 0 <= k < |hosts| ==> hosts[k].cur == hosts[k].end == 0
    ensures |out| == |hosts|
    ensures forall k :: 0 <= k < |out| ==> out[k] == hosts[k].(cur := out[k].cur, end := out[k].end)
    ensures forall k :: 0 <= k < |out| ==> Stretch(recs, |recs|, k, out[k].cur, out[k].end)
  {
    out := hosts;
    var i := 0;
    while i < |recs|
      invariant i <= |recs| && |out| == |hosts|
      invariant forall k :: 0 <= k < |out| ==> out[k] == hosts[k].(cur := out[k].cur, end := out[k].end)
      invariant forall k :: 0 <= k < |out| ==> Stretch(recs, i, k, out[k].cur, out[k].end)
    {
      var h := recs[i].host;
      forall k | 0 <= k < |out| {
        StretchStep(recs, i, k, out[k].cur, out[k].end);
      }
      if i == 0 || h != recs[i - 1].host {
        out := out[h := out[h].(cur := i)];
      }
      out := out[h := out[h].(end := i + 1)];
      i := i + 1;
    }
  }
}
