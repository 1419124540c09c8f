/** What every eviction plan satisfies. */
module EvictionLaws {
  import opened Wrappers
  import opened EvictionPlan

  // ---- tallies follow one eviction ----

  lemma {:induction false} CountDrops(d: Demand, gone: set<nat>, v: nat, host: string, n: nat)
    requires n <= |d.items| && v < |d.items| && v !in gone
    ensures Count(d, gone + {v}, host, n)
         == Count(d, gone, host, n) - if v < n && d.items[v].host == host then 1 else 0
  {
    if n > 0 {
      CountDrops(d, gone, v, host, n - 1);
    }
  }

  lemma {:induction false} BytesDrop(d: Demand, gone: set<nat>, v: nat, host: string, n: nat)
    requires n <= |d.items| && v < |d.items| && v !in gone
    ensures Bytes(d, gone + {v}, host, n)
         == Bytes(d, gone, host, n) - if v < n && d.items[v].host == host then d.items[v].len else 0
  {
    if n > 0 {
      BytesDrop(d, gone, v, host, n - 1);
    }
  }

  lemma {:induction false} UsedDrops(d: Demand, gone: set<nat>, v: nat, n: nat)
    requires n <= |d.items| && v < |d.items| && v !in gone && v != d.self
    ensures UsedBy(d, gone + {v}, n) == UsedBy(d, gone, n) - if v < n then d.items[v].len else 0
  {
    if n > 0 {
      UsedDrops(d, gone, v, n - 1);
    }
  }

  lemma {:induction false} TalliesShrink(d: Demand, gone: set<nat>, more: set<nat>, host: string, n: nat)
    requires n <= |d.items| && gone <= more
    ensures Count(d, more, host, n) <= Count(d, gone, host, n)
    ensures Bytes(d, more, host, n) <= Bytes(d, gone, host, n)
  {
    if n > 0 {
      TalliesShrink(d, gone, more, host, n - 1);
    }
  }

  lemma OverShrinks(d: Demand, gone: set<nat>, more: set<nat>, host: string)
    requires gone <= more && Over(d, more, host)
    ensures Over(d, gone, host)
  {
    TalliesShrink(d, gone, more, host, |d.items|);
  }

  // ---- one pick ----

  lemma RankOfIndex(d: Demand, b: nat)
    requires b < |Hosts(d)|
    ensures Rank(d, Hosts(d)[b]) == b
  {
  }

  lemma PickIsUnique(d: Demand, gone: set<nat>, v: nat, w: nat)
    requires PickedNext(d, gone, v) && PickedNext(d, gone, w)
    ensures v == w
  {
    var g, h := d.items[v].host, d.items[w].host;
    assert !Larger(d, gone, g, h) && !Larger(d, gone, h, g);
    assert Rank(d, g) == Rank(d, h);
    assert g == Hosts(d)[Rank(d, g)] == h;
    assert !Older(d, v, w) && !Older(d, w, v);
  }

  lemma NextIsPicked(d: Demand, gone: set<nat>)
    requires Next(d, gone) != -1
    ensures PickedNext(d, gone, Next(d, gone))
  {
    var hosts := Hosts(d);
    var b, v := Best(d, gone), Next(d, gone);
    RankOfIndex(d, b);
    forall i: nat | Evictable(d, gone, i) && Over(d, gone, d.items[i].host)
      ensures !Larger(d, gone, d.items[i].host, hosts[b])
    {
      var j := Rank(d, d.items[i].host);
      assert hosts[j] == d.items[i].host;
      assert Eligible(d, gone, hosts[j]);
      assert EligibleHosts(d, gone, hosts)[j];
    }
  }

  lemma NoNextIsStuck(d: Demand, gone: set<nat>)
    requires Next(d, gone) == -1
    ensures forall i: nat :: Evictable(d, gone, i) ==> !Over(d, gone, d.items[i].host)
  {
    var hosts := Hosts(d);
    forall i: nat | Evictable(d, gone, i)
      ensures !Over(d, gone, d.items[i].host)
    {
      var j := Rank(d, d.items[i].host);
      assert hosts[j] == d.items[i].host;
      assert !EligibleHosts(d, gone, hosts)[j];
    }
  }

  /** The computed pick is the declared one. */
  lemma NextExact(d: Demand, gone: set<nat>, v: nat)
    ensures Next(d, gone) == v <==> PickedNext(d, gone, v)
  {
    if Next(d, gone) == -1 {
      NoNextIsStuck(d, gone);
    } else {
      NextIsPicked(d, gone);
      if PickedNext(d, gone, v) {
        PickIsUnique(d, gone, v, Next(d, gone));
      }
    }
  }

  // ---- whole runs ----

  lemma RunExtends(d: Demand, vs: seq<nat>, v: nat)
    requires GreedyRun(d, vs) && !Fits(d, SetOf(vs)) && PickedNext(d, SetOf(vs), v)
    ensures GreedyRun(d, vs + [v])
  {
    var ws := vs + [v];
    forall k | 0 <= k < |ws|
      ensures !Fits(d, SetOf(ws[..k])) && PickedNext(d, SetOf(ws[..k]), ws[k])
    {
      assert ws[..k] == vs[..k];
      if k == |vs| {
        assert ws[..k] == vs;
      }
    }
  }

  /** A plan is a run that ends with room, and a refusal a run that gets stuck
      without it. */
  lemma {:induction false} PlanRuns(d: Demand, vs: seq<nat>) returns (ws: seq<nat>)
    requires GreedyRun(d, vs)
    ensures vs <= ws && GreedyRun(d, ws)
    ensures PlanFrom(d, vs) == if Fits(d, SetOf(ws)) then Some(ws) else None
    ensures Fits(d, SetOf(ws)) || Stuck(d, SetOf(ws))
    decreases Left(d, SetOf(vs))
  {
    var gone := SetOf(vs);
    var v := Next(d, gone);
    if Fits(d, gone) {
      ws := vs;
    } else if v == -1 {
      NoNextIsStuck(d, gone);
      ws := vs;
    } else {
      NextIsPicked(d, gone);
      RunExtends(d, vs, v);
      assert v in Left(d, gone) && v !in Left(d, SetOf(vs + [v]));
      assert Left(d, SetOf(vs + [v])) < Left(d, gone);
      ws := PlanRuns(d, vs + [v]);
    }
  }

  lemma EndedIsWhole(d: Demand, a: seq<nat>, k: nat)
    requires GreedyRun(d, a) && k <= |a|
    requires Fits(d, SetOf(a[..k])) || Stuck(d, SetOf(a[..k]))
    ensures k == |a|
  {
  }

  /** Two runs that have come to an end are the same run. */
  lemma {:induction false} RunsAgree(d: Demand, a: seq<nat>, b: seq<nat>, k: nat)
    requires GreedyRun(d, a) && GreedyRun(d, b)
    requires Fits(d, SetOf(a)) || Stuck(d, SetOf(a))
    requires Fits(d, SetOf(b)) || Stuck(d, SetOf(b))
    requires k <= |a| && k <= |b| && a[..k] == b[..k]
    ensures a == b
    decreases |a| - k
  {
    if k == |a| || k == |b| {
      assert a[..|a|] == a && b[..|b|] == b;
      EndedIsWhole(d, a, k);
      EndedIsWhole(d, b, k);
    } else {
      assert PickedNext(d, SetOf(a[..k]), a[k]) && PickedNext(d, SetOf(b[..k]), b[k]);
      PickIsUnique(d, SetOf(a[..k]), a[k], b[k]);
      assert a[..k + 1] == a[..k] + [a[k]] == b[..k + 1];
      RunsAgree(d, a, b, k + 1);
    }
  }

  /** The plan is the one greedy run that ends with room, and there is no plan
      exactly when the run ends stuck. */
  lemma PlanExact(d: Demand, ws: seq<nat>)
    ensures Plan(d) == Some(ws) <==> GreedyRun(d, ws) && Fits(d, SetOf(ws))
    ensures GreedyRun(d, ws) && Stuck(d, SetOf(ws)) ==> Plan(d) == None
    ensures Plan(d) == None ==> exists vs :: GreedyRun(d, vs) && Stuck(d, SetOf(vs))
  {
    var vs := PlanRuns(d, []);
    if GreedyRun(d, ws) && (Fits(d, SetOf(ws)) || Stuck(d, SetOf(ws))) {
      RunsAgree(d, ws, vs, 0);
    }
  }

  lemma VictimsDistinct(d: Demand, vs: seq<nat>)
    requires GreedyRun(d, vs)
    ensures forall i, j :: 0 <= i < j < |vs| ==> vs[i] != vs[j]
    ensures forall i :: 0 <= i < |vs| ==> vs[i] < |d.items| && vs[i] != d.self
  {
    forall j | 0 <= j < |vs|
      ensures vs[j] !in vs[..j] && vs[j] < |d.items| && vs[j] != d.self
    {
      assert PickedNext(d, SetOf(vs[..j]), vs[j]);
    }
    forall i, j | 0 <= i < j < |vs|
      ensures vs[i] != vs[j]
    {
      assert vs[i] == vs[..j][i];
    }
  }

  /** A host within its share at the start loses nothing. */
  lemma WithinShareKeepsAll(d: Demand, vs: seq<nat>, v: nat)
    requires GreedyRun(d, vs) && v < |d.items| && !Over(d, {}, d.items[v].host)
    ensures v !in vs
  {
    if v in vs {
      var k :| 0 <= k < |vs| && vs[k] == v;
      assert PickedNext(d, SetOf(vs[..k]), vs[k]);
      OverShrinks(d, {}, SetOf(vs[..k]), d.items[v].host);
    }
  }

  /** Within a host the victims are its oldest records, the replaced one aside. */
  lemma VictimsAreOldest(d: Demand, vs: seq<nat>, v: nat, i: nat)
    requires GreedyRun(d, vs) && v in vs
    requires i < |d.items| && i != d.self && v < |d.items| && d.items[i].host == d.items[v].host
    requires Older(d, i, v)
    ensures i in vs
  {
    var k :| 0 <= k < |vs| && vs[k] == v;
    assert PickedNext(d, SetOf(vs[..k]), vs[k]);
    assert !Evictable(d, SetOf(vs[..k]), i);
    assert i in vs[..k];
  }

  // ---- the early exit ----

  /** The bytes of the records that belong to a host over its share. */
  function Freeable(d: Demand, n: nat): nat
    requires n <= |d.items|
  {
    if n == 0 then 0
    else Freeable(d, n - 1)
         + if n - 1 != d.self && Over(d, {}, d.items[n - 1].host) then d.items[n - 1].len else 0
  }

  lemma {:induction false} FreedAtMost(d: Demand, gone: set<nat>, n: nat)
    requires n <= |d.items|
    requires forall v :: v in gone && v < |d.items| ==> v != d.self && Over(d, {}, d.items[v].host)
    ensures UsedBy(d, {}, n) <= UsedBy(d, gone, n) + Freeable(d, n)
  {
    if n > 0 {
      FreedAtMost(d, gone, n - 1);
    }
  }

  /** A jar that is still too full once every host over its share is emptied has
      no plan, so giving up before the first pick loses nothing. */
  lemma EarlyExitIsSafe(d: Demand)
    requires UsedBy(d, {}, |d.items|) > d.room + Freeable(d, |d.items|)
    ensures Plan(d) == None
  {
    var ws := PlanRuns(d, []);
    forall v | v in SetOf(ws)
      ensures v < |d.items| && v != d.self && Over(d, {}, d.items[v].host)
    {
      VictimsDistinct(d, ws);
      if !Over(d, {}, d.items[v].host) {
        WithinShareKeepsAll(d, ws, v);
      }
    }
    FreedAtMost(d, SetOf(ws), |d.items|);
  }

  // ---- shares ----

  /** The places that host still has once the records of gone are out. */
  function PlacesOf(d: Demand, gone: set<nat>, host: string, n: nat): set<nat>
    requires n <= |d.items|
  {
    set i | 0 <= i < n && i !in gone && d.items[i].host == host
  }

  lemma {:induction false} CountIsPlaces(d: Demand, gone: set<nat>, host: string, n: nat)
    requires n <= |d.items|
    ensures Count(d, gone, host, n) == |PlacesOf(d, gone, host, n)|
  {
    if n > 0 {
      CountIsPlaces(d, gone, host, n - 1);
      var before, last := PlacesOf(d, gone, host, n - 1), n - 1;
      assert last !in before;
      assert PlacesOf(d, gone, host, n)
          == if last !in gone && d.items[last].host == host then before + {last} else before;
    }
  }

  /** More than 50 records or more than 8192 bytes, the new record counted for its host. */
  predicate HasTooMuch(d: Demand, gone: set<nat>, host: string) {
    var own := if host == d.setter then 1 else 0;
    || |PlacesOf(d, gone, host, |d.items|)| + own > 50
    || Bytes(d, gone, host, |d.items|) + own * d.newLen > 8192
  }

  lemma OverExactly(d: Demand, gone: set<nat>, host: string)
    ensures Over(d, gone, host) <==> HasTooMuch(d, gone, host)
  {
    CountIsPlaces(d, gone, host, |d.items|);
  }

  /** What a host counts in bytes, the new record with it. */
  function SizeOf(d: Demand, gone: set<nat>, host: string): nat {
    Bytes(d, gone, host, |d.items|) + if host == d.setter then d.newLen else 0
  }

  /** Is g met before h, the setter's host before all records? */
  ghost predicate MetBefore(d: Demand, g: string, h: string, n: nat)
    requires n <= |d.items|
  {
    || g == d.setter
    || exists j :: 0 <= j < n && d.items[j].host == g && forall k :: 0 <= k <= j ==> d.items[k].host != h
  }

  lemma {:induction false} IndexConcat(hosts: seq<string>, last: string, h: string)
    requires last !in hosts && h in hosts + [last]
    ensures IndexIn(hosts + [last], h) == if h == last then |hosts| else IndexIn(hosts, h)
  {
    if hosts != [] && hosts[0] != h {
      IndexConcat(hosts[1..], last, h);
      assert (hosts + [last])[1..] == hosts[1..] + [last];
    }
  }

  lemma IndexBefore(hosts: seq<string>, last: string, g: string, h: string)
    requires last !in hosts && g in hosts + [last] && h in hosts + [last]
    requires IndexIn(hosts + [last], g) < IndexIn(hosts + [last], h)
    ensures g in hosts && (h == last || (h in hosts && IndexIn(hosts, g) < IndexIn(hosts, h)))
  {
    IndexConcat(hosts, last, g);
    IndexConcat(hosts, last, h);
  }

  /** The hosts of one record more. */
  lemma HostsNext(d: Demand, n: nat, hosts: seq<string>, last: string)
    requires n < |d.items| && hosts == HostsOf(d, n) && last == d.items[n].host
    ensures HostsOf(d, n + 1) == if last in hosts then hosts else hosts + [last]
  {
  }

  lemma MetMore(d: Demand, g: string, h: string, n: nat)
    requires n < |d.items| && MetBefore(d, g, h, n)
    ensures MetBefore(d, g, h, n + 1)
  {
  }

  /** The order of the list is the order of meeting. */
  lemma {:induction false} MetInOrder(d: Demand, g: string, h: string, n: nat, all: seq<string>)
    requires n <= |d.items| && all == HostsOf(d, n) && g in all && h in all && IndexIn(all, g) < IndexIn(all, h)
    ensures MetBefore(d, g, h, n)
    decreases n
  {
    if n > 0 {
      var hosts, last := HostsOf(d, n - 1), d.items[n - 1].host;
      HostsNext(d, n - 1, hosts, last);
      if last !in hosts {
        IndexBefore(hosts, last, g, h);
      }
      if last !in hosts && h == last {
        MetLast(d, g, h, n - 1);
      } else {
        MetInOrder(d, g, h, n - 1, hosts);
      }
      MetMore(d, g, h, n - 1);
    }
  }

  lemma MetLast(d: Demand, g: string, h: string, n: nat)
    requires n < |d.items| && g in HostsOf(d, n) && h !in HostsOf(d, n)
    ensures MetBefore(d, g, h, n)
  {
    NotMet(d, h, n);
    if g != d.setter {
      var j :| 0 <= j < n && d.items[j].host == g;
    }
  }

  lemma NotMet(d: Demand, h: string, n: nat)
    requires n <= |d.items| && h !in HostsOf(d, n)
    ensures forall k :: 0 <= k < n ==> d.items[k].host != h
  {
  }

  /** v is one record that may go, of a host with too much, the largest of those and, of
      equal ones, the first met. Of that host it has the shortest path and, of equal
      ones, the first place. */
  ghost predicate IsWorst(d: Demand, gone: set<nat>, v: nat) {
    && v < |d.items| && v !in gone && v != d.self && HasTooMuch(d, gone, d.items[v].host)
    && forall i: nat :: i < |d.items| && i !in gone && i != d.self && i != v ==> IsNoWorse(d, gone, i, v)
  }

  ghost predicate IsNoWorse(d: Demand, gone: set<nat>, i: nat, v: nat)
    requires i < |d.items| && v < |d.items|
  {
    var g, h := d.items[v].host, d.items[i].host;
    if g == h then d.items[i].plen > d.items[v].plen || (d.items[i].plen == d.items[v].plen && i > v)
    else HasTooMuch(d, gone, h) ==>
           || SizeOf(d, gone, h) < SizeOf(d, gone, g)
           || (SizeOf(d, gone, h) == SizeOf(d, gone, g) && MetBefore(d, g, h, |d.items|))
  }

  lemma PickedIsWorst(d: Demand, gone: set<nat>, v: nat)
    requires PickedNext(d, gone, v)
    ensures IsWorst(d, gone, v)
  {
    var g := d.items[v].host;
    OverExactly(d, gone, g);
    forall i: nat | i < |d.items| && i !in gone && i != d.self && i != v
      ensures IsNoWorse(d, gone, i, v)
    {
      var h := d.items[i].host;
      assert Evictable(d, gone, i);
      if g == h {
        assert !Older(d, i, v);
      } else if HasTooMuch(d, gone, h) {
        OverExactly(d, gone, h);
        assert !Larger(d, gone, h, g);
        RanksDiffer(d, g, h);
        if Rank(d, g) < Rank(d, h) {
          MetInOrder(d, g, h, |d.items|, Hosts(d));
        }
      }
    }
  }

  lemma RanksDiffer(d: Demand, g: string, h: string)
    requires g in Hosts(d) && h in Hosts(d) && g != h
    ensures Rank(d, g) != Rank(d, h)
  {
    assert Hosts(d)[Rank(d, g)] == g && Hosts(d)[Rank(d, h)] == h;
  }

  ghost predicate NoExcessLeft(d: Demand, gone: set<nat>) {
    forall i: nat :: i < |d.items| && i !in gone && i != d.self ==> !HasTooMuch(d, gone, d.items[i].host)
  }

  /** Each victim is the worst record that is left, and there is no plan only where no host
      with too much has a record left that may go. */
  lemma OnlyExcessGoes(d: Demand)
    ensures match Plan(d)
            case Some(vs) => forall k :: 0 <= k < |vs| ==> IsWorst(d, SetOf(vs[..k]), vs[k])
            case None => exists ws :: GreedyRun(d, ws) && !Fits(d, SetOf(ws)) && NoExcessLeft(d, SetOf(ws))
  {
    var ws := PlanRuns(d, []);
    match Plan(d)
    case Some(vs) =>
      forall k | 0 <= k < |vs| ensures IsWorst(d, SetOf(vs[..k]), vs[k]) {
        assert PickedNext(d, SetOf(vs[..k]), vs[k]);
        PickedIsWorst(d, SetOf(vs[..k]), vs[k]);
      }
    case None =>
      forall i: nat | i < |d.items| && i !in SetOf(ws) && i != d.self
        ensures !HasTooMuch(d, SetOf(ws), d.items[i].host)
      {
        assert Evictable(d, SetOf(ws), i);
        OverExactly(d, SetOf(ws), d.items[i].host);
      }
  }
}
