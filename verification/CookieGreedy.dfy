/** The early exit and the greedy loop of cookie_make_room, proved to choose the
    victims of the naive plan. */
module CookieGreedy {
  import opened Wrappers
  import opened EvictionPlan
  import opened EvictionLaws
  import opened CookieTally
  import opened CookiePlanner
  import opened CookieSort

  // ---- the early exit ----

  function SelfSet(d: Demand): set<nat> {
    if d.self < 0 then {} else {d.self}
  }

  /** What evicting can free, host by host: a host over its share may lose all
      but the replaced record. */
  function FreeableBy(d: Demand, m: nat, n: nat): nat
    requires m <= |Hosts(d)| && n <= |d.items|
  {
    if m == 0 then 0
    else FreeableBy(d, m - 1, n)
         + if Over(d, {}, Hosts(d)[m - 1]) then Bytes(d, SelfSet(d), Hosts(d)[m - 1], n) else 0
  }

  lemma {:induction false} FreeableStep(d: Demand, m: nat, n: nat)
    requires m <= |Hosts(d)| && 0 < n <= |d.items| && -1 <= d.self
    ensures FreeableBy(d, m, n) == FreeableBy(d, m, n - 1)
         + if n - 1 != d.self && Over(d, {}, d.items[n - 1].host) && d.items[n - 1].host in Hosts(d)[..m]
           then d.items[n - 1].len else 0
  {
    if m > 0 {
      FreeableStep(d, m - 1, n);
      assert Hosts(d)[..m] == Hosts(d)[..m - 1] + [Hosts(d)[m - 1]];
      assert Hosts(d)[m - 1] !in Hosts(d)[..m - 1];
    }
  }

  lemma {:induction false} FreeableNone(d: Demand, m: nat)
    requires m <= |Hosts(d)|
    ensures FreeableBy(d, m, 0) == 0
  {
    if m > 0 {
      FreeableNone(d, m - 1);
    }
  }

  /** Summing by host and summing by record agree. */
  lemma {:induction false} FreeableAgrees(d: Demand, n: nat)
    requires n <= |d.items| && -1 <= d.self
    ensures FreeableBy(d, |Hosts(d)|, n) == Freeable(d, n)
  {
    if n == 0 {
      FreeableNone(d, |Hosts(d)|);
    } else {
      FreeableAgrees(d, n - 1);
      FreeableStep(d, |Hosts(d)|, n);
      assert Hosts(d)[..|Hosts(d)|] == Hosts(d);
    }
  }

  /** A host's bytes, less the new record and the replaced one when it is the
      setter's, are what evicting it can free. */
  lemma HostFreeable(d: Demand, k: nat)
    requires k < |Hosts(d)| && -1 <= d.self < |d.items|
    requires d.self >= 0 ==> d.items[d.self].host == d.setter
    ensures Bytes(d, SelfSet(d), Hosts(d)[k], |d.items|)
         == HostBytes(d, {}, Hosts(d)[k])
            - if k == 0 then d.newLen + (if d.self < 0 then 0 else d.items[d.self].len) else 0
  {
    var host := Hosts(d)[k];
    assert host == d.setter <==> k == 0;
    if d.self >= 0 {
      BytesDrop(d, {}, d.self, host, |d.items|);
      assert {} + {d.self as nat} == SelfSet(d);
    }
  }

  /** The tallies as the loop finds them. */
  ghost predicate TalliesAre(d: Demand, hosts: seq<HostTally>) {
    && |hosts| == |Hosts(d)|
    && forall k :: 0 <= k < |hosts| ==>
         hosts[k].count == HostCount(d, {}, Hosts(d)[k]) && hosts[k].bytes == HostBytes(d, {}, Hosts(d)[k])
  }

  /** The hosts over their share, and the most that evicting them can free. */
  method OverHosts(hosts: seq<HostTally>, recLen: nat, selfLen: nat, ghost d: Demand)
    returns (over: seq<nat>, freeable: nat)
    requires TalliesAre(d, hosts) && recLen == d.newLen && -1 <= d.self < |d.items|
    requires selfLen == if d.self < 0 then 0 else d.items[d.self].len
    requires d.self >= 0 ==> d.items[d.self].host == d.setter
    ensures OverList(d, over)
    ensures freeable == Freeable(d, |d.items|)
  {
    over, freeable := [], 0;
    var i := 0;
    while i < |hosts|
      invariant i <= |hosts|
      invariant forall x :: 0 <= x < |over| ==> over[x] < i
      invariant forall x, y :: 0 <= x < y < |over| ==> over[x] < over[y]
      invariant forall k :: 0 <= k < i ==> (k in over <==> Over(d, {}, Hosts(d)[k]))
      invariant freeable == FreeableBy(d, i, |d.items|)
    {
      if OverShare(hosts[i].count, hosts[i].bytes) {
        HostFreeable(d, i);
        over := over + [i];
        freeable := freeable + hosts[i].bytes - if i == 0 then recLen + selfLen else 0;
      }
      i := i + 1;
    }
    FreeableAgrees(d, |d.items|);
  }

  // ---- the greedy loop ----

  /** Host k in the loop: its tally is what a direct scan gives, or it was set to
      zero once nothing but the replaced record was left; its records before cur
      are out, the replaced one aside, and those from cur on are in. */
  ghost predicate HostWorks(d: Demand, gone: set<nat>, recs: seq<PlanRec>, h: HostTally, k: nat, start: nat)
    requires k < |Hosts(d)|
  {
    && start <= h.cur <= h.end && Stretch(recs, |recs|, k, start, h.end)
    && (forall x :: start <= x < h.cur ==> recs[x].pos in gone || recs[x].pos == d.self)
    && (forall x :: h.cur <= x < h.end ==> recs[x].pos !in gone)
    && if h.count == 0 && h.bytes == 0 && h.cur == h.end then true
       else h.count == HostCount(d, gone, Hosts(d)[k]) && h.bytes == HostBytes(d, gone, Hosts(d)[k])
  }

  ghost predicate Works(d: Demand, gone: set<nat>, recs: seq<PlanRec>, hosts: seq<HostTally>, starts: seq<nat>) {
    && |hosts| == |Hosts(d)| == |starts|
    && forall k :: 0 <= k < |hosts| ==> HostWorks(d, gone, recs, hosts[k], k, starts[k])
  }

  /** An evictable record lies from cur on in its host's stretch. */
  lemma EvictableAhead(d: Demand, gone: set<nat>, recs: seq<PlanRec>, h: HostTally, k: nat, start: nat, i: nat)
    returns (x: nat)
    requires Ranked(d, recs) && k < |Hosts(d)| && HostWorks(d, gone, recs, h, k, start)
    requires Evictable(d, gone, i) && d.items[i].host == Hosts(d)[k]
    ensures h.cur <= x < h.end && recs[x].pos == i
  {
    assert Placed(recs, i);
    x :| 0 <= x < |recs| && recs[x].pos == i;
    assert RecIs(d, Hosts(d), recs[x], i);
    assert recs[x].host == k;
  }

  /** The loop's choice of host: the first of the largest over its share, or -1. */
  method PickBest(hosts: seq<HostTally>, over: seq<nat>) returns (best: int)
    requires forall x :: 0 <= x < |over| ==> over[x] < |hosts|
    requires forall x, y :: 0 <= x < y < |over| ==> over[x] < over[y]
    ensures -1 <= best < |hosts|
    ensures best == -1 ==> forall k :: k in over ==> !OverShare(hosts[k].count, hosts[k].bytes)
    ensures best >= 0 ==> best in over && OverShare(hosts[best].count, hosts[best].bytes)
    ensures best >= 0 ==> forall k :: k in over && OverShare(hosts[k].count, hosts[k].bytes) ==>
                            hosts[k].bytes < hosts[best].bytes || (hosts[k].bytes == hosts[best].bytes && best <= k)
  {
    best := -1;
    var x := 0;
    while x < |over|
      invariant x <= |over| && -1 <= best < |hosts|
      invariant best == -1 ==> forall y :: 0 <= y < x ==> !OverShare(hosts[over[y]].count, hosts[over[y]].bytes)
      invariant best >= 0 ==> best in over[..x] && OverShare(hosts[best].count, hosts[best].bytes)
      invariant best >= 0 ==> forall y :: 0 <= y < x && OverShare(hosts[over[y]].count, hosts[over[y]].bytes) ==>
                  hosts[over[y]].bytes < hosts[best].bytes ||
                  (hosts[over[y]].bytes == hosts[best].bytes && best <= over[y])
    {
      var h := hosts[over[x]];
      if OverShare(h.count, h.bytes) && (best == -1 || h.bytes > hosts[best].bytes) {
        best := over[x];
      }
      x := x + 1;
    }
  }

  /** A host over its share by direct scan is one the loop still looks at. */
  lemma OverIsListed(d: Demand, gone: set<nat>, recs: seq<PlanRec>, hosts: seq<HostTally>, starts: seq<nat>,
                     over: seq<nat>, i: nat)
    returns (k: nat)
    requires Ranked(d, recs) && Works(d, gone, recs, hosts, starts)
    requires forall k :: 0 <= k < |hosts| ==> (k in over <==> Over(d, {}, Hosts(d)[k]))
    requires Evictable(d, gone, i) && Over(d, gone, d.items[i].host)
    ensures k < |hosts| && k in over && Hosts(d)[k] == d.items[i].host && k == Rank(d, d.items[i].host)
    ensures hosts[k].count == HostCount(d, gone, Hosts(d)[k]) && hosts[k].bytes == HostBytes(d, gone, Hosts(d)[k])
  {
    k := Rank(d, d.items[i].host);
    OverShrinks(d, {}, gone, Hosts(d)[k]);
    assert HostWorks(d, gone, recs, hosts[k], k, starts[k]);
    var x := EvictableAhead(d, gone, recs, hosts[k], k, starts[k], i);
  }

  /** The code's best host. */
  ghost predicate BestHost(hosts: seq<HostTally>, over: seq<nat>, best: nat) {
    && best < |hosts| && OverShare(hosts[best].count, hosts[best].bytes)
    && (forall k :: k in over ==> k < |hosts|)
    && forall k :: k in over && OverShare(hosts[k].count, hosts[k].bytes) ==>
         hosts[k].bytes < hosts[best].bytes || (hosts[k].bytes == hosts[best].bytes && best <= k)
  }

  /** The record at the best host's cur is the one to evict next. */
  lemma BestIsPicked(d: Demand, gone: set<nat>, recs: seq<PlanRec>, hosts: seq<HostTally>, starts: seq<nat>,
                     over: seq<nat>, best: nat)
    requires Ranked(d, recs) && Works(d, gone, recs, hosts, starts) && BestHost(hosts, over, best)
    requires forall k :: 0 <= k < |hosts| ==> (k in over <==> Over(d, {}, Hosts(d)[k]))
    requires hosts[best].cur < hosts[best].end && recs[hosts[best].cur].pos != d.self
    ensures PickedNext(d, gone, recs[hosts[best].cur].pos)
  {
    var h, v := hosts[best], recs[hosts[best].cur].pos;
    assert HostWorks(d, gone, recs, h, best, starts[best]);
    assert RecIs(d, Hosts(d), recs[h.cur], v) && recs[h.cur].host == best;
    RankOfIndex(d, best);
    assert Evictable(d, gone, v);
    forall i: nat | Evictable(d, gone, i) && Over(d, gone, d.items[i].host)
      ensures !Larger(d, gone, d.items[i].host, d.items[v].host)
    {
      var k := OverIsListed(d, gone, recs, hosts, starts, over, i);
    }
    forall i: nat | Evictable(d, gone, i) && d.items[i].host == d.items[v].host
      ensures !Older(d, i, v)
    {
      var x := EvictableAhead(d, gone, recs, h, best, starts[best], i);
      assert RecIs(d, Hosts(d), recs[x], i);
      assert x > h.cur ==> Less(recs[h.cur], recs[x]);
    }
  }

  lemma NoBestIsStuck(d: Demand, gone: set<nat>, recs: seq<PlanRec>, hosts: seq<HostTally>, starts: seq<nat>,
                      over: seq<nat>)
    requires Ranked(d, recs) && Works(d, gone, recs, hosts, starts) && !Fits(d, gone)
    requires forall k :: 0 <= k < |hosts| ==> (k in over <==> Over(d, {}, Hosts(d)[k]))
    requires forall k :: k in over && k < |hosts| ==> !OverShare(hosts[k].count, hosts[k].bytes)
    ensures Stuck(d, gone)
  {
    forall i: nat | Evictable(d, gone, i)
      ensures !Over(d, gone, d.items[i].host)
    {
      if Over(d, gone, d.items[i].host) {
        var k := OverIsListed(d, gone, recs, hosts, starts, over, i);
        assert false;
      }
    }
  }

  /** The loop's measure: what the tallies still hold. */
  function Held(hosts: seq<HostTally>): nat {
    if hosts == [] then 0 else hosts[0].count + hosts[0].bytes + Held(hosts[1..])
  }

  lemma {:induction false} HeldUpdate(hosts: seq<HostTally>, k: nat, h: HostTally)
    requires k < |hosts|
    ensures Held(hosts[k := h]) == Held(hosts) - hosts[k].count - hosts[k].bytes + h.count + h.bytes
  {
    if k == 0 {
      assert hosts[k := h][1..] == hosts[1..];
    } else {
      HeldUpdate(hosts[1..], k - 1, h);
      assert hosts[k := h][1..] == hosts[1..][k - 1 := h];
    }
  }

  lemma SkipSelf(d: Demand, gone: set<nat>, recs: seq<PlanRec>, hosts: seq<HostTally>, starts: seq<nat>, k: nat)
    requires Ranked(d, recs) && Works(d, gone, recs, hosts, starts) && k < |hosts|
    requires hosts[k].cur < hosts[k].end && recs[hosts[k].cur].pos == d.self
    ensures var next := hosts[k := hosts[k].(cur := hosts[k].cur + 1)];
            Works(d, gone, recs, next, starts)
            && (next[k].cur < next[k].end ==> recs[next[k].cur].pos != d.self)
  {
    var h := hosts[k];
    assert HostWorks(d, gone, recs, h, k, starts[k]);
    var h' := h.(cur := h.cur + 1);
    assert HostWorks(d, gone, recs, h', k, starts[k]);
    if h'.cur < h'.end {
      assert Less(recs[h.cur], recs[h'.cur]);
      assert RecIs(d, Hosts(d), recs[h.cur], recs[h.cur].pos) && RecIs(d, Hosts(d), recs[h'.cur], recs[h'.cur].pos);
    }
  }

  /** Only the replaced record is left, so the host is out of the running. */
  lemma ZeroHost(d: Demand, gone: set<nat>, recs: seq<PlanRec>, hosts: seq<HostTally>, starts: seq<nat>, k: nat)
    requires Works(d, gone, recs, hosts, starts) && k < |hosts| && hosts[k].cur >= hosts[k].end
    ensures Works(d, gone, recs, hosts[k := hosts[k].(count := 0, bytes := 0)], starts)
  {
    assert HostWorks(d, gone, recs, hosts[k], k, starts[k]);
  }

  /** A host with one record fewer. */
  function Charge(h: HostTally, len: nat): HostTally
    requires h.count >= 1 && h.bytes >= len
  {
    h.(count := h.count - 1, bytes := h.bytes - len, cur := h.cur + 1)
  }

  lemma EvictOther(d: Demand, gone: set<nat>, recs: seq<PlanRec>, h: HostTally, k: nat, start: nat, x: nat, best: nat)
    requires Ranked(d, recs) && k < |Hosts(d)| && HostWorks(d, gone, recs, h, k, start)
    requires x < |recs| && recs[x].host == best && best != k && recs[x].pos !in gone
    ensures HostWorks(d, gone + {recs[x].pos}, recs, h, k, start)
  {
    var v := recs[x].pos;
    assert RecIs(d, Hosts(d), recs[x], v);
    CountDrops(d, gone, v, Hosts(d)[k], |d.items|);
    BytesDrop(d, gone, v, Hosts(d)[k], |d.items|);
    forall y | h.cur <= y < h.end
      ensures recs[y].pos !in gone + {v}
    {
      assert recs[y].host == k;
      assert RecIs(d, Hosts(d), recs[y], recs[y].pos);
    }
  }

  lemma EvictOwn(d: Demand, gone: set<nat>, recs: seq<PlanRec>, h: HostTally, k: nat, start: nat)
    requires Ranked(d, recs) && k < |Hosts(d)| && HostWorks(d, gone, recs, h, k, start)
    requires h.cur < h.end
    ensures h.count >= 1 && h.bytes >= recs[h.cur].len
    ensures HostWorks(d, gone + {recs[h.cur].pos}, recs, Charge(h, recs[h.cur].len), k, start)
  {
    var v := recs[h.cur].pos;
    assert recs[h.cur].host == k && RecIs(d, Hosts(d), recs[h.cur], v);
    CountDrops(d, gone, v, Hosts(d)[k], |d.items|);
    BytesDrop(d, gone, v, Hosts(d)[k], |d.items|);
    forall y | h.cur < y < h.end
      ensures recs[y].pos !in gone + {v}
    {
      assert Less(recs[h.cur], recs[y]);
      assert RecIs(d, Hosts(d), recs[y], recs[y].pos);
    }
  }

  lemma EvictWorks(d: Demand, gone: set<nat>, recs: seq<PlanRec>, hosts: seq<HostTally>, starts: seq<nat>, best: nat)
    requires Ranked(d, recs) && Works(d, gone, recs, hosts, starts) && best < |hosts|
    requires hosts[best].cur < hosts[best].end
    ensures var h := hosts[best];
            && h.count >= 1 && h.bytes >= recs[h.cur].len
            && Works(d, gone + {recs[h.cur].pos}, recs, hosts[best := Charge(h, recs[h.cur].len)], starts)
  {
    assert HostWorks(d, gone, recs, hosts[best], best, starts[best]);
    EvictOwn(d, gone, recs, hosts[best], best, starts[best]);
    forall k | 0 <= k < |hosts| && k != best
      ensures HostWorks(d, gone + {recs[hosts[best].cur].pos}, recs, hosts[k], k, starts[k])
    {
      assert HostWorks(d, gone, recs, hosts[k], k, starts[k]);
      EvictOther(d, gone, recs, hosts[k], k, starts[k], hosts[best].cur, best);
    }
  }

  lemma SetSnoc(vs: seq<nat>, v: nat)
    ensures SetOf(vs + [v]) == SetOf(vs) + {v}
  {
  }

  /** The flags mark the victims picked so far. */
  ghost predicate Marked(evict: seq<bool>, vs: seq<nat>) {
    forall i :: 0 <= i < |evict| ==> (evict[i] <==> i in vs)
  }

  lemma MarkedSnoc(evict: seq<bool>, vs: seq<nat>, v: nat)
    requires Marked(evict, vs) && v < |evict|
    ensures Marked(evict[v := true], vs + [v])
  {
  }

  /** The list of the hosts that were over their share at the start. */
  ghost predicate OverList(d: Demand, over: seq<nat>) {
    && (forall x, y :: 0 <= x < y < |over| ==> over[x] < over[y])
    && (forall x :: 0 <= x < |over| ==> over[x] < |Hosts(d)|)
    && forall k :: 0 <= k < |Hosts(d)| ==> (k in over <==> Over(d, {}, Hosts(d)[k]))
  }

  /** What holds at the top of the greedy loop. */
  ghost predicate InLoop(d: Demand, recs: seq<PlanRec>, starts: seq<nat>, hosts: seq<HostTally>,
                         used: nat, evict: seq<bool>, vs: seq<nat>)
  {
    && Works(d, SetOf(vs), recs, hosts, starts) && GreedyRun(d, vs)
    && used == UsedBy(d, SetOf(vs), |d.items|)
    && |evict| == |recs| && Marked(evict, vs)
  }

  lemma LoopStarts(d: Demand, recs: seq<PlanRec>, hosts: seq<HostTally>, used: nat) returns (starts: seq<nat>)
    requires Ranked(d, recs) && TalliesAre(d, hosts) && used == UsedBy(d, {}, |d.items|)
    requires forall k :: 0 <= k < |hosts| ==> Stretch(recs, |recs|, k, hosts[k].cur, hosts[k].end)
    ensures InLoop(d, recs, starts, hosts, used, seq(|recs|, i => false), [])
  {
    starts := seq(|hosts|, k requires 0 <= k < |hosts| => hosts[k].cur);
    assert SetOf([]) == {};
    forall k | 0 <= k < |hosts|
      ensures HostWorks(d, {}, recs, hosts[k], k, starts[k])
    {
      assert Stretch(recs, |recs|, k, hosts[k].cur, hosts[k].end);
    }
  }

  /** The run takes the best host's record as its next victim. */
  lemma RunTakes(d: Demand, recs: seq<PlanRec>, starts: seq<nat>, hosts: seq<HostTally>, over: seq<nat>, best: nat,
                 vs: seq<nat>)
    requires Ranked(d, recs) && Works(d, SetOf(vs), recs, hosts, starts) && GreedyRun(d, vs) && !Fits(d, SetOf(vs))
    requires OverList(d, over) && BestHost(hosts, over, best)
    requires hosts[best].cur < hosts[best].end <= |recs| && recs[hosts[best].cur].pos != d.self
    ensures var v := recs[hosts[best].cur];
            && GreedyRun(d, vs + [v.pos]) && SetOf(vs + [v.pos]) == SetOf(vs) + {v.pos}
            && v.len <= UsedBy(d, SetOf(vs), |d.items|)
            && UsedBy(d, SetOf(vs + [v.pos]), |d.items|) == UsedBy(d, SetOf(vs), |d.items|) - v.len
  {
    var gone, v := SetOf(vs), recs[hosts[best].cur];
    BestIsPicked(d, gone, recs, hosts, starts, over, best);
    RunExtends(d, vs, v.pos);
    SetSnoc(vs, v.pos);
    UsedDrops(d, gone, v.pos, |d.items|);
    assert RecIs(d, Hosts(d), v, v.pos);
  }

  /** Evict the record at the best host's cur. */
  method EvictOne(recs: seq<PlanRec>, hosts: seq<HostTally>, over: seq<nat>, best: nat, used: nat, evict: seq<bool>,
                  ghost d: Demand, ghost starts: seq<nat>, ghost vs: seq<nat>)
    returns (hosts': seq<HostTally>, used': nat, evict': seq<bool>, ghost vs': seq<nat>)
    requires Ranked(d, recs) && InLoop(d, recs, starts, hosts, used, evict, vs) && used > d.room
    requires OverList(d, over) && BestHost(hosts, over, best)
    requires hosts[best].cur < hosts[best].end && recs[hosts[best].cur].pos != d.self
    ensures InLoop(d, recs, starts, hosts', used', evict', vs') && Held(hosts') < Held(hosts)
  {
    ghost var gone := SetOf(vs);
    var h := hosts[best];
    assert HostWorks(d, gone, recs, h, best, starts[best]);
    var v := recs[h.cur];
    RunTakes(d, recs, starts, hosts, over, best, vs);
    EvictWorks(d, gone, recs, hosts, starts, best);
    HeldUpdate(hosts, best, Charge(h, v.len));
    MarkedSnoc(evict, vs, v.pos);
    evict' := evict[v.pos := true];
    used' := used - v.len;
    hosts' := hosts[best := Charge(h, v.len)];
    vs' := vs + [v.pos];
  }

  /** The greedy loop. It gives the victims of the plan, or fails exactly when
      there is no plan. */
  method PickVictims(tallies: seq<HostTally>, recs: seq<PlanRec>, over: seq<nat>, selfPos: int,
                     total: nat, limit: nat, ghost d: Demand)
    returns (ok: bool, evict: seq<bool>, ghost vs: seq<nat>)
    requires Ranked(d, recs) && selfPos == d.self && total == UsedBy(d, {}, |d.items|) && limit == d.room
    requires TalliesAre(d, tallies) && OverList(d, over)
    requires forall k :: 0 <= k < |tallies| ==> Stretch(recs, |recs|, k, tallies[k].cur, tallies[k].end)
    ensures ok ==> Plan(d) == Some(vs) && |evict| == |recs| && Marked(evict, vs)
    ensures !ok ==> Plan(d) == None
  {
    var hosts := tallies;
    var used: nat := total;
    ghost var starts := LoopStarts(d, recs, tallies, total);
    evict, vs, ok := seq(|recs|, i => false), [], true;
    while used > limit
      invariant InLoop(d, recs, starts, hosts, used, evict, vs)
      decreases Held(hosts)
    {
      ghost var gone, held := SetOf(vs), Held(hosts);
      var best := PickBest(hosts, over);
      if best == -1 {
        NoBestIsStuck(d, gone, recs, hosts, starts, over);
        PlanExact(d, vs);
        ok := false;
        return;
      }
      if hosts[best].cur < hosts[best].end && recs[hosts[best].cur].pos == selfPos {
        SkipSelf(d, gone, recs, hosts, starts, best);
        var h := hosts[best].(cur := hosts[best].cur + 1);
        HeldUpdate(hosts, best, h);
        hosts := hosts[best := h];
      }
      if hosts[best].cur >= hosts[best].end {
        ZeroHost(d, gone, recs, hosts, starts, best);
        var h := hosts[best].(count := 0, bytes := 0);
        HeldUpdate(hosts, best, h);
        hosts := hosts[best := h];
      } else {
        hosts, used, evict, vs := EvictOne(recs, hosts, over, best, used, evict, d, starts, vs);
      }
    }
    PlanExact(d, vs);
  }
}
