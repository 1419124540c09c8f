/** What eviction from a full cookie jar must choose, told by direct scans of
    the records: no hash table, no sort, no running totals. */
module EvictionPlan {
  import opened Wrappers

  const COOKIE_HOST_MAX_COUNT := 50
  const COOKIE_HOST_MAX_BYTES := 8192

  /** One record: the host it counts for, its bytes, and its path's length. */
  datatype Item = Item(host: string, len: nat, plen: nat)

  /** A jar asked to take a new record of `newLen` bytes for the host `setter`.
      The record it replaces is at `self`, or -1; the others must shrink to `room`. */
  datatype Demand = Demand(items: seq<Item>, setter: string, newLen: nat, self: int, room: nat)

  predicate OverShare(count: nat, bytes: nat) {
    count > COOKIE_HOST_MAX_COUNT || bytes > COOKIE_HOST_MAX_BYTES
  }

  // ---- tallies of what is left once the records of gone are out ----

  function Count(d: Demand, gone: set<nat>, host: string, n: nat): nat
    requires n <= |d.items|
  {
    if n == 0 then 0
    else Count(d, gone, host, n - 1)
         + if n - 1 !in gone && d.items[n - 1].host == host then 1 else 0
  }

  function Bytes(d: Demand, gone: set<nat>, host: string, n: nat): nat
    requires n <= |d.items|
  {
    if n == 0 then 0
    else Bytes(d, gone, host, n - 1)
         + if n - 1 !in gone && d.items[n - 1].host == host then d.items[n - 1].len else 0
  }

  /** The records left, the replaced one aside. */
  function UsedBy(d: Demand, gone: set<nat>, n: nat): nat
    requires n <= |d.items|
  {
    if n == 0 then 0
    else UsedBy(d, gone, n - 1)
         + if n - 1 !in gone && n - 1 != d.self then d.items[n - 1].len else 0
  }

  /** A host's records, with the new one added to the setter's. */
  function HostCount(d: Demand, gone: set<nat>, host: string): nat {
    Count(d, gone, host, |d.items|) + if host == d.setter then 1 else 0
  }

  function HostBytes(d: Demand, gone: set<nat>, host: string): nat {
    Bytes(d, gone, host, |d.items|) + if host == d.setter then d.newLen else 0
  }

  predicate Over(d: Demand, gone: set<nat>, host: string) {
    OverShare(HostCount(d, gone, host), HostBytes(d, gone, host))
  }

  predicate Fits(d: Demand, gone: set<nat>) {
    UsedBy(d, gone, |d.items|) <= d.room
  }

  /** The hosts in the order they are met, the setter's first. */
  function HostsOf(d: Demand, n: nat): (hosts: seq<string>)
    requires n <= |d.items|
    ensures 0 < |hosts| <= n + 1 && hosts[0] == d.setter
    ensures forall i, j :: 0 <= i < j < |hosts| ==> hosts[i] != hosts[j]
    ensures forall i :: 0 <= i < n ==> d.items[i].host in hosts
    ensures forall h :: h in hosts ==> h == d.setter || exists i :: 0 <= i < n && d.items[i].host == h
  {
    if n == 0 then [d.setter]
    else
      var hosts := HostsOf(d, n - 1);
      if d.items[n - 1].host in hosts then hosts else hosts + [d.items[n - 1].host]
  }

  function Hosts(d: Demand): seq<string> {
    HostsOf(d, |d.items|)
  }

  function IndexIn(hosts: seq<string>, host: string): (i: nat)
    requires host in hosts
    ensures i < |hosts| && hosts[i] == host
  {
    if hosts[0] == host then 0 else 1 + IndexIn(hosts[1..], host)
  }

  /** When a host was met. */
  function Rank(d: Demand, host: string): nat
    requires host in Hosts(d)
  {
    IndexIn(Hosts(d), host)
  }

  // ---- one pick ----

  /** Record i may still be evicted. */
  predicate Evictable(d: Demand, gone: set<nat>, i: nat) {
    i < |d.items| && i !in gone && i != d.self
  }

  /** Host g is a better choice than host h: larger, or as large and met sooner. */
  predicate Larger(d: Demand, gone: set<nat>, g: string, h: string)
    requires g in Hosts(d) && h in Hosts(d)
  {
    || HostBytes(d, gone, g) > HostBytes(d, gone, h)
    || (HostBytes(d, gone, g) == HostBytes(d, gone, h) && Rank(d, g) < Rank(d, h))
  }

  /** Record i goes before record j within a host: shorter path, or as short and earlier. */
  predicate Older(d: Demand, i: nat, j: nat)
    requires i < |d.items| && j < |d.items|
  {
    d.items[i].plen < d.items[j].plen || (d.items[i].plen == d.items[j].plen && i < j)
  }

  /** v is the record to evict next: its host is over its share, no other host
      over its share that still has a record to give is larger, and none of the
      host's records is older. The replaced record is never it. */
  ghost predicate PickedNext(d: Demand, gone: set<nat>, v: nat) {
    && Evictable(d, gone, v)
    && Over(d, gone, d.items[v].host)
    && (forall i: nat :: Evictable(d, gone, i) && Over(d, gone, d.items[i].host) ==>
          !Larger(d, gone, d.items[i].host, d.items[v].host))
    && (forall i: nat :: Evictable(d, gone, i) && d.items[i].host == d.items[v].host ==>
          !Older(d, i, v))
  }

  function SetOf(vs: seq<nat>): set<nat> {
    set v | v in vs
  }

  /** vs are evictions in order, each the right one and each still needed. */
  ghost predicate GreedyRun(d: Demand, vs: seq<nat>) {
    forall k :: 0 <= k < |vs| ==> !Fits(d, SetOf(vs[..k])) && PickedNext(d, SetOf(vs[..k]), vs[k])
  }

  /** No host over its share has a record left to give. */
  ghost predicate Stuck(d: Demand, gone: set<nat>) {
    !Fits(d, gone) && forall i: nat :: Evictable(d, gone, i) ==> !Over(d, gone, d.items[i].host)
  }

  // ---- the same choice, computed ----

  /** The oldest evictable record of host among the first n, or -1. */
  function Oldest(d: Demand, gone: set<nat>, host: string, n: nat): (v: int)
    requires n <= |d.items|
    ensures v == -1 <==> forall i :: 0 <= i < n && Evictable(d, gone, i) ==> d.items[i].host != host
    ensures v != -1 ==>
              && 0 <= v < n && Evictable(d, gone, v) && d.items[v].host == host
              && forall i :: 0 <= i < n && Evictable(d, gone, i) && d.items[i].host == host ==> !Older(d, i, v)
  {
    if n == 0 then -1
    else
      var v := Oldest(d, gone, host, n - 1);
      if Evictable(d, gone, n - 1) && d.items[n - 1].host == host
         && (v == -1 || d.items[n - 1].plen < d.items[v].plen)
      then n - 1 else v
  }

  /** Host h is over its share and has a record to give. */
  predicate Eligible(d: Demand, gone: set<nat>, h: string) {
    Over(d, gone, h) && Oldest(d, gone, h, |d.items|) != -1
  }

  /** The first largest of the sizes that count among the first n, or -1. */
  function FirstLargest(counts: seq<bool>, size: seq<nat>, n: nat): (b: int)
    requires n <= |counts| == |size|
    ensures b == -1 <==> forall h :: 0 <= h < n ==> !counts[h]
    ensures b != -1 ==>
              && 0 <= b < n && counts[b]
              && (forall h :: 0 <= h < n && counts[h] ==> size[h] <= size[b])
              && (forall h :: 0 <= h < b && counts[h] ==> size[h] < size[b])
  {
    if n == 0 then -1
    else
      var b := FirstLargest(counts, size, n - 1);
      if counts[n - 1] && (b == -1 || size[n - 1] > size[b]) then n - 1 else b
  }

  function EligibleHosts(d: Demand, gone: set<nat>, hosts: seq<string>): (counts: seq<bool>)
    ensures |counts| == |hosts|
    ensures forall h :: 0 <= h < |hosts| ==> counts[h] == Eligible(d, gone, hosts[h])
  {
    seq(|hosts|, h requires 0 <= h < |hosts| => Eligible(d, gone, hosts[h]))
  }

  function HostSizes(d: Demand, gone: set<nat>, hosts: seq<string>): (sizes: seq<nat>)
    ensures |sizes| == |hosts|
    ensures forall h :: 0 <= h < |hosts| ==> sizes[h] == HostBytes(d, gone, hosts[h])
  {
    seq(|hosts|, h requires 0 <= h < |hosts| => HostBytes(d, gone, hosts[h]))
  }

  /** The index of the host to evict from, or -1. */
  function Best(d: Demand, gone: set<nat>): (b: int)
    ensures b == -1 || (0 <= b < |Hosts(d)| && Eligible(d, gone, Hosts(d)[b]))
  {
    var hosts := Hosts(d);
    FirstLargest(EligibleHosts(d, gone, hosts), HostSizes(d, gone, hosts), |hosts|)
  }

  function Next(d: Demand, gone: set<nat>): (v: int)
    ensures v != -1 ==> v >= 0 && Evictable(d, gone, v)
  {
    var b := Best(d, gone);
    if b == -1 then -1 else Oldest(d, gone, Hosts(d)[b], |d.items|)
  }

  /** Number of records not in gone: the plan's measure. */
  function Left(d: Demand, gone: set<nat>): set<nat> {
    set i | 0 <= i < |d.items| && i !in gone
  }

  /** The whole list of evictions that starts with vs, or None when it gets stuck. */
  function PlanFrom(d: Demand, vs: seq<nat>): Option<seq<nat>>
    decreases Left(d, SetOf(vs))
  {
    var gone := SetOf(vs);
    if Fits(d, gone) then Some(vs)
    else
      var v := Next(d, gone);
      if v == -1 then None
      else
        assert v in Left(d, gone) && v !in Left(d, SetOf(vs + [v]));
        assert Left(d, SetOf(vs + [v])) < Left(d, gone);
        PlanFrom(d, vs + [v])
  }

  function Plan(d: Demand): Option<seq<nat>> {
    PlanFrom(d, [])
  }
}
