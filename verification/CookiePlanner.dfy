/** The second half of cookie_make_room: the pass that fills the tally, the sort,
    and the greedy choice of victims, proved to follow the naive plan. */
module CookiePlanner {
  import opened CookieText
  import opened EvictionPlan
  import opened CookieStore
  import opened CookieTally

  // ---- the pass over the jar ----

  function Pow2(e: nat): nat {
    if e == 0 then 1 else 2 * Pow2(e - 1)
  }

  method TableSize(n: nat) returns (mask: nat)
    ensures mask >= 2 * (n + 1) && exists e :: mask == Pow2(e)
  {
    mask := 1;
    ghost var e := 0;
    while mask < 2 * (n + 1)
      invariant mask == Pow2(e) && mask > 0
    {
      mask := mask * 2;
      e := e + 1;
    }
  }

  /** Entry i of recs describes record i, charged to the host met with it. */
  ghost predicate RecIs(d: Demand, hosts: seq<string>, q: PlanRec, i: nat)
    requires i < |d.items|
  {
    && q.pos == i && q.len == d.items[i].len && q.plen == d.items[i].plen
    && q.host < |hosts| && hosts[q.host] == d.items[i].host
  }

  ghost predicate RecsAre(d: Demand, i: nat, hosts: seq<string>, recs: seq<PlanRec>) {
    && |recs| == i <= |d.items|
    && forall j :: 0 <= j < i ==> RecIs(d, hosts, recs[j], j)
  }

  lemma RecsGrow(d: Demand, i: nat, hosts: seq<string>, hosts': seq<string>, recs: seq<PlanRec>, q: PlanRec)
    requires RecsAre(d, i, hosts, recs) && hosts <= hosts'
    requires i < |d.items| && RecIs(d, hosts', q, i)
    ensures RecsAre(d, i + 1, hosts', recs + [q])
  {
  }

  lemma HostsGrow(d: Demand, i: nat)
    requires i < |d.items|
    ensures HostsOf(d, i) <= HostsOf(d, i + 1)
  {
  }

  /** The tally before the pass: the host being set for, charged with its new record. */
  method FirstHost(n: nat, domain: string, recLen: nat, ghost d: Demand)
    returns (hosts: seq<HostTally>, table: seq<nat>)
    requires d.setter == Canon(domain) && d.newLen == recLen
    ensures Tallied(d, 0, hosts, table) && Roomy(table, n)
  {
    var mask := TableSize(n);
    var zeros := seq(mask, p => 0);
    FilledNone(zeros);
    TableInsert(zeros, [], d.setter, 0);
    assert [] + [d.setter] == HostsOf(d, 0);
    hosts := [HostTally(domain, 1, recLen, 0, 0)];
    table := zeros[DomainHash(Canon(domain)) % mask := 1];
  }

  lemma {:induction false} FirstSnoc(ok: seq<bool>, b: bool)
    ensures First(ok + [b]) == if First(ok) < 0 && b then |ok| else First(ok)
  {
    if ok != [] {
      FirstSnoc(ok[1..], b);
      assert (ok + [b])[1..] == ok[1..] + [b];
    }
  }

  /** Is record i the one cookie_set replaces, when none before it was? */
  lemma SelfStep(rs: seq<Rec>, i: nat, name: string, domain: string, path: string)
    requires i < |rs|
    ensures var self := FindExact(rs[..i], name, domain, path);
            FindExact(rs[..i + 1], name, domain, path)
            == if self < 0 && IsSelf(rs[i], name, domain, path) then i else self
  {
    var before, now := Matches(rs[..i], name, domain, path), Matches(rs[..i + 1], name, domain, path);
    assert now == before + [IsSelf(rs[i], name, domain, path)];
    FirstSnoc(before, IsSelf(rs[i], name, domain, path));
  }

  /** The replaced record, once the pass has met it. */
  predicate SelfIs(d: Demand, rs: seq<Rec>, i: nat, q: SelfRec, name: string, domain: string, path: string)
    requires i <= |rs| == |d.items|
  {
    && q.pos == FindExact(rs[..i], name, domain, path)
    && q.len == if q.pos < 0 then 0 else d.items[q.pos].len
  }

  datatype SelfRec = SelfRec(len: nat, pos: int)

  /** The i-th step of the pass. */
  method TallyRecord(text: string, a: nat, i: nat, ghost rs: seq<Rec>, ghost d: Demand,
                     domain: string, name: string, path: string,
                     hosts: seq<HostTally>, table: seq<nat>, self: SelfRec)
    returns (hosts': seq<HostTally>, table': seq<nat>, q: PlanRec, self': SelfRec, next: nat)
    requires AllStorable(rs) && text == Text(rs) && i < |rs| && a == |Text(rs[..i])|
    requires d.items == Items(rs) && d.setter == Canon(domain)
    requires Tallied(d, i, hosts, table) && Roomy(table, |rs|)
    requires SelfIs(d, rs, i, self, name, domain, path)
    ensures Tallied(d, i + 1, hosts', table') && |table'| == |table|
    ensures RecIs(d, HostsOf(d, i + 1), q, i)
    ensures SelfIs(d, rs, i + 1, self', name, domain, path)
    ensures next == |Text(rs[..i + 1])| <= |text| && a < next
  {
    var dom, recPath, recName, next' := ReadRecord(text, a, rs, i);
    next := next';
    var len := next - a;
    var host;
    hosts', table', host := ChargeHost(d, i, hosts, table, dom, len);
    q := PlanRec(len, |recPath|, i, host);
    self' := self;
    SelfStep(rs, i, name, domain, path);
    assert host == 0 <==> SameDomain(dom, domain) by {
      assert HostsOf(d, i + 1)[0] == d.setter;
    }
    if host == 0 && self.len == 0 && recName == name && SameDomain(dom, domain) && recPath == path {
      self' := SelfRec(len, i);
    }
  }

  lemma StartOfJar(rs: seq<Rec>, name: string, domain: string, path: string)
    requires AllStorable(rs)
    ensures |Text(rs[..0])| == 0 && (0 < |Text(rs)| <==> 0 < |rs|)
    ensures FindExact(rs[..0], name, domain, path) == -1
  {
    assert Lines(rs[..0]) == [];
    AtEnd(rs, 0);
  }

  /** The pass, i records into the jar. */
  ghost predicate Passed(rs: seq<Rec>, d: Demand, domain: string, name: string, path: string, i: nat,
                         hosts: seq<HostTally>, table: seq<nat>, recs: seq<PlanRec>, self: SelfRec)
  {
    && i <= |rs| == |d.items| && Tallied(d, i, hosts, table) && Roomy(table, |rs|)
    && RecsAre(d, i, HostsOf(d, i), recs) && SelfIs(d, rs, i, self, name, domain, path)
  }

  /** Where it reads next. */
  ghost predicate ReadsAt(rs: seq<Rec>, text: string, i: nat, a: nat) {
    i <= |rs| && a == |Text(rs[..i])| <= |text| && (a < |text| <==> i < |rs|)
  }

  method TallyNext(text: string, a: nat, i: nat, ghost rs: seq<Rec>, ghost d: Demand,
                   domain: string, name: string, path: string,
                   hosts: seq<HostTally>, table: seq<nat>, recs: seq<PlanRec>, self: SelfRec)
    returns (hosts': seq<HostTally>, table': seq<nat>, recs': seq<PlanRec>, self': SelfRec, next: nat)
    requires AllStorable(rs) && text == Text(rs) && i < |rs| && ReadsAt(rs, text, i, a)
    requires d.items == Items(rs) && d.setter == Canon(domain)
    requires Passed(rs, d, domain, name, path, i, hosts, table, recs, self)
    ensures Passed(rs, d, domain, name, path, i + 1, hosts', table', recs', self')
    ensures ReadsAt(rs, text, i + 1, next)
  {
    var q;
    HostsGrow(d, i);
    hosts', table', q, self', next := TallyRecord(text, a, i, rs, d, domain, name, path, hosts, table, self);
    RecsGrow(d, i, HostsOf(d, i), HostsOf(d, i + 1), recs, q);
    recs' := recs + [q];
    AtEnd(rs, i + 1);
  }

  method TallyJar(text: string, ghost rs: seq<Rec>, n: nat, domain: string, name: string, path: string,
                  recLen: nat, ghost d: Demand)
    returns (hosts: seq<HostTally>, recs: seq<PlanRec>, self: SelfRec)
    requires AllStorable(rs) && text == Text(rs) && n == |rs|
    requires d.items == Items(rs) && d.setter == Canon(domain) && d.newLen == recLen
    requires d.self == FindExact(rs, name, domain, path)
    ensures |hosts| == |Hosts(d)| && forall k :: 0 <= k < |hosts| ==> HostIs(d, |rs|, hosts[k], Hosts(d)[k])
    ensures RecsAre(d, |rs|, Hosts(d), recs)
    ensures self.pos == d.self && self.len == if d.self < 0 then 0 else d.items[d.self].len
  {
    var table;
    hosts, table := FirstHost(n, domain, recLen, d);
    recs, self := [], SelfRec(0, -1);
    var i: nat, a: nat := 0, 0;
    StartOfJar(rs, name, domain, path);
    while a < |text|
      invariant ReadsAt(rs, text, i, a) && Passed(rs, d, domain, name, path, i, hosts, table, recs, self)
      decreases |rs| - i
    {
      hosts, table, recs, self, a := TallyNext(text, a, i, rs, d, domain, name, path, hosts, table, recs, self);
      i := i + 1;
    }
    assert rs[..i] == rs;
  }
}
