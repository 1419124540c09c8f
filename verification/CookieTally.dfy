/** The first half of cookie_make_room: one pass over the jar that tallies every
    host through an open-addressed hash table. */
module CookieTally {
  import opened CText
  import opened CookieText
  import opened EvictionPlan
  import opened CookieStore

  /** What the plan needs of a record: its bytes, its age, its place and its host. */
  datatype PlanRec = PlanRec(len: nat, plen: nat, pos: nat, host: nat)

  /** What the plan knows of a host: how much it has, and which stretch of the sorted
      records is its own. */
  datatype HostTally = HostTally(dom: string, count: nat, bytes: nat, cur: nat, end: nat)

  // ---- the hash ----

  /** A char is signed, so a byte above 127 widens to a size_t near its top. */
  function Widen(c: char): nat {
    if (c as int) < 128 then c as int else (SIZE_MOD - 256 + c as int) % SIZE_MOD
  }

  function HashFrom(s: string, h: nat): nat {
    if s == "" then h else HashFrom(s[1..], (h * 33 + Widen(s[0])) % SIZE_MOD)
  }

  /** cookie_domain_hash: equal for domains that cookie_same_domain equates. */
  function DomainHash(host: string): nat {
    HashFrom(host, 5381)
  }

  /** The j-th slot of a probe, round the end. The size is a power of two, so
      the code's mask is this remainder. */
  function SlotOf(host: string, j: nat, size: nat): (p: nat)
    requires j < size
    ensures p < size
  {
    var h := DomainHash(host) % size;
    if h + j < size then h + j else h + j - size
  }

  // ---- the table ----

  function Filled(table: seq<nat>): nat {
    if table == [] then 0 else Filled(table[1..]) + if table[0] != 0 then 1 else 0
  }

  lemma {:induction false} FilledUpdate(table: seq<nat>, p: nat, v: nat)
    requires p < |table| && table[p] == 0 && v != 0
    ensures Filled(table[p := v]) == Filled(table) + 1
  {
    if p > 0 {
      FilledUpdate(table[1..], p - 1, v);
      assert table[p := v][1..] == table[1..][p - 1 := v];
    } else {
      assert table[p := v][1..] == table[1..];
    }
  }

  lemma {:induction false} FilledAll(table: seq<nat>)
    requires forall p :: 0 <= p < |table| ==> table[p] != 0
    ensures Filled(table) == |table|
  {
    if table != [] {
      FilledAll(table[1..]);
    }
  }

  lemma {:induction false} FilledNone(table: seq<nat>)
    requires forall p :: 0 <= p < |table| ==> table[p] == 0
    ensures Filled(table) == 0
  {
    if table != [] {
      FilledNone(table[1..]);
    }
  }

  /** Host k sits `off` probes past its own slot, and no slot before is empty. */
  predicate Reached(table: seq<nat>, host: string, k: nat, off: nat)
    requires |table| > 0
  {
    && off < |table| && table[SlotOf(host, off, |table|)] == k + 1
    && forall j :: 0 <= j < off ==> table[SlotOf(host, j, |table|)] != 0
  }

  ghost predicate Findable(table: seq<nat>, host: string, k: nat)
    requires |table| > 0
  {
    exists off :: Reached(table, host, k, off)
  }

  /** The table holds host k as k + 1, where probing from its hash finds it. */
  ghost predicate TableOk(table: seq<nat>, hosts: seq<string>) {
    && |hosts| < |table| && Filled(table) == |hosts|
    && (forall p :: 0 <= p < |table| ==> table[p] <= |hosts|)
    && forall k :: 0 <= k < |hosts| ==> Findable(table, hosts[k], k)
  }

  lemma EverySlotProbed(host: string, size: nat, p: nat) returns (j: nat)
    requires p < size
    ensures j < size && SlotOf(host, j, size) == p
  {
    var h := DomainHash(host) % size;
    j := if p >= h then p - h else p + size - h;
  }

  lemma Reprobed(table: seq<nat>, host: string, k: nat, off: nat, p: nat, v: nat)
    requires |table| > 0 && Reached(table, host, k, off) && p < |table| && table[p] == 0 && v != 0
    ensures Reached(table[p := v], host, k, off)
  {
  }

  /** A host put where its own probe ended leaves the others in reach. */
  lemma TableInsert(table: seq<nat>, hosts: seq<string>, host: string, off: nat)
    requires TableOk(table, hosts) && |hosts| + 1 < |table| && off < |table|
    requires table[SlotOf(host, off, |table|)] == 0
    requires forall j :: 0 <= j < off ==> table[SlotOf(host, j, |table|)] != 0
    ensures TableOk(table[SlotOf(host, off, |table|) := |hosts| + 1], hosts + [host])
  {
    var p, v, more := SlotOf(host, off, |table|), |hosts| + 1, hosts + [host];
    var table' := table[p := v];
    FilledUpdate(table, p, v);
    forall k | 0 <= k < |more|
      ensures Findable(table', more[k], k)
    {
      if k < |hosts| {
        assert more[k] == hosts[k];
        var o :| Reached(table, hosts[k], k, o);
        Reprobed(table, hosts[k], k, o, p, v);
      } else {
        assert more[k] == host && Reached(table', host, k, off);
      }
    }
  }

  /** Every slot tried so far is taken, by another host. */
  ghost predicate Tried(table: seq<nat>, keys: seq<string>, host: string, off: nat) {
    && off <= |table| && (forall p :: 0 <= p < |table| ==> table[p] <= |keys|)
    && forall j :: 0 <= j < off ==>
         table[SlotOf(host, j, |table|)] != 0 && keys[table[SlotOf(host, j, |table|)] - 1] != host
  }

  lemma NextSlot(host: string, off: nat, size: nat)
    requires off + 1 < size
    ensures (SlotOf(host, off, size) + 1) % size == SlotOf(host, off + 1, size)
  {
    var h := DomainHash(host) % size;
    Wraps(if h + off < size then h + off else h + off - size, size);
  }

  lemma Wraps(h: nat, size: nat)
    requires h < size
    ensures (h + 1) % size == if h + 1 == size then 0 else h + 1
  {
  }

  lemma TryOne(table: seq<nat>, keys: seq<string>, host: string, off: nat)
    requires Tried(table, keys, host, off) && off < |table|
    requires table[SlotOf(host, off, |table|)] != 0 && keys[table[SlotOf(host, off, |table|)] - 1] != host
    ensures Tried(table, keys, host, off + 1)
  {
  }

  /** A probe that has met no empty slot has a slot left to try. */
  lemma ProbeEnds(table: seq<nat>, keys: seq<string>, host: string, off: nat)
    requires TableOk(table, keys) && off < |table|
    requires Tried(table, keys, host, off + 1)
    ensures off + 1 < |table|
  {
    if off + 1 == |table| {
      forall p | 0 <= p < |table|
        ensures table[p] != 0
      {
        var j := EverySlotProbed(host, |table|, p);
      }
      FilledAll(table);
    }
  }

  lemma ProbeNext(table: seq<nat>, keys: seq<string>, host: string, off: nat)
    requires TableOk(table, keys) && off < |table| && Tried(table, keys, host, off)
    requires table[SlotOf(host, off, |table|)] != 0 && keys[table[SlotOf(host, off, |table|)] - 1] != host
    ensures off + 1 < |table| && (SlotOf(host, off, |table|) + 1) % |table| == SlotOf(host, off + 1, |table|)
    ensures Tried(table, keys, host, off + 1)
  {
    TryOne(table, keys, host, off);
    ProbeEnds(table, keys, host, off);
    NextSlot(host, off, |table|);
  }

  /** An empty slot at the end of the probe means the host is not there. */
  lemma ProbeMisses(table: seq<nat>, keys: seq<string>, host: string, off: nat)
    requires TableOk(table, keys) && off < |table| && table[SlotOf(host, off, |table|)] == 0
    requires Tried(table, keys, host, off)
    ensures host !in keys
  {
    forall k | 0 <= k < |keys|
      ensures keys[k] != host
    {
      var o :| Reached(table, keys[k], k, o);
    }
  }

  /** The probe of cookie_make_room: h is the slot of d's host, or the empty slot
      where it belongs. It always ends, because the table is never full. */
  method Probe(table: seq<nat>, hosts: seq<HostTally>, d: string, ghost keys: seq<string>)
    returns (h: nat, ghost off: nat)
    requires TableOk(table, keys) && |keys| == |hosts|
    requires forall k :: 0 <= k < |hosts| ==> SameDomain(hosts[k].dom, d) == (keys[k] == Canon(d))
    ensures off < |table| && h == SlotOf(Canon(d), off, |table|)
    ensures table[h] == 0 <==> Canon(d) !in keys
    ensures table[h] != 0 ==> table[h] <= |keys| && keys[table[h] - 1] == Canon(d)
    ensures forall j :: 0 <= j < off ==> table[SlotOf(Canon(d), j, |table|)] != 0
  {
    ghost var host := Canon(d);
    h := DomainHash(Canon(d)) % |table|;
    off := 0;
    while table[h] != 0 && !SameDomain(hosts[table[h] - 1].dom, d)
      invariant off < |table| && h == SlotOf(host, off, |table|) < |table|
      invariant Tried(table, keys, host, off)
      decreases |table| - off
    {
      ProbeNext(table, keys, host, off);
      h := (h + 1) % |table|;
      off := off + 1;
    }
    if table[h] == 0 {
      ProbeMisses(table, keys, host, off);
    }
  }

  // ---- the tally ----

  /** hosts and table after the first i records: the hosts met, in order, each
      with the count and bytes that a direct scan gives. */
  ghost predicate Tallied(d: Demand, i: nat, hosts: seq<HostTally>, table: seq<nat>) {
    && i <= |d.items| && |hosts| == |HostsOf(d, i)| && TableOk(table, HostsOf(d, i))
    && forall k :: 0 <= k < |hosts| ==> HostIs(d, i, hosts[k], HostsOf(d, i)[k])
  }

  ghost predicate HostIs(d: Demand, i: nat, h: HostTally, key: string)
    requires i <= |d.items|
  {
    && Canon(h.dom) == key && h.cur == 0 && h.end == 0
    && h.count == Count(d, {}, key, i) + (if key == d.setter then 1 else 0)
    && h.bytes == Bytes(d, {}, key, i) + (if key == d.setter then d.newLen else 0)
  }

  lemma HostIsNext(d: Demand, i: nat, h: HostTally, key: string)
    requires i < |d.items| && HostIs(d, i, h, key)
    ensures var item := d.items[i];
            HostIs(d, i + 1, if item.host == key then h.(count := h.count + 1, bytes := h.bytes + item.len) else h, key)
  {
  }

  lemma NewHostIs(d: Demand, i: nat, dom: string)
    requires i <= |d.items| && Canon(dom) !in HostsOf(d, i)
    ensures HostIs(d, i, HostTally(dom, 0, 0, 0, 0), Canon(dom))
  {
    NotCounted(d, Canon(dom), i);
  }

  lemma {:induction false} NotCounted(d: Demand, host: string, n: nat)
    requires n <= |d.items| && forall i :: 0 <= i < n ==> d.items[i].host != host
    ensures Count(d, {}, host, n) == 0 && Bytes(d, {}, host, n) == 0
  {
    if n > 0 {
      NotCounted(d, host, n - 1);
    }
  }

  /** Room in the table: twice the hosts there can be. */
  predicate Roomy(table: seq<nat>, n: nat) {
    |table| >= 2 * (n + 1)
  }

  /** The index of dom's host, added to hosts and table when it is new. */
  method FindOrAddHost(hosts: seq<HostTally>, table: seq<nat>, dom: string, ghost keys: seq<string>)
    returns (hosts': seq<HostTally>, table': seq<nat>, host: nat)
    requires TableOk(table, keys) && |keys| == |hosts| && |keys| + 1 < |table|
    requires forall k :: 0 <= k < |hosts| ==> Canon(hosts[k].dom) == keys[k]
    ensures hosts' == hosts + if Canon(dom) in keys then [] else [HostTally(dom, 0, 0, 0, 0)]
    ensures |table'| == |table| && TableOk(table', keys + if Canon(dom) in keys then [] else [Canon(dom)])
    ensures host < |hosts'| && Canon(hosts'[host].dom) == Canon(dom)
  {
    ghost var key := Canon(dom);
    hosts', table' := hosts, table;
    ghost var off;
    var h;
    h, off := Probe(table, hosts, dom, keys);
    if table[h] == 0 {
      TableInsert(table, keys, key, off);
      hosts' := hosts + [HostTally(dom, 0, 0, 0, 0)];
      table' := table[h := |hosts'|];
    } else {
      assert keys + [] == keys;
    }
    host := table'[h] - 1;
  }

  lemma AddedIs(d: Demand, i: nat, hosts: seq<HostTally>, dom: string, keys: seq<string>)
    requires i <= |d.items| && keys == HostsOf(d, i) && |hosts| == |keys|
    requires forall k :: 0 <= k < |hosts| ==> HostIs(d, i, hosts[k], keys[k])
    ensures var hosts' := hosts + if Canon(dom) in keys then [] else [HostTally(dom, 0, 0, 0, 0)];
            var keys' := keys + if Canon(dom) in keys then [] else [Canon(dom)];
            forall k :: 0 <= k < |hosts'| ==> HostIs(d, i, hosts'[k], keys'[k])
  {
    if Canon(dom) !in keys {
      NewHostIs(d, i, dom);
    }
  }

  function Charged(hosts: seq<HostTally>, host: nat, len: nat): seq<HostTally>
    requires host < |hosts|
  {
    hosts[host := hosts[host].(count := hosts[host].count + 1, bytes := hosts[host].bytes + len)]
  }

  lemma ChargedIs(d: Demand, i: nat, hosts: seq<HostTally>, keys: seq<string>, host: nat)
    requires i < |d.items| && |hosts| == |keys| && host < |keys| && keys[host] == d.items[i].host
    requires forall j, k :: 0 <= j < k < |keys| ==> keys[j] != keys[k]
    requires forall k :: 0 <= k < |hosts| ==> HostIs(d, i, hosts[k], keys[k])
    ensures forall k :: 0 <= k < |hosts| ==> HostIs(d, i + 1, Charged(hosts, host, d.items[i].len)[k], keys[k])
  {
    forall k | 0 <= k < |hosts|
      ensures HostIs(d, i + 1, Charged(hosts, host, d.items[i].len)[k], keys[k])
    {
      HostIsNext(d, i, hosts[k], keys[k]);
    }
  }

  /** Charge the i-th record to its host. */
  method ChargeHost(ghost d: Demand, ghost i: nat, hosts: seq<HostTally>, table: seq<nat>, dom: string, len: nat)
    returns (hosts': seq<HostTally>, table': seq<nat>, host: nat)
    requires Tallied(d, i, hosts, table) && i < |d.items| && Roomy(table, |d.items|)
    requires d.items[i].host == Canon(dom) && d.items[i].len == len
    ensures Tallied(d, i + 1, hosts', table') && |table'| == |table|
    ensures host < |hosts'| && HostsOf(d, i + 1)[host] == Canon(dom)
  {
    ghost var keys := HostsOf(d, i);
    hosts', table', host := FindOrAddHost(hosts, table, dom, keys);
    ghost var keys' := HostsOf(d, i + 1);
    assert keys' == keys + if Canon(dom) in keys then [] else [Canon(dom)];
    AddedIs(d, i, hosts, dom, keys);
    ChargedIs(d, i, hosts', keys', host);
    hosts' := Charged(hosts', host, len);
  }

  // ---- reading the jar ----

  /** What the plan reads of the record at `at`. */
  method ReadRecord(text: string, at: nat, ghost rs: seq<Rec>, ghost i: nat)
    returns (dom: string, path: string, name: string, next: nat)
    requires AllStorable(rs) && i < |rs| && text == Text(rs) && at == |Text(rs[..i])|
    ensures dom == rs[i].domain && path == rs[i].path && name == rs[i].name
    ensures next == |Text(rs[..i + 1])| == at + |Line(rs[i])| <= |text| && at < |text|
  {
    RecordAt(rs, i);
    RecordParts(rs, i);
    dom := CookieGet(text, at, 0);
    path := CookieGet(text, at, 2);
    name := CookieGet(text, at, 5);
    next := NextField(text, at);
  }

  lemma AtEnd(rs: seq<Rec>, i: nat)
    requires AllStorable(rs) && i <= |rs|
    ensures |Text(rs[..i])| <= |Text(rs)|
    ensures |Text(rs[..i])| < |Text(rs)| <==> i < |rs|
  {
    if i < |rs| {
      RecordAt(rs, i);
    } else {
      assert rs[..i] == rs;
    }
  }

  /** The number of records, counted as cookie_make_room does. */
  method CountRecords(text: string, ghost rs: seq<Rec>) returns (n: nat)
    requires AllStorable(rs) && text == Text(rs)
    ensures n == |rs|
  {
    n := 0;
    var a := 0;
    assert Lines(rs[..0]) == [];
    AtEnd(rs, 0);
    while a < |text|
      invariant n <= |rs| && a == |Text(rs[..n])| <= |text|
      invariant a < |text| <==> n < |rs|
      decreases |rs| - n
    {
      var _, _, _, next := ReadRecord(text, a, rs, n);
      a := next;
      n := n + 1;
      AtEnd(rs, n);
    }
  }
}
