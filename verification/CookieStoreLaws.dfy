/** What the jar's operations keep, in every run. */
module CookieStoreLaws {
  import opened CText
  import opened CookieText
  import opened Wrappers
  import opened EvictionPlan
  import opened EvictionLaws
  import opened JarOrder
  import opened CookieStore

  // ---- the bytes a jar holds ----

  lemma TextDrop(rs: seq<Rec>, i: nat)
    requires i < |rs|
    ensures |Text(Without(rs, i))| == |Text(rs)| - |Line(rs[i])|
    ensures Text(Without(rs, i)) == Text(rs[..i]) + Text(rs[i + 1..])
  {
    TextSplit(rs, i);
    TextConcat(rs[..i], rs[i + 1..]);
  }

  lemma TextInsert(rs: seq<Rec>, p: nat, r: Rec)
    requires p <= |rs|
    ensures |Text(InsertAt(rs, p, r))| == |Text(rs)| + |Line(r)|
    ensures Text(InsertAt(rs, p, r)) == Text(rs[..p]) + Line(r) + Text(rs[p..])
  {
    var out := InsertAt(rs, p, r);
    TextSplit(out, p);
    assert out[..p] == rs[..p] && out[p + 1..] == rs[p..];
    TextConcat(rs[..p], rs[p..]);
    assert rs == rs[..p] + rs[p..];
  }

  // ---- one operation ----

  lemma DropKeeps(s: JarState, maxLen: nat, i: int)
    requires JarOk(s, maxLen) && -1 <= i < |s.recs|
    ensures JarOk(Drop(s, i), maxLen)
  {
    WithoutOrdered(Ids(s.recs), s.stamps, s.clock, i);
    assert Ids(Without(s.recs, i)) == Without(Ids(s.recs), i);
    if i >= 0 {
      TextDrop(s.recs, i);
    }
  }

  /** Once the found record is dropped none of that name, domain and path is left. */
  lemma RemoveIsGone(s: JarState, maxLen: nat, name: string, domain: string, path: string)
    requires JarOk(s, maxLen)
    ensures FindExact(Remove(s, name, domain, path).recs, name, domain, path) == -1
    ensures forall i :: 0 <= i < |Remove(s, name, domain, path).recs| ==>
              IdOf(Remove(s, name, domain, path).recs[i]) != Id(name, Canon(domain), path)
  {
    var rs, i := s.recs, FindExact(s.recs, name, domain, path);
    var left := Without(rs, i);
    assert i >= 0 ==> Ids(rs)[i] == Id(name, Canon(domain), path);
    forall j | 0 <= j < |left|
      ensures IdOf(left[j]) != Id(name, Canon(domain), path)
    {
      if i >= 0 {
        var k := if j < i then j else j + 1;
        assert Ids(rs)[k] == IdOf(left[j]);
      }
    }
  }

  lemma StoreKeeps(s: JarState, maxLen: nat, r: Rec)
    requires JarOk(s, maxLen) && Storable(r) && HasRoom(s.recs, maxLen, r)
    ensures JarOk(Store(s, r), maxLen)
  {
    var i := FindExact(s.recs, r.name, r.domain, r.path);
    var base := Remove(s, r.name, r.domain, r.path);
    DropKeeps(s, maxLen, i);
    RemoveIsGone(s, maxLen, r.name, r.domain, r.path);
    if i >= 0 {
      TextDrop(s.recs, i);
    }
    InsertKeeps(base, maxLen, r);
  }

  lemma InsertFits(rs: seq<Rec>, p: nat, maxLen: nat, r: Rec)
    requires p <= |rs| && Need(r) <= maxLen && |Text(rs)| <= maxLen - Need(r)
    ensures |Text(InsertAt(rs, p, r))| < maxLen
  {
    TextInsert(rs, p, r);
    LineFits(r);
  }

  lemma InsertStorable(rs: seq<Rec>, p: nat, r: Rec)
    requires p <= |rs| && AllStorable(rs) && Storable(r)
    ensures AllStorable(InsertAt(rs, p, r))
  {
  }

  lemma InsertInOrder(s: JarState, p: nat, r: Rec)
    requires Ordered(Ids(s.recs), s.stamps, s.clock)
    requires p <= |s.recs| && (p < |s.recs| ==> |s.recs[p].path| < |r.path|)
    requires forall i :: 0 <= i < p ==> |s.recs[i].path| >= |r.path|
    requires forall i :: 0 <= i < |s.recs| ==> IdOf(s.recs[i]) != IdOf(r)
    ensures Ordered(Ids(InsertAt(s.recs, p, r)), InsertAt(s.stamps, p, s.clock), s.clock + 1)
  {
    var ids := Ids(s.recs);
    InsertOrdered(ids, s.stamps, s.clock, p, IdOf(r));
    InsertIds(s.recs, p, r);
  }

  lemma InsertIds(rs: seq<Rec>, p: nat, r: Rec)
    requires p <= |rs|
    ensures Ids(InsertAt(rs, p, r)) == InsertAt(Ids(rs), p, IdOf(r))
  {
    assert |Ids(InsertAt(rs, p, r))| == |InsertAt(Ids(rs), p, IdOf(r))|;
  }

  lemma InsertKeeps(s: JarState, maxLen: nat, r: Rec)
    requires JarOk(s, maxLen) && Storable(r) && Need(r) <= maxLen && |Text(s.recs)| <= maxLen - Need(r)
    requires forall i :: 0 <= i < |s.recs| ==> IdOf(s.recs[i]) != IdOf(r)
    ensures JarOk(Insert(s, r), maxLen)
  {
    var p := Place(s.recs, |r.path|);
    InsertInOrder(s, p, r);
    InsertFits(s.recs, p, maxLen, r);
    InsertStorable(s.recs, p, r);
  }

  // ---- eviction ----

  lemma EvictKeeps(s: JarState, maxLen: nat, gone: set<nat>)
    requires JarOk(s, maxLen)
    ensures JarOk(Evict(s, gone), maxLen)
  {
    KeepOrdered(Ids(s.recs), s.stamps, s.clock, gone);
    assert Ids(Keep(s.recs, gone)) == Keep(Ids(s.recs), gone);
    KeepLength(s.recs, gone);
  }

  lemma {:induction false} KeepLength(rs: seq<Rec>, gone: set<nat>)
    ensures |Text(Keep(rs, gone))| <= |Text(rs)|
  {
    if rs != [] {
      var n := |rs| - 1;
      KeepLength(rs[..n], gone);
      KeepText(rs, n, gone);
      TextSplit(rs, n);
      assert rs[..n + 1] == rs;
    }
  }

  lemma KeepText(rs: seq<Rec>, n: nat, gone: set<nat>)
    requires n < |rs|
    ensures Text(Keep(rs[..n + 1], gone)) == Text(Keep(rs[..n], gone)) + if n in gone then "" else Line(rs[n])
  {
    assert rs[..n + 1] == rs[..n] + [rs[n]];
    KeepSnoc(rs[..n], rs[n], gone);
    if n in gone {
      assert Keep(rs[..n + 1], gone) == Keep(rs[..n], gone);
    } else {
      TextConcat(Keep(rs[..n], gone), [rs[n]]);
      TextOne(rs[n]);
    }
  }

  lemma TextOne(r: Rec)
    ensures Text([r]) == Line(r)
  {
    assert Lines([r]) == [Line(r)];
    assert Cat([Line(r)]) == Line(r) + Cat([]);
  }

  /** The bytes of the places below n that are not in gone. */
  function Weight(items: seq<Item>, gone: set<nat>, n: nat): nat
    requires n <= |items|
  {
    if n == 0 then 0
    else Weight(items, gone, n - 1) + if n - 1 in gone then 0 else items[n - 1].len
  }

  lemma KeepStep(rs: seq<Rec>, n: nat, gone: set<nat>, items: seq<Item>)
    requires n < |rs| && items == Items(rs)
    ensures |items| == |rs|
    ensures |Text(Keep(rs[..n + 1], gone))|
         == |Text(Keep(rs[..n], gone))| + if n in gone then 0 else items[n].len
  {
    KeepText(rs, n, gone);
  }

  lemma {:induction false} StepsAreWeight(f: seq<nat>, items: seq<Item>, gone: set<nat>, n: nat)
    requires n <= |items| && |f| == |items| + 1 && f[0] == 0
    requires forall k :: 0 <= k < |items| ==> f[k + 1] == f[k] + if k in gone then 0 else items[k].len
    ensures f[n] == Weight(items, gone, n)
  {
    if n > 0 {
      StepsAreWeight(f, items, gone, n - 1);
      assert f[n - 1 + 1] == f[n];
    }
  }

  lemma TextWeight(rs: seq<Rec>, gone: set<nat>, items: seq<Item>)
    requires items == Items(rs)
    ensures |Text(Keep(rs, gone))| == Weight(items, gone, |items|)
  {
    var f: seq<nat> := seq(|rs| + 1, k requires 0 <= k <= |rs| => |Text(Keep(rs[..k], gone))|);
    forall k | 0 <= k < |items|
      ensures f[k + 1] == f[k] + if k in gone then 0 else items[k].len
    {
      KeepStep(rs, k, gone, items);
    }
    KeepNothing(rs[..0], gone);
    StepsAreWeight(f, items, gone, |rs|);
    assert rs[..|rs|] == rs;
  }

  lemma KeepNothing(rs: seq<Rec>, gone: set<nat>)
    requires rs == []
    ensures Text(Keep(rs, gone)) == ""
  {
    assert Lines(Keep(rs, gone)) == [];
  }

  lemma {:induction false} UsedWeight(d: Demand, gone: set<nat>, n: nat)
    requires n <= |d.items| && d.self !in gone
    ensures Weight(d.items, gone, n) == UsedBy(d, gone, n) + if 0 <= d.self < n then d.items[d.self].len else 0
  {
    if n > 0 {
      UsedWeight(d, gone, n - 1);
    }
  }

  /** The tally of what is left is the length of the text that is left, the
      replaced record aside. */
  lemma UsedIsText(d: Demand, rs: seq<Rec>, gone: set<nat>)
    requires d.items == Items(rs) && -1 <= d.self < |rs| && d.self !in gone
    ensures |Text(Keep(rs, gone))|
         == UsedBy(d, gone, |rs|) + if 0 <= d.self then |Line(rs[d.self])| else 0
  {
    TextWeight(rs, gone, d.items);
    UsedWeight(d, gone, |rs|);
  }

  lemma KeepNone<T>(xs: seq<T>)
    ensures Keep(xs, {}) == xs
  {
    if xs != [] {
      var n := |xs| - 1;
      KeepNone(xs[..n]);
      assert xs == xs[..n] + [xs[n]];
      KeepSnoc(xs[..n], xs[n], {});
    }
  }

  lemma {:induction false} FindExactIs(rs: seq<Rec>, name: string, domain: string, path: string, i: int)
    requires -1 <= i < |rs|
    requires i >= 0 ==> IsSelf(rs[i], name, domain, path)
    requires forall j :: 0 <= j < |rs| && j != i ==> !IsSelf(rs[j], name, domain, path)
    ensures FindExact(rs, name, domain, path) == i
  {
  }

  /** Eviction keeps the replaced record, and finds it again. */
  lemma EvictKeepsSelf(s: JarState, maxLen: nat, r: Rec, gone: set<nat>)
    requires JarOk(s, maxLen) && FindExact(s.recs, r.name, r.domain, r.path) !in gone
    ensures var self := FindExact(s.recs, r.name, r.domain, r.path);
            var again := FindExact(Keep(s.recs, gone), r.name, r.domain, r.path);
            if self < 0 then again == -1
            else again >= 0 && Keep(s.recs, gone)[again] == s.recs[self]
  {
    var rs, ids, kept := s.recs, Ids(s.recs), Keep(s.recs, gone);
    var idx := Survivors(|rs|, gone);
    var self := FindExact(rs, r.name, r.domain, r.path);
    var at := if self < 0 then -1 else var k :| 0 <= k < |idx| && idx[k] == self; k;
    forall j | 0 <= j < |kept| && j != at
      ensures !IsSelf(kept[j], r.name, r.domain, r.path)
    {
      assert kept[j] == rs[idx[j]];
      if self >= 0 {
        assert idx[j] != self;
        assert ids[idx[j]] != ids[self];
      }
    }
    FindExactIs(kept, r.name, r.domain, r.path, at);
  }

  /** Whenever the eviction plan succeeds, the room test that follows passes. */
  lemma PlanGivesRoom(s: JarState, maxLen: nat, r: Rec, victims: seq<nat>)
    requires JarOk(s, maxLen) && Need(r) <= maxLen
    requires Plan(DemandOf(s.recs, maxLen, r)) == Some(victims)
    ensures HasRoom(Evict(s, SetOf(victims)).recs, maxLen, r)
  {
    var d, gone := DemandOf(s.recs, maxLen, r), SetOf(victims);
    PlanExact(d, victims);
    VictimsDistinct(d, victims);
    assert FindExact(s.recs, r.name, r.domain, r.path) !in gone;
    UsedIsText(d, s.recs, gone);
    EvictKeepsSelf(s, maxLen, r, gone);
  }

  // ---- every run ----

  lemma ApplyKeeps(s: JarState, maxLen: nat, op: Op)
    requires JarOk(s, maxLen)
    ensures JarOk(Apply(s, maxLen, op), maxLen)
  {
    match op
    case SetOp(r) =>
      if SetPlain(s, maxLen, r).Some? {
        StoreKeeps(s, maxLen, r);
      }
    case SetCappedOp(r) => SetCappedKeeps(s, maxLen, r);
    case RemoveOp(name, domain, path) =>
      DropKeeps(s, maxLen, FindExact(s.recs, name, domain, path));
  }

  lemma SetCappedKeeps(s: JarState, maxLen: nat, r: Rec)
    requires JarOk(s, maxLen)
    ensures SetCapped(s, maxLen, r).Some? ==> JarOk(SetCapped(s, maxLen, r).value, maxLen)
  {
    if Storable(r) && Need(r) <= maxLen {
      if HasRoom(s.recs, maxLen, r) {
        StoreKeeps(s, maxLen, r);
      } else {
        match Plan(DemandOf(s.recs, maxLen, r))
        case None =>
        case Some(victims) =>
          PlanGivesRoom(s, maxLen, r, victims);
          EvictKeeps(s, maxLen, SetOf(victims));
          StoreKeeps(Evict(s, SetOf(victims)), maxLen, r);
      }
    }
  }

  /** Every jar reached from the empty one: its text stays below max_len, no two
      records share name, domain and path, and the order is by path length, then
      by last store. */
  lemma {:induction false} RunOk(maxLen: nat, ops: seq<Op>)
    requires 0 < maxLen
    ensures JarOk(Run(maxLen, ops), maxLen)
  {
    if ops == [] {
      assert Lines([]) == [];
    } else {
      RunOk(maxLen, ops[..|ops| - 1]);
      ApplyKeeps(Run(maxLen, ops[..|ops| - 1]), maxLen, ops[|ops| - 1]);
    }
  }

  /** In every reachable jar cookie_get reads on each line exactly the fields
      that were stored. */
  lemma RunReadsBack(maxLen: nat, ops: seq<Op>, i: nat, k: nat)
    requires 0 < maxLen && i < |Run(maxLen, ops).recs|
    ensures var rs := Run(maxLen, ops).recs;
            && |Text(rs[..i])| <= |Text(rs)|
            && CookieGet(Text(rs), |Text(rs[..i])|, k) == if k < |Fields(rs[i])| then Fields(rs[i])[k] else ""
  {
    RunOk(maxLen, ops);
    RecordAt(Run(maxLen, ops).recs, i);
  }
}
