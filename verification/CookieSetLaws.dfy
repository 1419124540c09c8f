/** What a set and a removal make of the jar, told on its records: which are left, and
    where the new one goes. */
module CookieSetLaws {
  import opened CText
  import opened CookieText
  import opened EvictionPlan
  import opened JarOrder
  import opened CookieStore
  import opened CookieStoreLaws

  // ---- one domain ----

  /** Two domains are one when they are spelt alike, case and one leading dot aside. */
  lemma SameDomainExactly(a: string, b: string)
    ensures var bareA := if a != "" && a[0] == '.' then a[1..] else a;
            var bareB := if b != "" && b[0] == '.' then b[1..] else b;
            Canon(a) == Canon(b) <==> SameLetters(bareA, bareB)
  {
    FoldsExactly(StripDot(a), StripDot(b));
  }

  // ---- the records that are left ----

  /** The records of another identity, in order. */
  function Others(rs: seq<Rec>, id: Id): seq<Rec> {
    if rs == [] then [] else (if IdOf(rs[0]) == id then [] else [rs[0]]) + Others(rs[1..], id)
  }

  /** Of them, those at places that are not in gone. */
  function Left(rs: seq<Rec>, id: Id, gone: set<nat>): seq<Rec> {
    if rs == [] then [] else
    var n := |rs| - 1;
    Left(rs[..n], id, gone) + if n in gone || IdOf(rs[n]) == id then [] else [rs[n]]
  }

  lemma {:induction false} OthersConcat(a: seq<Rec>, b: seq<Rec>, id: Id)
    ensures Others(a + b, id) == Others(a, id) + Others(b, id)
  {
    if a == [] {
      assert a + b == b;
    } else {
      OthersConcat(a[1..], b, id);
      OthersFirst(a, b, id);
    }
  }

  lemma OthersFirst(a: seq<Rec>, b: seq<Rec>, id: Id)
    requires a != []
    ensures Others(a + b, id) == (if IdOf(a[0]) == id then [] else [a[0]]) + Others(a[1..] + b, id)
  {
    assert (a + b)[1..] == a[1..] + b;
  }

  lemma OthersOne(r: Rec, id: Id)
    ensures Others([r], id) == if IdOf(r) == id then [] else [r]
  {
    assert [r][1..] == [];
  }

  lemma {:induction false} OthersAll(rs: seq<Rec>, id: Id)
    requires forall i :: 0 <= i < |rs| ==> IdOf(rs[i]) != id
    ensures Others(rs, id) == rs
  {
    if rs != [] {
      OthersAll(rs[1..], id);
    }
  }

  /** The only record of an identity dropped, its others are left. */
  lemma OthersWithout(rs: seq<Rec>, id: Id, i: nat)
    requires i < |rs| && IdOf(rs[i]) == id
    ensures Others(Without(rs, i), id) == Others(rs, id)
  {
    assert rs == rs[..i] + ([rs[i]] + rs[i + 1..]);
    OthersConcat(rs[..i], [rs[i]] + rs[i + 1..], id);
    OthersConcat([rs[i]], rs[i + 1..], id);
    OthersOne(rs[i], id);
    OthersConcat(rs[..i], rs[i + 1..], id);
  }

  lemma {:induction false} LeftIsOthers(rs: seq<Rec>, id: Id, gone: set<nat>)
    ensures Others(Keep(rs, gone), id) == Left(rs, id, gone)
  {
    if rs != [] {
      var n := |rs| - 1;
      LeftIsOthers(rs[..n], id, gone);
      KeptLast(rs, id, gone);
    }
  }

  lemma KeptLast(rs: seq<Rec>, id: Id, gone: set<nat>)
    requires rs != []
    ensures var n := |rs| - 1;
            Others(Keep(rs, gone), id)
            == Others(Keep(rs[..n], gone), id) + if n in gone || IdOf(rs[n]) == id then [] else [rs[n]]
  {
    var n := |rs| - 1;
    KeepLast(rs, gone);
    if n !in gone {
      OthersConcat(Keep(rs[..n], gone), [rs[n]], id);
      OthersOne(rs[n], id);
    }
  }

  lemma KeepLast(rs: seq<Rec>, gone: set<nat>)
    requires rs != []
    ensures var n := |rs| - 1;
            Keep(rs, gone) == if n in gone then Keep(rs[..n], gone) else Keep(rs[..n], gone) + [rs[n]]
  {
    var n := |rs| - 1;
    assert rs == rs[..n] + [rs[n]];
    KeepSnoc(rs[..n], rs[n], gone);
    assert Keep(rs[..n], gone) + [] == Keep(rs[..n], gone);
  }

  // ---- a removal ----

  /** All records of another identity stay, in order, and no other does. */
  lemma RemoveExactly(s: JarState, maxLen: nat, name: string, domain: string, path: string)
    requires JarOk(s, maxLen)
    ensures Remove(s, name, domain, path).recs == Others(s.recs, Id(name, Canon(domain), path))
  {
    var id, i := Id(name, Canon(domain), path), FindExact(s.recs, name, domain, path);
    RemoveIsGone(s, maxLen, name, domain, path);
    OthersAll(Remove(s, name, domain, path).recs, id);
    if i >= 0 {
      OthersWithout(s.recs, id, i);
    }
  }

  // ---- a set ----

  /** The new record stands among those that are left, before the first shorter path. */
  ghost predicate IsPlaced(left: seq<Rec>, r: Rec, now: seq<Rec>) {
    exists p :: PlacedAt(left, r, now, p)
  }

  predicate PlacedAt(left: seq<Rec>, r: Rec, now: seq<Rec>, p: nat) {
    && p <= |left| && now == left[..p] + [r] + left[p..]
    && (forall i :: 0 <= i < p ==> |left[i].path| >= |r.path|)
    && (p < |left| ==> |left[p].path| < |r.path|)
  }

  lemma StoreExactly(s: JarState, maxLen: nat, r: Rec)
    requires JarOk(s, maxLen)
    ensures IsPlaced(Others(s.recs, IdOf(r)), r, Store(s, r).recs)
  {
    RemoveExactly(s, maxLen, r.name, r.domain, r.path);
    var left := Others(s.recs, IdOf(r));
    assert PlacedAt(left, r, Store(s, r).recs, Place(left, |r.path|));
  }

  /** Does r fit beside the others? */
  predicate FitsBeside(rs: seq<Rec>, maxLen: nat, r: Rec) {
    |Text(Others(rs, IdOf(r)))| + |r.value| + |r.name| + |r.domain| + |r.path| + 256 <= maxLen
  }

  lemma RoomExactly(s: JarState, maxLen: nat, r: Rec)
    requires JarOk(s, maxLen)
    ensures HasRoom(s.recs, maxLen, r) <==> FitsBeside(s.recs, maxLen, r)
  {
    var i := FindExact(s.recs, r.name, r.domain, r.path);
    RemoveExactly(s, maxLen, r.name, r.domain, r.path);
    if i >= 0 {
      TextDrop(s.recs, i);
    }
  }

  /** cookie_set stores a record exactly when it fits beside those of another identity.
      These then stay, all of them and in order, with the new one in its place. */
  lemma SetExactly(s: JarState, maxLen: nat, r: Rec)
    requires JarOk(s, maxLen)
    ensures SetPlain(s, maxLen, r).Some? <==> Storable(r) && FitsBeside(s.recs, maxLen, r)
    ensures SetPlain(s, maxLen, r).Some? ==>
              IsPlaced(Others(s.recs, IdOf(r)), r, SetPlain(s, maxLen, r).value.recs)
  {
    RoomExactly(s, maxLen, r);
    StoreExactly(s, maxLen, r);
  }

  /** cookie_set_capped does the same when the record fits. Otherwise it stores it
      exactly when there is a plan, and the records it evicts are gone too. */
  lemma SetCappedExactly(s: JarState, maxLen: nat, r: Rec)
    requires JarOk(s, maxLen)
    ensures FitsBeside(s.recs, maxLen, r) ==> SetCapped(s, maxLen, r) == SetPlain(s, maxLen, r)
    ensures !FitsBeside(s.recs, maxLen, r) ==>
              (SetCapped(s, maxLen, r).Some?
               <==> Storable(r) && Need(r) <= maxLen && Plan(DemandOf(s.recs, maxLen, r)).Some?)
    ensures !FitsBeside(s.recs, maxLen, r) && SetCapped(s, maxLen, r).Some? ==>
              var gone := SetOf(Plan(DemandOf(s.recs, maxLen, r)).value);
              IsPlaced(Left(s.recs, IdOf(r), gone), r, SetCapped(s, maxLen, r).value.recs)
  {
    RoomExactly(s, maxLen, r);
    if Need(r) <= maxLen {
      match Plan(DemandOf(s.recs, maxLen, r))
      case None =>
      case Some(victims) => EvictedExactly(s, maxLen, r, SetOf(victims));
    }
  }

  lemma EvictedExactly(s: JarState, maxLen: nat, r: Rec, gone: set<nat>)
    requires JarOk(s, maxLen)
    ensures IsPlaced(Left(s.recs, IdOf(r), gone), r, Store(Evict(s, gone), r).recs)
  {
    EvictKeeps(s, maxLen, gone);
    LeftIsOthers(s.recs, IdOf(r), gone);
    StoreExactly(Evict(s, gone), maxLen, r);
  }

  // ---- every run ----

  /** The operation is refused and changes nothing, or it leaves exactly the records it
      should, its own in its place. */
  ghost predicate IsDone(was: seq<Rec>, maxLen: nat, op: Op, now: seq<Rec>) {
    match op
    case SetOp(r) =>
      if Storable(r) && FitsBeside(was, maxLen, r) then IsPlaced(Others(was, IdOf(r)), r, now) else now == was
    case SetCappedOp(r) => now == was || exists gone: set<nat> :: IsPlaced(Left(was, IdOf(r), gone), r, now)
    case RemoveOp(name, domain, path) => now == Others(was, Id(name, Canon(domain), path))
  }

  /** So it is for every operation of every run. */
  lemma RunStep(maxLen: nat, ops: seq<Op>, op: Op)
    requires 0 < maxLen
    ensures IsDone(Run(maxLen, ops).recs, maxLen, op, Run(maxLen, ops + [op]).recs)
  {
    var s := Run(maxLen, ops);
    RunOk(maxLen, ops);
    assert (ops + [op])[..|ops|] == ops;
    match op
    case SetOp(r) => SetExactly(s, maxLen, r);
    case SetCappedOp(r) =>
      SetCappedExactly(s, maxLen, r);
      SetExactly(s, maxLen, r);
      LeftOfAll(s.recs, IdOf(r));
    case RemoveOp(name, domain, path) => RemoveExactly(s, maxLen, name, domain, path);
  }

  lemma LeftOfAll(rs: seq<Rec>, id: Id)
    ensures Left(rs, id, {}) == Others(rs, id)
  {
    KeepNone(rs);
    LeftIsOthers(rs, id, {});
  }
}
