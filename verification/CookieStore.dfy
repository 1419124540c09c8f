/** The cookie jar as an ordered list of records, with a ghost clock that counts
    the stores: what cookie_set, cookie_set_capped and cookie_remove do to it,
    and what they keep. */
module CookieStore {
  import opened CText
  import opened CookieText
  import opened Wrappers
  import opened EvictionPlan
  import opened JarOrder

  // ---- which record is which ----

  /** A domain as cookie_same_domain sees it: no case, no leading dot. */
  function Canon(domain: string): string {
    Fold(StripDot(domain))
  }

  predicate SameDomain(a: string, b: string) {
    Canon(a) == Canon(b)
  }

  function IdOf(r: Rec): Id {
    Id(r.name, Canon(r.domain), r.path)
  }

  /** cookie_is_self: is r the record of this name, domain and path? */
  predicate IsSelf(r: Rec, name: string, domain: string, path: string) {
    r.name == name && SameDomain(r.domain, domain) && r.path == path
  }

  /** The first true, or -1. */
  function First(ok: seq<bool>): (i: int)
    ensures -1 <= i < |ok|
    ensures i >= 0 ==> ok[i]
    ensures forall j :: 0 <= j < (if i < 0 then |ok| else i) ==> !ok[j]
  {
    if ok == [] then -1
    else if ok[0] then 0
    else
      var i := First(ok[1..]);
      if i < 0 then -1 else i + 1
  }

  function Matches(rs: seq<Rec>, name: string, domain: string, path: string): (ok: seq<bool>)
    ensures |ok| == |rs|
    ensures forall i :: 0 <= i < |rs| ==> ok[i] == IsSelf(rs[i], name, domain, path)
  {
    seq(|rs|, i requires 0 <= i < |rs| => IsSelf(rs[i], name, domain, path))
  }

  /** The first record cookie_find_exact accepts, or -1. */
  function FindExact(rs: seq<Rec>, name: string, domain: string, path: string): (i: int)
    ensures -1 <= i < |rs|
    ensures i >= 0 ==> IsSelf(rs[i], name, domain, path)
    ensures forall j :: 0 <= j < (if i < 0 then |rs| else i) ==> !IsSelf(rs[j], name, domain, path)
  {
    First(Matches(rs, name, domain, path))
  }

  // ---- the jar ----

  /** The records in jar order, when each was stored, and the number of stores so
      far. The code keeps the records alone. */
  datatype JarState = JarState(recs: seq<Rec>, stamps: seq<nat>, clock: nat)

  const EMPTY_JAR := JarState([], [], 0)

  function Ids(rs: seq<Rec>): (ids: seq<Id>)
    ensures |ids| == |rs|
    ensures forall i :: 0 <= i < |rs| ==> ids[i] == IdOf(rs[i])
  {
    seq(|rs|, i requires 0 <= i < |rs| => IdOf(rs[i]))
  }

  /** What every reachable jar of max_len bytes satisfies. */
  ghost predicate JarOk(s: JarState, maxLen: nat) {
    && AllStorable(s.recs)
    && |Text(s.recs)| < maxLen
    && Ordered(Ids(s.recs), s.stamps, s.clock)
  }

  function Drop(s: JarState, i: int): (t: JarState)
    requires -1 <= i < |s.recs| == |s.stamps|
    ensures |t.recs| == |t.stamps|
  {
    s.(recs := Without(s.recs, i), stamps := Without(s.stamps, i))
  }

  /** Where a path of plen bytes goes: before the first shorter one. */
  function Place(rs: seq<Rec>, plen: nat): (p: nat)
    ensures p <= |rs|
    ensures forall i :: 0 <= i < p ==> |rs[i].path| >= plen
    ensures p < |rs| ==> |rs[p].path| < plen
  {
    if rs == [] || |rs[0].path| < plen then 0 else 1 + Place(rs[1..], plen)
  }

  /** Put r in its place, the replaced record being gone. */
  function Insert(s: JarState, r: Rec): (t: JarState)
    requires |s.recs| == |s.stamps|
    ensures |t.recs| == |t.stamps|
  {
    var p := Place(s.recs, |r.path|);
    JarState(InsertAt(s.recs, p, r), InsertAt(s.stamps, p, s.clock), s.clock + 1)
  }

  function Remove(s: JarState, name: string, domain: string, path: string): (t: JarState)
    requires |s.recs| == |s.stamps|
    ensures |t.recs| == |t.stamps|
  {
    Drop(s, FindExact(s.recs, name, domain, path))
  }

  /** Replace the record of r's name, domain and path, if any, by r in its place. */
  function Store(s: JarState, r: Rec): (t: JarState)
    requires |s.recs| == |s.stamps|
    ensures |t.recs| == |t.stamps|
  {
    Insert(Remove(s, r.name, r.domain, r.path), r)
  }

  // ---- room ----

  function Need(r: Rec): nat {
    |r.value| + |r.name| + |r.domain| + |r.path| + COOKIE_HEADROOM
  }

  /** cookie_fits, and the room test of cookie_set: the replaced record counts free. */
  predicate HasRoom(rs: seq<Rec>, maxLen: nat, r: Rec) {
    var prior := FindExact(rs, r.name, r.domain, r.path);
    && Need(r) <= maxLen
    && |Text(rs)| - (if prior < 0 then 0 else |Line(rs[prior])|) <= maxLen - Need(r)
  }

  function ItemOf(r: Rec): Item {
    Item(Canon(r.domain), |Line(r)|, |r.path|)
  }

  function Items(rs: seq<Rec>): (items: seq<Item>)
    ensures |items| == |rs|
    ensures forall i :: 0 <= i < |rs| ==> items[i] == ItemOf(rs[i])
  {
    seq(|rs|, i requires 0 <= i < |rs| => ItemOf(rs[i]))
  }

  function DemandOf(rs: seq<Rec>, maxLen: nat, r: Rec): Demand
    requires Need(r) <= maxLen
  {
    Demand(Items(rs), Canon(r.domain), Need(r) - COOKIE_HEADROOM,
           FindExact(rs, r.name, r.domain, r.path), maxLen - Need(r))
  }

  function Evict(s: JarState, gone: set<nat>): (t: JarState)
    requires |s.recs| == |s.stamps|
    ensures |t.recs| == |t.stamps|
  {
    s.(recs := Keep(s.recs, gone), stamps := Keep(s.stamps, gone))
  }

  // ---- the operations ----

  datatype Op =
    | SetOp(rec: Rec)
    | SetCappedOp(rec: Rec)
    | RemoveOp(name: string, domain: string, path: string)

  /** cookie_set: None is a refusal. */
  function SetPlain(s: JarState, maxLen: nat, r: Rec): (t: Option<JarState>)
    requires |s.recs| == |s.stamps|
    ensures t.Some? ==> |t.value.recs| == |t.value.stamps|
  {
    if Storable(r) && HasRoom(s.recs, maxLen, r) then Some(Store(s, r)) else None
  }

  /** cookie_set_capped. */
  function SetCapped(s: JarState, maxLen: nat, r: Rec): (t: Option<JarState>)
    requires |s.recs| == |s.stamps|
    ensures t.Some? ==> |t.value.recs| == |t.value.stamps|
  {
    if !Storable(r) || Need(r) > maxLen then None
    else if HasRoom(s.recs, maxLen, r) then Some(Store(s, r))
    else match Plan(DemandOf(s.recs, maxLen, r))
         case None => None
         case Some(victims) => Some(Store(Evict(s, SetOf(victims)), r))
  }

  /** A refused operation leaves the jar as it was. */
  function Apply(s: JarState, maxLen: nat, op: Op): (t: JarState)
    requires |s.recs| == |s.stamps|
    ensures |t.recs| == |t.stamps|
  {
    match op
    case SetOp(r) => SetPlain(s, maxLen, r).GetOr(s)
    case SetCappedOp(r) => SetCapped(s, maxLen, r).GetOr(s)
    case RemoveOp(name, domain, path) => Remove(s, name, domain, path)
  }

  function Run(maxLen: nat, ops: seq<Op>): (t: JarState)
    ensures |t.recs| == |t.stamps|
  {
    if ops == [] then EMPTY_JAR else Apply(Run(maxLen, ops[..|ops| - 1]), maxLen, ops[|ops| - 1])
  }
}
