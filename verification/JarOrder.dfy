/** The order the cookie jar keeps: longest path first, and within one path
    length the record stored last comes last. A record is told by its name, its
    domain without case or leading dot, and its path. */
module JarOrder {

  datatype Id = Id(name: string, domain: string, path: string)

  /** No identity twice, paths never grow, and equal lengths follow the stores. */
  ghost predicate Ordered(ids: seq<Id>, stamps: seq<nat>, clock: nat) {
    && |stamps| == |ids|
    && (forall i, j :: 0 <= i < j < |ids| ==> ids[i] != ids[j])
    && (forall i, j :: 0 <= i < j < |ids| ==> |ids[i].path| >= |ids[j].path|)
    && (forall i, j :: 0 <= i < j < |ids| && |ids[i].path| == |ids[j].path| ==> stamps[i] < stamps[j])
    && (forall i :: 0 <= i < |ids| ==> stamps[i] < clock)
  }

  /** Two places of an ordered list. */
  ghost predicate InOrder(ids: seq<Id>, stamps: seq<nat>, j: nat, k: nat)
    requires j < |ids| && k < |ids| == |stamps|
  {
    && ids[j] != ids[k] && |ids[j].path| >= |ids[k].path|
    && (|ids[j].path| == |ids[k].path| ==> stamps[j] < stamps[k])
  }

  lemma OrderedAll(ids: seq<Id>, stamps: seq<nat>, clock: nat)
    requires |stamps| == |ids| && forall i :: 0 <= i < |ids| ==> stamps[i] < clock
    requires forall j, k :: 0 <= j < k < |ids| ==> InOrder(ids, stamps, j, k)
    ensures Ordered(ids, stamps, clock)
  {
    forall j, k | 0 <= j < k < |ids|
      ensures ids[j] != ids[k] && |ids[j].path| >= |ids[k].path|
      ensures |ids[j].path| == |ids[k].path| ==> stamps[j] < stamps[k]
    {
      assert InOrder(ids, stamps, j, k);
    }
  }

  function Without<T>(xs: seq<T>, i: int): (ys: seq<T>)
    requires -1 <= i < |xs|
    ensures |ys| == |xs| - if i < 0 then 0 else 1
    ensures forall k :: 0 <= k < |ys| ==> ys[k] == xs[if i < 0 || k < i then k else k + 1]
  {
    if i < 0 then xs else xs[..i] + xs[i + 1..]
  }

  function InsertAt<T>(xs: seq<T>, p: nat, x: T): (ys: seq<T>)
    requires p <= |xs|
    ensures |ys| == |xs| + 1
    ensures forall k :: 0 <= k < |ys| ==> ys[k] == if k < p then xs[k] else if k == p then x else xs[k - 1]
  {
    xs[..p] + [x] + xs[p..]
  }

  /** The indices below n that are not in gone, in order. */
  function Survivors(n: nat, gone: set<nat>): (idx: seq<nat>)
    ensures forall k :: 0 <= k < |idx| ==> idx[k] < n && idx[k] !in gone
    ensures forall j, k :: 0 <= j < k < |idx| ==> idx[j] < idx[k]
    ensures forall i :: 0 <= i < n && i !in gone ==> i in idx
  {
    if n == 0 then []
    else Survivors(n - 1, gone) + if n - 1 in gone then [] else [n - 1]
  }

  /** xs without the places in gone: what is left keeps its order. */
  function Keep<T>(xs: seq<T>, gone: set<nat>): (kept: seq<T>)
    ensures |kept| == |Survivors(|xs|, gone)|
    ensures forall k :: 0 <= k < |kept| ==> kept[k] == xs[Survivors(|xs|, gone)[k]]
  {
    var idx := Survivors(|xs|, gone);
    seq(|idx|, k requires 0 <= k < |idx| => xs[idx[k]])
  }

  lemma KeepSnoc<T>(xs: seq<T>, x: T, gone: set<nat>)
    ensures Keep(xs + [x], gone) == Keep(xs, gone) + if |xs| in gone then [] else [x]
  {
  }

  lemma WithoutOrdered(ids: seq<Id>, stamps: seq<nat>, clock: nat, i: int)
    requires Ordered(ids, stamps, clock) && -1 <= i < |ids|
    ensures Ordered(Without(ids, i), Without(stamps, i), clock)
  {
    var left, at := Without(ids, i), Without(stamps, i);
    forall j, k | 0 <= j < k < |left|
      ensures left[j] != left[k] && |left[j].path| >= |left[k].path|
      ensures |left[j].path| == |left[k].path| ==> at[j] < at[k]
    {
      var j', k' := if i < 0 || j < i then j else j + 1, if i < 0 || k < i then k else k + 1;
      assert ids[j'] != ids[k'];
    }
  }

  lemma KeepOrdered(ids: seq<Id>, stamps: seq<nat>, clock: nat, gone: set<nat>)
    requires Ordered(ids, stamps, clock)
    ensures Ordered(Keep(ids, gone), Keep(stamps, gone), clock)
  {
    var idx := Survivors(|ids|, gone);
    var kept, at := Keep(ids, gone), Keep(stamps, gone);
    forall i, j | 0 <= i < j < |kept|
      ensures kept[i] != kept[j] && |kept[i].path| >= |kept[j].path|
      ensures |kept[i].path| == |kept[j].path| ==> at[i] < at[j]
    {
      assert idx[i] < idx[j];
    }
  }

  lemma LaterAreShorter(ids: seq<Id>, stamps: seq<nat>, clock: nat, p: nat, plen: nat)
    requires Ordered(ids, stamps, clock) && p < |ids| && |ids[p].path| < plen
    ensures forall i :: p <= i < |ids| ==> |ids[i].path| < plen
  {
    forall i | p < i < |ids|
      ensures |ids[i].path| < plen
    {
      assert |ids[p].path| >= |ids[i].path|;
    }
  }

  lemma InsertOrdered(ids: seq<Id>, stamps: seq<nat>, clock: nat, p: nat, id: Id)
    requires Ordered(ids, stamps, clock) && p <= |ids|
    requires forall i :: 0 <= i < |ids| ==> ids[i] != id
    requires forall i :: 0 <= i < p ==> |ids[i].path| >= |id.path|
    requires p < |ids| ==> |ids[p].path| < |id.path|
    ensures Ordered(InsertAt(ids, p, id), InsertAt(stamps, p, clock), clock + 1)
  {
    if p < |ids| {
      LaterAreShorter(ids, stamps, clock, p, |id.path|);
    }
    var now, at := InsertAt(ids, p, id), InsertAt(stamps, p, clock);
    forall j, k | 0 <= j < k < |now|
      ensures InOrder(now, at, j, k)
    {
      InsertedAt(ids, stamps, clock, p, id, j, k);
    }
    OrderedAll(now, at, clock + 1);
  }

  lemma InsertedAt(ids: seq<Id>, stamps: seq<nat>, clock: nat, p: nat, id: Id, j: nat, k: nat)
    requires Ordered(ids, stamps, clock) && p <= |ids| && j < k <= |ids|
    requires forall i :: 0 <= i < |ids| ==> ids[i] != id
    requires forall i :: 0 <= i < p ==> |ids[i].path| >= |id.path|
    requires forall i :: p <= i < |ids| ==> |ids[i].path| < |id.path|
    ensures InOrder(InsertAt(ids, p, id), InsertAt(stamps, p, clock), j, k)
  {
    if j != p && k != p {
      assert ids[if j < p then j else j - 1] != ids[if k < p then k else k - 1];
    }
  }
}
