/** Login bundles once loaded: which are merged, what a merged group shares, and
    what a request gets from them. */
module Bundles {
  import opened Wrappers
  import opened Scope
  import opened UnionFind

  /** A bundle, as hts_bundle_load_all leaves it. `home` are the entries its own
      URLs give, and `scope` the hosts it covers. */
  datatype Bundle = Bundle(scope: seq<string>, home: seq<string>, ua: Option<string>, headers: string, httpsOnly: bool)

  predicate InScope(b: Bundle, host: string) {
    ListCovers(b.scope, host)
  }

  predicate ScopesOverlap(a: Bundle, b: Bundle) {
    ListsOverlap(a.scope, b.scope)
  }

  predicate HomesOverlap(a: Bundle, b: Bundle) {
    ListsOverlap(a.home, b.scope) || ListsOverlap(a.scope, b.home)
  }

  predicate SameIdentity(a: Bundle, b: Bundle) {
    a.ua == b.ua && a.headers == b.headers
  }

  /** The load accepts two bundles that overlap only with one identity, unless
      neither's home overlaps the other. */
  predicate Compatible(a: Bundle, b: Bundle) {
    ScopesOverlap(a, b) && HomesOverlap(a, b) ==> SameIdentity(a, b)
  }

  // ---- connected components ----

  predicate Linked(items: seq<Bundle>, i: nat, j: nat) {
    i < |items| && j < |items| && (i == j || ScopesOverlap(items[i], items[j]))
  }

  predicate IsPath(items: seq<Bundle>, path: seq<nat>) {
    path != [] && path[0] < |items| && forall k :: 0 <= k < |path| - 1 ==> Linked(items, path[k], path[k + 1])
  }

  /** A chain of overlapping scopes leads from i to j. */
  ghost predicate Connected(items: seq<Bundle>, i: nat, j: nat) {
    exists path :: IsPath(items, path) && path[0] == i && path[|path| - 1] == j
  }

  lemma ConnectedSelf(items: seq<Bundle>, i: nat)
    requires i < |items|
    ensures Connected(items, i, i)
  {
    assert IsPath(items, [i]);
  }

  lemma LinkedSym(items: seq<Bundle>, i: nat, j: nat)
    requires Linked(items, i, j)
    ensures Linked(items, j, i)
  {
    ListsOverlapSym(items[i].scope, items[j].scope);
  }

  lemma ConnectedLink(items: seq<Bundle>, i: nat, j: nat)
    requires Linked(items, i, j)
    ensures Connected(items, i, j)
  {
    assert IsPath(items, [i, j]);
  }

  lemma ConnectedTrans(items: seq<Bundle>, i: nat, j: nat, k: nat)
    requires Connected(items, i, j) && Connected(items, j, k)
    ensures Connected(items, i, k)
  {
    var p :| IsPath(items, p) && p[0] == i && p[|p| - 1] == j;
    var q :| IsPath(items, q) && q[0] == j && q[|q| - 1] == k;
    var r := p + q[1..];
    forall x | 0 <= x < |r| - 1
      ensures Linked(items, r[x], r[x + 1])
    {
      if x < |p| - 1 {
        assert Linked(items, p[x], p[x + 1]);
      } else {
        assert Linked(items, q[x - |p| + 1], q[x - |p| + 2]);
      }
    }
    assert IsPath(items, r);
  }

  lemma ConnectedSym(items: seq<Bundle>, i: nat, j: nat)
    requires Connected(items, i, j)
    ensures Connected(items, j, i)
  {
    var p :| IsPath(items, p) && p[0] == i && p[|p| - 1] == j;
    PathBack(items, p);
  }

  lemma {:induction false} PathBack(items: seq<Bundle>, p: seq<nat>)
    requires IsPath(items, p)
    ensures Connected(items, p[|p| - 1], p[0])
  {
    if |p| == 1 {
      ConnectedSelf(items, p[0]);
    } else {
      assert Linked(items, p[0], p[1]);
      forall k | 0 <= k < |p[1..]| - 1
        ensures Linked(items, p[1..][k], p[1..][k + 1])
      {
        assert Linked(items, p[k + 1], p[k + 2]);
      }
      PathBack(items, p[1..]);
      LinkedSym(items, p[0], p[1]);
      ConnectedLink(items, p[1], p[0]);
      ConnectedTrans(items, p[|p| - 1], p[1], p[0]);
    }
  }

  // ---- the groups ----

  /** Only connected bundles share a root. */
  ghost predicate Sound(items: seq<Bundle>, rep: seq<nat>) {
    |rep| == |items| && forall x, y :: 0 <= x < |rep| && 0 <= y < |rep| && rep[x] == rep[y] ==> Connected(items, x, y)
  }

  /** Pair (x, y) comes before pair (i, j) in the double loop. */
  predicate Before(x: nat, y: nat, i: nat, j: nat) {
    x < i || (x == i && y < j)
  }

  ghost predicate Settled(items: seq<Bundle>, rep: seq<nat>, x: nat, y: nat)
    requires x < |items| == |rep| && y < |items|
  {
    Compatible(items[x], items[y]) && (ScopesOverlap(items[x], items[y]) ==> rep[x] == rep[y])
  }

  /** The pairs seen so far are compatible, and share a root when they overlap. */
  ghost predicate Seen(items: seq<Bundle>, rep: seq<nat>, i: nat, j: nat) {
    && |rep| == |items|
    && forall x, y :: 0 <= x < y < |rep| && Before(x, y, i, j) ==> Settled(items, rep, x, y)
  }

  ghost predicate AllCompatible(items: seq<Bundle>) {
    forall i, j :: 0 <= i < j < |items| ==> Compatible(items[i], items[j])
  }

  lemma MergeSound(items: seq<Bundle>, rep: seq<nat>, i: nat, j: nat)
    requires Sound(items, rep) && i < |items| && j < |items| && ScopesOverlap(items[i], items[j])
    ensures Sound(items, Merged(rep, i, j))
  {
    var out := Merged(rep, i, j);
    ConnectedLink(items, i, j);
    ConnectedSym(items, i, j);
    forall x, y | 0 <= x < |out| && 0 <= y < |out| && out[x] == out[y]
      ensures Connected(items, x, y)
    {
      if rep[x] != rep[y] {
        if rep[x] == rep[j] {
          ConnectedTrans(items, x, j, i);
          ConnectedTrans(items, x, i, y);
        } else {
          ConnectedTrans(items, x, i, j);
          ConnectedTrans(items, x, j, y);
        }
      }
    }
  }

  lemma MergeSeen(items: seq<Bundle>, rep: seq<nat>, i: nat, j: nat)
    requires i < j < |items| && Seen(items, rep, i, j) && Compatible(items[i], items[j])
    ensures Seen(items, if ScopesOverlap(items[i], items[j]) then Merged(rep, i, j) else rep, i, j + 1)
  {
    var out := if ScopesOverlap(items[i], items[j]) then Merged(rep, i, j) else rep;
    forall x, y | 0 <= x < y < |rep| && Before(x, y, i, j + 1)
      ensures Settled(items, out, x, y)
    {
      if x != i || y != j {
        assert Settled(items, rep, x, y);
      }
    }
  }

  lemma LinkedInTree(items: seq<Bundle>, rep: seq<nat>, a: nat, b: nat)
    requires Seen(items, rep, |items|, 0) && Linked(items, a, b)
    ensures rep[a] == rep[b]
  {
    if a < b {
      assert Before(a, b, |items|, 0) && Settled(items, rep, a, b);
    } else if b < a {
      LinkedSym(items, a, b);
      assert Before(b, a, |items|, 0) && Settled(items, rep, b, a);
    }
  }

  /** A path never leaves its root's tree once every overlap is merged. */
  lemma {:induction false} PathInTree(items: seq<Bundle>, rep: seq<nat>, p: seq<nat>, k: nat)
    requires Seen(items, rep, |items|, 0) && IsPath(items, p) && k < |p|
    ensures p[k] < |items| && rep[p[k]] == rep[p[0]]
  {
    if k > 0 {
      PathInTree(items, rep, p, k - 1);
      assert Linked(items, p[k - 1], p[k - 1 + 1]);
      LinkedInTree(items, rep, p[k - 1], p[k]);
    }
  }

  /** The roots tell exactly the connected components of "scopes overlap". */
  lemma GroupsAreComponents(items: seq<Bundle>, rep: seq<nat>, i: nat, j: nat)
    requires Sound(items, rep) && Seen(items, rep, |items|, 0) && i < |items| && j < |items|
    ensures rep[i] == rep[j] <==> Connected(items, i, j)
  {
    if Connected(items, i, j) {
      var p :| IsPath(items, p) && p[0] == i && p[|p| - 1] == j;
      PathInTree(items, rep, p, |p| - 1);
    }
  }

  // ---- loading ----

  /** The part of hts_bundle_load_all that merges the bundles it has read, as
      `items`. It fails exactly when two bundles are not compatible. On success
      the groups are the connected components of "scopes overlap", and a
      bundle's headers are for https alone when those of any bundle in its
      component were. */
  method LoadGroups(items: seq<Bundle>) returns (ok: bool, out: seq<Bundle>, ghost rep: seq<nat>)
    ensures ok <==> AllCompatible(items)
    ensures ok ==> |rep| == |items| && forall i, j :: 0 <= i < |items| && 0 <= j < |items| ==>
                     (rep[i] == rep[j] <==> Connected(items, i, j))
    ensures ok ==> Spread(items, out)
  {
    var group := new nat[|items|](i => i);
    ghost var height;
    ok, rep, height := MergeAll(items, group);
    out := items;
    if !ok {
      return;
    }
    forall i, j | 0 <= i < |items| && 0 <= j < |items|
      ensures rep[i] == rep[j] <==> Connected(items, i, j)
    {
      GroupsAreComponents(items, rep, i, j);
    }
    out := SpreadHttps(items, group, rep, height);
    forall i | 0 <= i < |items|
      ensures SpreadTo(items, out, i)
    {
      SpreadIsComponent(items, out, rep, i);
    }
  }

  ghost predicate SpreadTo(items: seq<Bundle>, out: seq<Bundle>, i: nat)
    requires i < |items| == |out|
  {
    && out[i] == items[i].(httpsOnly := out[i].httpsOnly)
    && (out[i].httpsOnly <==> exists j :: 0 <= j < |items| && Connected(items, i, j) && items[j].httpsOnly)
  }

  /** Each flag is the OR over its component, and nothing else changed. */
  ghost predicate Spread(items: seq<Bundle>, out: seq<Bundle>) {
    |out| == |items| && forall i :: 0 <= i < |items| ==> SpreadTo(items, out, i)
  }

  lemma SingletonsSound(items: seq<Bundle>) returns (rep: seq<nat>, height: seq<nat>)
    ensures rep == seq(|items|, i => i) && Forest(rep, rep, height)
    ensures Sound(items, rep) && Seen(items, rep, 0, 1)
  {
    rep, height := seq(|items|, i => i), seq(|items|, i => 0);
    forall x, y | 0 <= x < |rep| && 0 <= y < |rep| && rep[x] == rep[y]
      ensures Connected(items, x, y)
    {
      ConnectedSelf(items, x);
    }
    forall i | 0 <= i < |rep|
      ensures Node(rep, rep, height, i)
    {
    }
  }

  /** The double loop over pairs. */
  method MergeAll(items: seq<Bundle>, group: array<nat>)
    returns (ok: bool, ghost rep: seq<nat>, ghost height: seq<nat>)
    requires group.Length == |items| && forall i :: 0 <= i < group.Length ==> group[i] == i
    modifies group
    ensures ok <==> AllCompatible(items)
    ensures ok ==> Forest(group[..], rep, height) && Sound(items, rep) && Seen(items, rep, |items|, 0)
  {
    rep, height := SingletonsSound(items);
    assert group[..] == rep;
    ok := true;
    var i := 0;
    while i < |items|
      invariant i <= |items| && Forest(group[..], rep, height) && Sound(items, rep)
      invariant Seen(items, rep, i, i + 1)
    {
      var j := i + 1;
      while j < |items|
        invariant i < j <= |items| && Forest(group[..], rep, height) && Sound(items, rep)
        invariant Seen(items, rep, i, j)
      {
        var clash;
        clash, rep, height := MergePair(items, group, i, j, rep, height);
        if clash {
          assert !Compatible(items[i], items[j]);
          ok := false;
          return;
        }
        j := j + 1;
      }
      i := i + 1;
    }
    AllSeen(items, rep);
  }

  lemma AllSeen(items: seq<Bundle>, rep: seq<nat>)
    requires Seen(items, rep, |items|, |items| + 1)
    ensures Seen(items, rep, |items|, 0) && AllCompatible(items)
  {
    forall x, y | 0 <= x < y < |items|
      ensures Settled(items, rep, x, y) && Compatible(items[x], items[y])
    {
      assert Before(x, y, |items|, |items| + 1);
      assert Settled(items, rep, x, y);
    }
  }

  method MergePair(items: seq<Bundle>, group: array<nat>, i: nat, j: nat, ghost rep: seq<nat>, ghost height: seq<nat>)
    returns (clash: bool, ghost rep': seq<nat>, ghost height': seq<nat>)
    requires i < j < |items| == group.Length && Forest(group[..], rep, height)
    requires Sound(items, rep) && Seen(items, rep, i, j)
    modifies group
    ensures clash <==> !Compatible(items[i], items[j])
    ensures !clash ==> Forest(group[..], rep', height') && Sound(items, rep') && Seen(items, rep', i, j + 1)
  {
    rep', height' := rep, height;
    var a, b := items[i], items[j];
    var overlap := CheckOverlap(a.scope, b.scope);
    if !overlap {
      MergeSeen(items, rep, i, j);
      return false, rep', height';
    }
    var home := CheckOverlap(a.home, b.scope);
    if !home {
      home := CheckOverlap(a.scope, b.home);
    }
    if !SameIdentity(a, b) && home {
      return true, rep', height';
    }
    MergeSeen(items, rep, i, j);
    MergeSound(items, rep, i, j);
    rep', height' := Merge(group, i, j, rep, height);
    clash := false;
  }

  // ---- the https flag ----

  /** Does one of the first m bundles below root r have an https URL? */
  ghost predicate Flagged(items: seq<Bundle>, rep: seq<nat>, m: nat, r: nat)
    requires |rep| == |items| && m <= |items|
  {
    exists j :: 0 <= j < m && rep[j] == r && items[j].httpsOnly
  }

  /** A bundle once the first m have told their roots. */
  ghost predicate Told(items: seq<Bundle>, out: seq<Bundle>, rep: seq<nat>, m: nat, k: nat)
    requires |rep| == |items| == |out| && m <= |items| && k < |items|
  {
    && out[k] == items[k].(httpsOnly := out[k].httpsOnly)
    && (out[k].httpsOnly <==> items[k].httpsOnly || (rep[k] == k && Flagged(items, rep, m, k)))
  }

  lemma TellOne(items: seq<Bundle>, out: seq<Bundle>, rep: seq<nat>, i: nat, next: seq<Bundle>, m: nat)
    requires |rep| == |items| == |out| && i < |items| && m == i + 1
    requires rep[i] < |items| && rep[rep[i]] == rep[i]
    requires forall k :: 0 <= k < |out| ==> Told(items, out, rep, i, k)
    requires next == if out[i].httpsOnly then out[rep[i] := out[rep[i]].(httpsOnly := true)] else out
    ensures forall k :: 0 <= k < |next| ==> Told(items, next, rep, m, k)
  {
    assert Told(items, out, rep, i, i);
    forall k | 0 <= k < |next|
      ensures Told(items, next, rep, m, k)
    {
      assert Told(items, out, rep, i, k);
      assert Flagged(items, rep, m, k) <==> Flagged(items, rep, i, k) || (rep[i] == k && items[i].httpsOnly);
    }
  }

  /** The first loop: an https bundle tells its root. */
  method TellRoots(items: seq<Bundle>, group: array<nat>, ghost rep: seq<nat>, ghost height: seq<nat>)
    returns (out: seq<Bundle>)
    requires group.Length == |items| && Forest(group[..], rep, height)
    modifies group
    ensures Forest(group[..], rep, height)
    ensures |out| == |items| && forall k :: 0 <= k < |out| ==> Told(items, out, rep, |items|, k)
  {
    out := items;
    var i := 0;
    while i < |items|
      invariant i <= |items| == |out| && Forest(group[..], rep, height)
      invariant forall k :: 0 <= k < |out| ==> Told(items, out, rep, i, k)
    {
      assert Node(group[..], rep, height, i) && Node(group[..], rep, height, rep[i]);
      ghost var before := out;
      if out[i].httpsOnly {
        var r := Root(group, i, rep, height);
        out := out[r := out[r].(httpsOnly := true)];
      }
      i := i + 1;
      TellOne(items, before, rep, i - 1, out, i);
    }
  }

  /** The second loop: every bundle takes its root's flag. */
  method SpreadHttps(items: seq<Bundle>, group: array<nat>, ghost rep: seq<nat>, ghost height: seq<nat>)
    returns (out: seq<Bundle>)
    requires group.Length == |items| && Forest(group[..], rep, height)
    modifies group
    ensures |out| == |items| == |rep|
    ensures forall i :: 0 <= i < |items| ==> Spreads(items, out, rep, i)
  {
    var told := TellRoots(items, group, rep, height);
    out := told;
    var i := 0;
    while i < |items|
      invariant i <= |items| == |out| && Forest(group[..], rep, height)
      invariant forall k :: 0 <= k < i ==> Spreads(items, out, rep, k)
      invariant forall k :: 0 <= k < |out| && (k >= i || rep[k] == k) ==> out[k] == told[k]
    {
      assert Node(group[..], rep, height, i) && Node(group[..], rep, height, rep[i]);
      assert Told(items, told, rep, |items|, i) && Told(items, told, rep, |items|, rep[i]);
      var r := Root(group, i, rep, height);
      ghost var before := out;
      out := out[i := out[i].(httpsOnly := out[r].httpsOnly)];
      forall k | 0 <= k <= i
        ensures Spreads(items, out, rep, k)
      {
        assert k < i ==> Spreads(items, before, rep, k);
      }
      i := i + 1;
    }
  }

  ghost predicate Spreads(items: seq<Bundle>, out: seq<Bundle>, rep: seq<nat>, i: nat)
    requires |rep| == |items| == |out| && i < |items|
  {
    && out[i] == items[i].(httpsOnly := out[i].httpsOnly)
    && (out[i].httpsOnly <==> Flagged(items, rep, |items|, rep[i]))
  }

  lemma SpreadIsComponent(items: seq<Bundle>, out: seq<Bundle>, rep: seq<nat>, i: nat)
    requires |rep| == |items| == |out| && i < |items| && Spreads(items, out, rep, i)
    requires forall j :: 0 <= j < |items| ==> (rep[i] == rep[j] <==> Connected(items, i, j))
    ensures SpreadTo(items, out, i)
  {
    if Flagged(items, rep, |items|, rep[i]) {
      var j :| 0 <= j < |items| && rep[j] == rep[i] && items[j].httpsOnly;
      assert Connected(items, i, j);
    }
    if exists j :: 0 <= j < |items| && Connected(items, i, j) && items[j].httpsOnly {
      var j :| 0 <= j < |items| && Connected(items, i, j) && items[j].httpsOnly;
      assert rep[j] == rep[i];
    }
  }
}
