/** What a request gets from the loaded bundles, and who must not get it. */
module BundleIdentity {
  import opened Wrappers
  import opened Scope
  import opened Bundles

  /** The user agent and the headers a request takes from the bundles; None
      leaves the request's own. */
  datatype Given = Given(ua: Option<string>, headers: Option<string>)

  const NOTHING := Given(None, None)

  function GivenBy(b: Bundle, https: bool): Given {
    Given(b.ua, if b.headers != "" && (!b.httpsOnly || https) then Some(b.headers) else None)
  }

  /** The first bundle whose scope covers host, or -1. */
  function FirstCovering(items: seq<Bundle>, host: string): (i: int)
    ensures -1 <= i < |items|
    ensures i >= 0 ==> InScope(items[i], host)
    ensures forall j :: 0 <= j < (if i < 0 then |items| else i) ==> !InScope(items[j], host)
  {
    if items == [] then -1
    else if InScope(items[0], host) then 0
    else
      var i := FirstCovering(items[1..], host);
      if i < 0 then -1 else i + 1
  }

  /** hts_bundle_identity; host is None when the address has none. */
  function Identity(items: seq<Bundle>, host: Option<string>, https: bool): Given {
    if host.None? then NOTHING
    else
      var i := FirstCovering(items, host.value);
      if i < 0 then NOTHING else GivenBy(items[i], https)
  }

  method Identify(items: seq<Bundle>, host: Option<string>, https: bool) returns (given: Given)
    ensures given == Identity(items, host, https)
  {
    if host.None? {
      return NOTHING;
    }
    var i := 0;
    while i < |items|
      invariant i <= |items|
      invariant forall j :: 0 <= j < i ==> !InScope(items[j], host.value)
    {
      var covers := CoversAny(items[i].scope, host.value);
      if covers {
        return GivenBy(items[i], https);
      }
      i := i + 1;
    }
    given := NOTHING;
  }

  /** The loop of scope_list_covers. */
  method CoversAny(list: seq<string>, host: string) returns (covers: bool)
    ensures covers <==> ListCovers(list, host)
  {
    var i := 0;
    while i < |list|
      invariant i <= |list|
      invariant forall j :: 0 <= j < i ==> !Covers(list[j], host)
    {
      if Covers(list[i], host) {
        return true;
      }
      i := i + 1;
    }
    covers := false;
  }

  /** Every entry is one that a URL or a scope line writes. */
  ghost predicate WrittenEntries(items: seq<Bundle>) {
    forall i :: 0 <= i < |items| ==> WrittenList(items[i].scope) && WrittenList(items[i].home)
  }

  predicate WrittenList(list: seq<string>) {
    forall i :: 0 <= i < |list| ==> IsWritten(list[i])
  }

  lemma CoveringListsOverlap(a: seq<string>, b: seq<string>, host: string)
    requires WrittenList(a) && WrittenList(b) && ListCovers(a, host) && ListCovers(b, host)
    ensures ListsOverlap(a, b)
  {
    var i :| 0 <= i < |a| && Covers(a[i], host);
    var j :| 0 <= j < |b| && Covers(b[j], host);
    CommonHostOverlaps(a[i], b[j], host);
  }

  /** Bundles that cover one host are in one component. */
  lemma CoveringConnected(items: seq<Bundle>, host: string, i: nat, j: nat)
    requires WrittenEntries(items) && i < |items| && j < |items|
    requires InScope(items[i], host) && InScope(items[j], host)
    ensures Connected(items, i, j)
  {
    CoveringListsOverlap(items[i].scope, items[j].scope, host);
    ConnectedLink(items, i, j);
  }

  /** They end with the same https flag. */
  lemma SameFlag(items: seq<Bundle>, out: seq<Bundle>, i: nat, j: nat)
    requires Spread(items, out) && i < |items| && j < |items| && Connected(items, i, j)
    ensures out[i].httpsOnly == out[j].httpsOnly
  {
    ConnectedSym(items, i, j);
    assert SpreadTo(items, out, i) && SpreadTo(items, out, j);
    if out[i].httpsOnly {
      var k :| 0 <= k < |items| && Connected(items, i, k) && items[k].httpsOnly;
      ConnectedTrans(items, j, i, k);
    }
    if out[j].httpsOnly {
      var k :| 0 <= k < |items| && Connected(items, j, k) && items[k].httpsOnly;
      ConnectedTrans(items, i, j, k);
    }
  }

  lemma CoverageKept(items: seq<Bundle>, out: seq<Bundle>, host: string)
    requires Spread(items, out)
    ensures forall i :: 0 <= i < |items| ==> InScope(out[i], host) == InScope(items[i], host)
    ensures FirstCovering(out, host) == FirstCovering(items, host)
  {
    forall i | 0 <= i < |items|
      ensures InScope(out[i], host) == InScope(items[i], host)
    {
      assert SpreadTo(items, out, i);
    }
  }

  /** No headers go to a plain-http request for a host when any bundle in the
      component of any bundle that covers the host has an https URL. */
  lemma NoHeadersOverHttp(items: seq<Bundle>, out: seq<Bundle>, host: string, i: nat, j: nat)
    requires Spread(items, out) && WrittenEntries(items)
    requires i < |items| && InScope(items[i], host)
    requires j < |items| && Connected(items, i, j) && items[j].httpsOnly
    ensures Identity(out, Some(host), false).headers == None
  {
    CoverageKept(items, out, host);
    var f := FirstCovering(out, host);
    CoveringConnected(items, host, f, i);
    ConnectedTrans(items, f, i, j);
    assert SpreadTo(items, out, f);
  }

  /** Of the first covering bundle alone this needs nothing of the entries. */
  lemma NoHeadersFromFirst(items: seq<Bundle>, out: seq<Bundle>, host: string, j: nat)
    requires Spread(items, out) && FirstCovering(items, host) >= 0
    requires j < |items| && Connected(items, FirstCovering(items, host), j) && items[j].httpsOnly
    ensures Identity(out, Some(host), false).headers == None
  {
    CoverageKept(items, out, host);
    assert SpreadTo(items, out, FirstCovering(items, host));
  }

  /** After a load a request gets what the first bundle that covers its host has: its user
      agent as it is, and its headers, if it has any, over https, or over http when no
      bundle connected to it has an https URL. */
  lemma GivesExactly(items: seq<Bundle>, out: seq<Bundle>, host: string, https: bool, f: nat)
    requires Spread(items, out) && f < |items| && InScope(items[f], host)
    requires forall j :: 0 <= j < f ==> !InScope(items[j], host)
    ensures var given := Identity(out, Some(host), https);
            && given.ua == items[f].ua
            && (given.headers.Some? ==> given.headers.value == items[f].headers)
            && (given.headers.Some?
                <==> items[f].headers != ""
                     && (https || forall j: nat :: j < |items| && Connected(items, f, j) ==> !items[j].httpsOnly))
  {
    CoverageKept(items, out, host);
    assert SpreadTo(items, out, f);
    assert FirstCovering(items, host) == f;
  }

  /** Without such a bundle, or without a host, it gets nothing. */
  lemma GivesNothing(items: seq<Bundle>, out: seq<Bundle>, host: Option<string>, https: bool)
    requires Spread(items, out)
    requires host.Some? ==> forall j :: 0 <= j < |items| ==> !InScope(items[j], host.value)
    ensures Identity(out, host, https).ua == None && Identity(out, host, https).headers == None
  {
    if host.Some? {
      CoverageKept(items, out, host.value);
    }
  }

  // ---- when the order of the bundles matters ----

  /** The load compares the two. */
  predicate Tied(items: seq<Bundle>, i: nat, j: nat) {
    && i < |items| && j < |items|
    && (i == j || (ScopesOverlap(items[i], items[j]) && HomesOverlap(items[i], items[j])))
  }

  predicate IsChain(items: seq<Bundle>, chain: seq<nat>) {
    chain != [] && chain[0] < |items| && forall k :: 0 <= k < |chain| - 1 ==> Tied(items, chain[k], chain[k + 1])
  }

  /** A chain of compared bundles leads from i to j. */
  ghost predicate TiedTogether(items: seq<Bundle>, i: nat, j: nat) {
    exists chain :: IsChain(items, chain) && chain[0] == i && chain[|chain| - 1] == j
  }

  lemma TiedSym(items: seq<Bundle>, i: nat, j: nat)
    requires Tied(items, i, j)
    ensures Tied(items, j, i)
  {
    ListsOverlapSym(items[i].scope, items[j].scope);
    ListsOverlapSym(items[i].home, items[j].scope);
    ListsOverlapSym(items[i].scope, items[j].home);
  }

  lemma TiedOn(items: seq<Bundle>, i: nat, j: nat, k: nat)
    requires TiedTogether(items, i, j) && Tied(items, j, k)
    ensures TiedTogether(items, i, k)
  {
    var chain :| IsChain(items, chain) && chain[0] == i && chain[|chain| - 1] == j;
    var longer := chain + [k];
    forall x | 0 <= x < |longer| - 1 ensures Tied(items, longer[x], longer[x + 1]) {
      assert x < |chain| - 1 ==> Tied(items, chain[x], chain[x + 1]);
    }
    assert IsChain(items, longer);
  }

  lemma TiedPair(items: seq<Bundle>, i: nat, j: nat)
    requires Tied(items, i, j)
    ensures TiedTogether(items, i, j)
  {
    assert IsChain(items, [i]);
    TiedOn(items, i, i, j);
  }

  lemma TiedAgree(items: seq<Bundle>, i: nat, j: nat)
    requires AllCompatible(items) && Tied(items, i, j)
    ensures SameIdentity(items[i], items[j])
  {
    TiedSym(items, i, j);
    if i < j {
      assert Compatible(items[i], items[j]);
    } else if j < i {
      assert Compatible(items[j], items[i]);
    }
  }

  lemma {:induction false} ChainAgrees(items: seq<Bundle>, chain: seq<nat>)
    requires AllCompatible(items) && IsChain(items, chain)
    ensures chain[|chain| - 1] < |items| && SameIdentity(items[chain[0]], items[chain[|chain| - 1]])
  {
    var n := |chain| - 1;
    if n > 0 {
      forall x | 0 <= x < n - 1 ensures Tied(items, chain[..n][x], chain[..n][x + 1]) {
        assert Tied(items, chain[x], chain[x + 1]);
      }
      ChainAgrees(items, chain[..n]);
      assert Tied(items, chain[n - 1], chain[n - 1 + 1]);
      TiedAgree(items, chain[n - 1], chain[n]);
    }
  }

  datatype Id = Id(ua: Option<string>, headers: string)

  /** The bundles with other user agents and headers. */
  function WithIds(items: seq<Bundle>, ids: seq<Id>): (out: seq<Bundle>)
    requires |ids| == |items|
    ensures |out| == |items|
    ensures forall i :: 0 <= i < |items| ==> out[i] == items[i].(ua := ids[i].ua, headers := ids[i].headers)
  {
    seq(|items|, i requires 0 <= i < |items| => items[i].(ua := ids[i].ua, headers := ids[i].headers))
  }

  /** Do the bundles load with these identities? */
  ghost predicate Loads(items: seq<Bundle>, ids: seq<Id>) {
    |ids| == |items| && AllCompatible(WithIds(items, ids))
  }

  lemma ChainsStay(items: seq<Bundle>, ids: seq<Id>, i: nat, j: nat)
    requires |ids| == |items|
    ensures Tied(WithIds(items, ids), i, j) == Tied(items, i, j)
    ensures TiedTogether(items, i, j) ==> TiedTogether(WithIds(items, ids), i, j)
  {
    var out := WithIds(items, ids);
    if TiedTogether(items, i, j) {
      var chain :| IsChain(items, chain) && chain[0] == i && chain[|chain| - 1] == j;
      forall x | 0 <= x < |chain| - 1 ensures Tied(out, chain[x], chain[x + 1]) {
        assert Tied(items, chain[x], chain[x + 1]);
      }
      assert IsChain(out, chain);
    }
  }

  lemma TiedDecides(items: seq<Bundle>, ids: seq<Id>, u: nat, v: nat)
    requires Loads(items, ids) && TiedTogether(items, u, v)
    ensures u < |items| && v < |items| && ids[u] == ids[v]
  {
    var out := WithIds(items, ids);
    ChainsStay(items, ids, u, v);
    var chain :| IsChain(out, chain) && chain[0] == u && chain[|chain| - 1] == v;
    ChainAgrees(out, chain);
  }

  /** One identity for those tied to u, another for the rest. */
  ghost function Split(items: seq<Bundle>, u: nat): (ids: seq<Id>)
    ensures |ids| == |items|
    ensures forall k :: 0 <= k < |ids| ==> ids[k] == Id(if TiedTogether(items, u, k) then Some("") else None, "")
  {
    seq(|items|, k requires 0 <= k < |items| => Id(if TiedTogether(items, u, k) then Some("") else None, ""))
  }

  lemma SplitLoads(items: seq<Bundle>, u: nat)
    ensures Loads(items, Split(items, u))
  {
    var ids := Split(items, u);
    var out := WithIds(items, ids);
    forall i, j | 0 <= i < j < |out| ensures Compatible(out[i], out[j]) {
      if Tied(items, i, j) {
        TiedSym(items, i, j);
        if TiedTogether(items, u, i) {
          TiedOn(items, u, i, j);
        }
        if TiedTogether(items, u, j) {
          TiedOn(items, u, j, i);
        }
      }
    }
  }

  /** Two bundles have one identity in every load of these scopes and homes if and
      only if a chain of compared bundles joins them. */
  lemma OneIdentityExactly(items: seq<Bundle>, u: nat, v: nat)
    requires u < |items| && v < |items|
    ensures (forall ids :: Loads(items, ids) ==> ids[u] == ids[v]) <==> TiedTogether(items, u, v)
  {
    if TiedTogether(items, u, v) {
      forall ids | Loads(items, ids) ensures ids[u] == ids[v] {
        TiedDecides(items, ids, u, v);
      }
    } else {
      SplitLoads(items, u);
      TiedPair(items, u, u);
      assert Split(items, u)[u] != Split(items, u)[v];
    }
  }

  ghost predicate OneIdentity(items: seq<Bundle>, host: string, ids: seq<Id>)
    requires |ids| == |items|
  {
    forall y: nat, z: nat :: BothCover(items, host, y, z) ==> ids[y] == ids[z]
  }

  predicate BothCover(items: seq<Bundle>, host: string, y: nat, z: nat) {
    y < |items| && z < |items| && InScope(items[y], host) && InScope(items[z], host)
  }

  /** So on a host the covering bundles have one identity in every load if and only
      if they are all joined. */
  lemma HostDecidesExactly(items: seq<Bundle>, host: string)
    ensures (forall ids :: Loads(items, ids) ==> OneIdentity(items, host, ids))
       <==> (forall y: nat, z: nat :: BothCover(items, host, y, z) ==> TiedTogether(items, y, z))
  {
    if forall ids :: Loads(items, ids) ==> OneIdentity(items, host, ids) {
      forall y: nat, z: nat | BothCover(items, host, y, z) ensures TiedTogether(items, y, z) {
        OneIdentityExactly(items, y, z);
      }
    }
    if forall y: nat, z: nat :: BothCover(items, host, y, z) ==> TiedTogether(items, y, z) {
      forall ids, y: nat, z: nat | Loads(items, ids) && BothCover(items, host, y, z) ensures ids[y] == ids[z] {
        TiedDecides(items, ids, y, z);
      }
    }
  }

  /** A bundle that covers a host by its home and by its scope is compared with every
      other that covers it. */
  lemma HomeTies(items: seq<Bundle>, host: string, x: nat, y: nat)
    requires WrittenEntries(items)
    requires x < |items| && ListCovers(items[x].home, host) && InScope(items[x], host)
    requires y < |items| && InScope(items[y], host)
    ensures Tied(items, x, y)
  {
    CoveringListsOverlap(items[x].home, items[y].scope, host);
    CoveringListsOverlap(items[x].scope, items[y].scope, host);
  }

  lemma HomeDecides(items: seq<Bundle>, host: string, x: nat, y: nat)
    requires AllCompatible(items) && WrittenEntries(items)
    requires x < |items| && ListCovers(items[x].home, host) && InScope(items[x], host)
    requires y < |items| && InScope(items[y], host)
    ensures SameIdentity(items[x], items[y])
  {
    HomeTies(items, host, x, y);
    TiedAgree(items, x, y);
  }

  /** Where all bundles that cover a host are joined, it does not matter which comes
      first: each gives the request what it gets. */
  lemma JoinedOrderDoesNotMatter(items: seq<Bundle>, out: seq<Bundle>, host: string, y: nat, https: bool)
    requires Spread(items, out) && AllCompatible(items) && WrittenEntries(items)
    requires y < |items| && InScope(items[y], host) && TiedTogether(items, FirstCovering(items, host), y)
    ensures Identity(out, Some(host), https) == GivenBy(out[y], https)
  {
    CoverageKept(items, out, host);
    var f := FirstCovering(out, host);
    var chain :| IsChain(items, chain) && chain[0] == f && chain[|chain| - 1] == y;
    ChainAgrees(items, chain);
    CoveringConnected(items, host, f, y);
    SameFlag(items, out, f, y);
    assert SpreadTo(items, out, f) && SpreadTo(items, out, y);
  }

  /** They are on a host that some bundle covers both by its home and by its scope. */
  lemma OrderDoesNotMatter(items: seq<Bundle>, out: seq<Bundle>, host: string, x: nat, y: nat, https: bool)
    requires Spread(items, out) && AllCompatible(items) && WrittenEntries(items)
    requires x < |items| && ListCovers(items[x].home, host) && InScope(items[x], host)
    requires y < |items| && InScope(items[y], host)
    ensures Identity(out, Some(host), https) == GivenBy(out[y], https)
  {
    var f := FirstCovering(items, host);
    HomeTies(items, host, x, f);
    HomeTies(items, host, x, y);
    TiedSym(items, x, f);
    TiedPair(items, f, x);
    TiedOn(items, f, x, y);
    JoinedOrderDoesNotMatter(items, out, host, y, https);
  }

  lemma HostsAlone(s: string, t: string)
    ensures ListsOverlap(["=" + s], ["=" + t]) <==> s == t
  {
    assert ("=" + s)[1..] == s && ("=" + t)[1..] == t;
    assert EntriesOverlap(["=" + s][0], ["=" + t][0]) <==> s == t;
  }

  /** The home alone does not decide. A bundle whose scope lines leave its own
      home out is not compared with the two that cover it, and these may differ. */
  lemma HomeOutsideScope(h: string, other: string, ua: string)
    requires h != other
    ensures var x := Bundle(["=" + other], ["=" + h], None, "", false);
            var y := Bundle(["=" + h], ["=" + other], Some(ua), "", false);
            var z := Bundle(["=" + h], ["=" + other], None, "", false);
            && AllCompatible([x, y, z])
            && ListCovers(x.home, h) && InScope(y, h) && InScope(z, h) && !SameIdentity(y, z)
  {
    HostsAlone(other, h);
    HostsAlone(h, other);
    assert Covers(["=" + h][0], h) by {
      assert ("=" + h)[1..] == h;
    }
  }
}
