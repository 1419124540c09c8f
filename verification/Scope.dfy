/** The scope entries of a login bundle: which hosts one covers, and when two
    overlap. */
module Scope {
  import opened CText

  /** hts_host_is_ipv4: digits and at least one dot. */
  predicate IsIpv4(host: string) {
    '.' in host && forall i :: 0 <= i < |host| ==> host[i] == '.' || IsDigit(host[i])
  }

  predicate IsAddress(host: string) {
    ':' in host || IsIpv4(host)
  }

  /** The last n bytes of s. */
  function Tail(s: string, n: nat): string
    requires n <= |s|
  {
    s[|s| - n..]
  }

  /** cookie_domain_match: the same host, or a parent domain on a label boundary
      of a host that is no address. */
  predicate DomainMatch(jar: string, host: string) {
    var dom := StripDot(jar);
    && 0 < |dom| <= |host| && EqualNoCase(dom, Tail(host, |dom|))
    && (|dom| == |host| || (host[|host| - |dom| - 1] == '.' && !IsAddress(host)))
  }

  /** A domain matches the host it spells, case and one leading dot aside, and any host
      below it that is no address. */
  lemma DomainMatchExactly(jar: string, host: string)
    ensures var dom := if jar != "" && jar[0] == '.' then jar[1..] else jar;
            DomainMatch(jar, host)
            <==> dom != "" && (SameLetters(dom, host) || (!IsAddress(host) && IsBelow(host, dom)))
  {
    var dom := StripDot(jar);
    if |dom| <= |host| {
      FoldsExactly(dom, Tail(host, |dom|));
    }
    if |dom| == |host| {
      assert Tail(host, |dom|) == host;
    }
    BelowExactly(host, dom);
  }

  lemma BelowExactly(host: string, dom: string)
    ensures IsBelow(host, dom)
       <==> |dom| < |host| && host[|host| - |dom| - 1] == '.' && SameLetters(dom, Tail(host, |dom|))
  {
    if IsBelow(host, dom) {
      var sub, top :| host == sub + "." + top && SameLetters(dom, top);
      assert host[|sub|] == '.' && Tail(host, |dom|) == top;
    }
    if |dom| < |host| && host[|host| - |dom| - 1] == '.' && SameLetters(dom, Tail(host, |dom|)) {
      var sub, top := host[..|host| - |dom| - 1], Tail(host, |dom|);
      assert host == sub + "." + top;
    }
  }

  ghost predicate IsBelow(host: string, dom: string) {
    exists sub, top :: host == sub + "." + top && SameLetters(dom, top)
  }

  predicate Exact(entry: string) {
    entry != "" && entry[0] == '='
  }

  /** scope_covers. */
  predicate Covers(entry: string, host: string) {
    if Exact(entry) then entry[1..] == host else DomainMatch(entry, host)
  }

  /** The host an entry names. */
  function EntryHost(entry: string): string {
    if Exact(entry) then entry[1..] else entry
  }

  predicate EntriesOverlap(a: string, b: string) {
    Covers(a, EntryHost(b)) || Covers(b, EntryHost(a))
  }

  predicate ListCovers(list: seq<string>, host: string) {
    exists i :: 0 <= i < |list| && Covers(list[i], host)
  }

  predicate ListsOverlap(a: seq<string>, b: seq<string>) {
    exists i, j :: 0 <= i < |a| && 0 <= j < |b| && EntriesOverlap(a[i], b[j])
  }

  lemma ListsOverlapSym(a: seq<string>, b: seq<string>)
    ensures ListsOverlap(a, b) == ListsOverlap(b, a)
  {
    if ListsOverlap(a, b) {
      var i, j :| 0 <= i < |a| && 0 <= j < |b| && EntriesOverlap(a[i], b[j]);
      assert EntriesOverlap(b[j], a[i]);
    }
    if ListsOverlap(b, a) {
      var i, j :| 0 <= i < |b| && 0 <= j < |a| && EntriesOverlap(b[i], a[j]);
      assert EntriesOverlap(a[j], b[i]);
    }
  }

  /** The loop of scope_lists_overlap. */
  method CheckOverlap(a: seq<string>, b: seq<string>) returns (overlap: bool)
    ensures overlap <==> ListsOverlap(a, b)
  {
    var i := 0;
    while i < |a|
      invariant i <= |a|
      invariant forall x, y :: 0 <= x < i && 0 <= y < |b| ==> !EntriesOverlap(a[x], b[y])
    {
      var j := 0;
      while j < |b|
        invariant j <= |b|
        invariant forall y :: 0 <= y < j ==> !EntriesOverlap(a[i], b[y])
      {
        if Covers(a[i], EntryHost(b[j])) || Covers(b[j], EntryHost(a[i])) {
          assert EntriesOverlap(a[i], b[j]);
          return true;
        }
        j := j + 1;
      }
      i := i + 1;
    }
    overlap := false;
  }

  // ---- two entries that cover one host ----

  lemma {:induction false} FoldTail(s: string, k: nat)
    requires k <= |s|
    ensures Fold(s)[k..] == Fold(s[k..])
  {
    if k > 0 {
      FoldTail(s[1..], k - 1);
      assert s[1..][k - 1..] == s[k..];
    }
  }

  /** Two tails of one text, read without case: the shorter ends the longer. */
  lemma TailsNest(a: string, b: string, host: string)
    requires |a| <= |b| <= |host|
    requires EqualNoCase(a, Tail(host, |a|)) && EqualNoCase(b, Tail(host, |b|))
    ensures EqualNoCase(a, Tail(b, |a|))
  {
    FoldTail(host, |host| - |a|);
    FoldTail(host, |host| - |b|);
    FoldTail(b, |b| - |a|);
    assert Fold(host)[|host| - |b|..][|b| - |a|..] == Fold(host)[|host| - |a|..];
  }

  lemma SameByte(b: string, host: string, i: nat)
    requires |b| <= |host| && EqualNoCase(b, Tail(host, |b|)) && i < |b|
    ensures host[|host| - |b| + i] == '.' ==> b[i] == '.'
  {
    FoldAt(b, i);
    FoldAt(Tail(host, |b|), i);
  }

  /** The shorter domain matches the longer one unless that one is an address. */
  lemma ParentMatches(a: string, b: string, host: string)
    requires DomainMatch(a, host) && DomainMatch(b, host)
    requires |StripDot(a)| <= |StripDot(b)| && !IsAddress(b)
    ensures DomainMatch(a, b)
  {
    var da, db := StripDot(a), StripDot(b);
    TailsNest(da, db, host);
    assert Tail(b, |da|) == Tail(db, |da|);
    if |da| < |db| {
      SameByte(db, host, |db| - |da| - 1);
    }
  }

  function Dots(s: string): nat {
    if s == "" then 0 else Dots(s[1..]) + if s[0] == '.' then 1 else 0
  }

  lemma {:induction false} DotsIn(s: string)
    ensures Dots(s) > 0 <==> '.' in s
  {
    if s != "" {
      DotsIn(s[1..]);
    }
  }

  lemma {:induction false} DotsConcat(s: string, t: string)
    ensures Dots(s + t) == Dots(s) + Dots(t)
  {
    if s == "" {
      assert s + t == t;
    } else {
      DotsConcat(s[1..], t);
      assert (s + t)[1..] == s[1..] + t;
    }
  }

  lemma {:induction false} DotsFold(s: string)
    ensures Dots(Fold(s)) == Dots(s)
  {
    if s != "" {
      DotsFold(s[1..]);
      assert Fold(s)[1..] == Fold(s[1..]);
    }
  }

  /** How the URLs and scope lines of a bundle write an entry: a host alone, or a
      domain with a parent, which is an address only when it has a single dot. */
  predicate IsWritten(entry: string) {
    Exact(entry) || (Dots(entry) >= 1 && entry[0] != '.' && (IsAddress(entry) ==> Dots(entry) == 1))
  }

  /** A domain with a dot and a longer one that both cover a host: the longer has a
      dot more. */
  lemma LongerHasMoreDots(a: string, b: string, host: string)
    requires DomainMatch(a, host) && DomainMatch(b, host) && |a| < |b|
    requires a[0] != '.' && b[0] != '.'
    ensures Dots(b) > Dots(a)
  {
    DotBefore(a, b, host);
    DotMore(a, b);
  }

  lemma DotMore(a: string, b: string)
    requires |a| < |b| && b[|b| - |a| - 1] == '.' && EqualNoCase(a, Tail(b, |a|))
    ensures Dots(b) > Dots(a)
  {
    DotsAbove(b, |b| - |a|);
    SameDots(a, Tail(b, |a|));
  }

  lemma DotBefore(a: string, b: string, host: string)
    requires DomainMatch(a, host) && DomainMatch(b, host) && |a| < |b|
    requires a[0] != '.' && b[0] != '.'
    ensures b[|b| - |a| - 1] == '.' && EqualNoCase(a, Tail(b, |a|))
  {
    TailsNest(a, b, host);
    SameByte(b, host, |b| - |a| - 1);
  }

  lemma DotsAbove(s: string, m: nat)
    requires 0 < m <= |s| && s[m - 1] == '.'
    ensures Dots(s) > Dots(s[m..])
  {
    DotsConcat(s[..m], s[m..]);
    assert s == s[..m] + s[m..];
    DotsIn(s[..m]);
    assert s[..m][m - 1] == '.';
  }

  lemma SameDots(s: string, t: string)
    requires EqualNoCase(s, t)
    ensures Dots(s) == Dots(t)
  {
    DotsFold(s);
    DotsFold(t);
  }

  /** Two written entries that cover a common host overlap. */
  lemma CommonHostOverlaps(a: string, b: string, host: string)
    requires Covers(a, host) && Covers(b, host) && IsWritten(a) && IsWritten(b)
    ensures EntriesOverlap(a, b)
  {
    if !Exact(a) && !Exact(b) {
      if |a| < |b| {
        LongerHasMoreDots(a, b, host);
        ParentMatches(a, b, host);
      } else if |b| < |a| {
        LongerHasMoreDots(b, a, host);
        ParentMatches(b, a, host);
      } else {
        CommonHostExact(a, b, host);
      }
    }
  }

  /** Exactly when: of two domain entries without a leading dot that cover a
      common host, the shorter overlaps the longer if and only if they are as
      long, or the longer is no address. */
  lemma CommonHostExact(a: string, b: string, host: string)
    requires !Exact(a) && !Exact(b) && Covers(a, host) && Covers(b, host)
    requires StripDot(a) == a && StripDot(b) == b && |a| <= |b|
    ensures EntriesOverlap(a, b) <==> |a| == |b| || !IsAddress(b)
  {
    if |a| == |b| {
      TailsNest(a, b, host);
      assert Tail(b, |a|) == b;
    } else if !IsAddress(b) {
      ParentMatches(a, b, host);
    }
  }

  /** Why a written address has a single dot: "1.2.3.4" written as a domain would
      cover x.1.2.3.4 like "3.4", as any address b and a domain a that ends it, and
      neither covers the other. */
  lemma AddressEntriesMiss(a: string, b: string, letter: char)
    requires IsIpv4(b) && 0 < |a| < |b| && a == Tail(b, |a|) && b[|b| - |a| - 1] == '.'
    requires a[0] != '.' && b[0] != '.' && letter != '.' && letter != ':' && !IsDigit(letter)
    ensures Covers(a, [letter, '.'] + b) && Covers(b, [letter, '.'] + b)
    ensures !EntriesOverlap(a, b)
  {
    var host := [letter, '.'] + b;
    assert host[0] == letter && host[1] == '.' && !IsIpv4(host);
    assert forall i :: 0 <= i < |b| ==> host[i + 2] == b[i] != ':';
    assert !IsAddress(host);
    assert a[0] == b[|b| - |a|];
    assert StripDot(a) == a && StripDot(b) == b;
    assert Tail(host, |b|) == b && Tail(host, |a|) == a;
    CommonHostExact(a, b, host);
  }
}
