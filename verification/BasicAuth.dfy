/** The basic-auth credentials of a crawl: an append-only list of URL prefixes,
    searched for the first that starts the request's key. */
module BasicAuth {
  import opened CText
  import opened Wrappers

  const HTS_URLMAXSIZE := 1024
  const CHAIN_FIELD := 1024
  const HTTP := "http://"
  const HTTPS := "https://"

  datatype Entry = Entry(prefix: string, auth: string)

  /** Where a request goes: whether its address says https, and the host and port
      that are left once scheme and identification are skipped. */
  datatype Address = Address(https: bool, host: string)

  /** s up to its last '/', the slash included. */
  function UpToSlash(s: string): (t: string)
    ensures |t| <= |s| && s[..|t|] == t
    ensures t == "" || t[|t| - 1] == '/'
    ensures forall i :: |t| <= i < |s| ==> s[i] != '/'
  {
    if s == "" || s[|s| - 1] == '/' then s else UpToSlash(s[..|s| - 1])
  }

  /** bauth_prefix: scheme, host and path, the query and the last name cut off.
      None when it does not fit its buffer. */
  function Key(https: bool, host: string, fil: string): (key: Option<string>)
    ensures key.Some? ==> StartsWith(key.value, if https then HTTPS else HTTP)
  {
    var scheme := if https then HTTPS else HTTP;
    var used := |scheme| + |host|;
    if used >= HTS_URLMAXSIZE * 2 || |fil| >= HTS_URLMAXSIZE * 2 - used then None
    else
      var whole := scheme + host + fil;
      var bare := whole[..Find(whole, '?')];
      SchemeKept(scheme, whole);
      Some(UpToSlash(bare))
  }

  lemma SchemeKept(scheme: string, whole: string)
    requires scheme == HTTP || scheme == HTTPS
    requires StartsWith(whole, scheme)
    ensures StartsWith(UpToSlash(whole[..Find(whole, '?')]), scheme)
  {
    var bare := whole[..Find(whole, '?')];
    var q := |scheme| - 1;
    assert forall i :: 0 <= i < |scheme| ==> whole[i] == whole[..|scheme|][i] == scheme[i];
    assert scheme[q] == '/' && |bare| >= |scheme|;
    assert bare[q] == '/';
    assert |UpToSlash(bare)| >= |scheme|;
  }

  /** Is key the longest start of url that ends in a slash and has no query in it? */
  ghost predicate IsDirectory(url: string, key: string) {
    && StartsWith(url, key) && '?' !in key && key != "" && key[|key| - 1] == '/'
    && forall n :: |key| < n <= |url| && url[n - 1] == '/' ==> '?' in url[..n]
  }

  /** A key is the directory of the URL, which names scheme and host, and there is one
      exactly when the URL is shorter than 2048 bytes. */
  lemma KeyExactly(https: bool, host: string, fil: string)
    ensures var url := (if https then "https://" else "http://") + host + fil;
            && (Key(https, host, fil).Some? <==> |url| < 2048)
            && (Key(https, host, fil).Some? ==> IsDirectory(url, Key(https, host, fil).value))
  {
    var url := (if https then HTTPS else HTTP) + host + fil;
    if Key(https, host, fil).Some? {
      var key, q := Key(https, host, fil).value, Find(url, '?');
      var bare := url[..q];
      assert StartsWith(key, if https then HTTPS else HTTP);
      assert key == bare[..|key|] == url[..|key|];
      forall n | |key| < n <= |url| && url[n - 1] == '/' ensures '?' in url[..n] {
        if n > q {
          assert url[..n][q] == '?';
        }
      }
    }
  }

  /** Does the entry answer for key? An empty prefix answers for none. */
  predicate Answers(e: Entry, key: string) {
    e.prefix != "" && StartsWith(key, e.prefix)
  }

  /** bauth_find: the place of the first entry that answers, or -1. */
  function FindFirst(chain: seq<Entry>, key: string): (i: int)
    ensures -1 <= i < |chain|
    ensures i >= 0 ==> Answers(chain[i], key)
    ensures forall j :: 0 <= j < (if i < 0 then |chain| else i) ==> !Answers(chain[j], key)
  {
    if chain == [] then -1
    else if Answers(chain[0], key) then 0
    else
      var i := FindFirst(chain[1..], key);
      if i < 0 then -1 else i + 1
  }

  /** bauth_add. oom says that the new node gets no memory. */
  function Add(chain: seq<Entry>, at: Address, fil: string, auth: string, oom: bool): Option<seq<Entry>> {
    match Key(at.https, at.host, fil)
    case None => None
    case Some(prefix) =>
      if FindFirst(chain, prefix) >= 0 || |prefix| >= CHAIN_FIELD || |auth| >= CHAIN_FIELD || oom then None
      else Some(chain + [Entry(prefix, auth)])
  }

  /** bauth_check: the credentials for a request, None when there are none. A
      login learned over http may follow a redirect to https. */
  function Check(chain: seq<Entry>, at: Address, fil: string): Option<Entry> {
    match Key(at.https, at.host, fil)
    case None => None
    case Some(key) =>
      var i := FindFirst(chain, key);
      if i >= 0 then Some(chain[i])
      else if !at.https then None
      else match Key(false, at.host, fil)
           case None => None
           case Some(plain) =>
             var j := FindFirst(chain, plain);
             if j >= 0 then Some(chain[j]) else None
  }

  // ---- what every list satisfies ----

  datatype Login = Login(at: Address, fil: string, auth: string, oom: bool)

  function Logins(logins: seq<Login>): seq<Entry> {
    if logins == [] then []
    else
      var chain, l := Logins(logins[..|logins| - 1]), logins[|logins| - 1];
      Add(chain, l.at, l.fil, l.auth, l.oom).GetOr(chain)
  }

  /** Every prefix carries its scheme, and none starts a later one. */
  ghost predicate ChainOk(chain: seq<Entry>) {
    && (forall i :: 0 <= i < |chain| ==> StartsWith(chain[i].prefix, HTTP) || StartsWith(chain[i].prefix, HTTPS))
    && forall i, j :: 0 <= i < j < |chain| ==> !StartsWith(chain[j].prefix, chain[i].prefix)
  }

  lemma {:induction false} LoginsOk(logins: seq<Login>)
    ensures ChainOk(Logins(logins))
  {
    if logins != [] {
      var chain, l := Logins(logins[..|logins| - 1]), logins[|logins| - 1];
      LoginsOk(logins[..|logins| - 1]);
      var next := Add(chain, l.at, l.fil, l.auth, l.oom);
      if next.Some? {
        var prefix := Key(l.at.https, l.at.host, l.fil).value;
        forall i | 0 <= i < |chain|
          ensures !StartsWith(prefix, chain[i].prefix)
        {
          assert !Answers(chain[i], prefix);
        }
      }
    }
  }

  /** The first entry that answers is the longest one that does. */
  lemma FirstIsLongest(chain: seq<Entry>, key: string, j: nat)
    requires ChainOk(chain) && j < |chain| && Answers(chain[j], key)
    ensures var i := FindFirst(chain, key);
            i >= 0 && (j != i ==> |chain[j].prefix| < |chain[i].prefix|)
  {
    var i := FindFirst(chain, key);
    if |chain[j].prefix| >= |chain[i].prefix| {
      ShorterStarts(chain[i].prefix, chain[j].prefix, key);
    }
  }

  lemma ShorterStarts(p: string, q: string, key: string)
    requires StartsWith(key, p) && StartsWith(key, q) && |p| <= |q|
    ensures StartsWith(q, p)
  {
    assert q[..|p|] == key[..|q|][..|p|];
  }

  /** An entry learned over https is never given for an http address. */
  lemma HttpsStaysSecret(chain: seq<Entry>, at: Address, fil: string)
    requires ChainOk(chain) && !at.https && Check(chain, at, fil).Some?
    ensures StartsWith(Check(chain, at, fil).value.prefix, HTTP)
  {
    var key := Key(false, at.host, fil).value;
    var e := Check(chain, at, fil).value;
    assert StartsWith(key, e.prefix) && |e.prefix| >= 7;
    assert e.prefix[4] == key[..|e.prefix|][4] == key[4];
    FifthByte(key, HTTP);
    if StartsWith(e.prefix, HTTPS) {
      FifthByte(e.prefix, HTTPS);
    }
  }

  lemma FifthByte(s: string, scheme: string)
    requires StartsWith(s, scheme) && |scheme| > 4
    ensures s[4] == scheme[4]
  {
    assert s[..|scheme|][4] == s[4];
  }

  /** A login that is stored is the one its own key finds, and no login changes
      the answer to a key that had one. */
  lemma AddAnswers(chain: seq<Entry>, l: Login, key: string)
    requires Add(chain, l.at, l.fil, l.auth, l.oom).Some?
    ensures var next := Add(chain, l.at, l.fil, l.auth, l.oom).value;
            && FindFirst(next, Key(l.at.https, l.at.host, l.fil).value) == |chain|
            && next[|chain|].auth == l.auth
            && (FindFirst(chain, key) >= 0 ==> FindFirst(next, key) == FindFirst(chain, key))
  {
    var next := Add(chain, l.at, l.fil, l.auth, l.oom).value;
    FindSnoc(chain, next[|chain|], Key(l.at.https, l.at.host, l.fil).value);
    FindSnoc(chain, next[|chain|], key);
  }

  /** A host as an address has it, and a path as a request has it. */
  predicate IsPlace(host: string, fil: string) {
    '/' !in host && '?' !in host && fil != "" && fil[0] == '/'
  }

  lemma KeyHasHost(https: bool, host: string, fil: string)
    requires IsPlace(host, fil) && Key(https, host, fil).Some?
    ensures StartsWith(Key(https, host, fil).value, (if https then HTTPS else HTTP) + host + "/")
  {
    var scheme := if https then HTTPS else HTTP;
    var url, key, n := scheme + host + fil, Key(https, host, fil).value, |scheme| + |host| + 1;
    KeyExactly(https, host, fil);
    assert url[..n] == scheme + host + "/";
    assert '?' !in scheme;
    assert '?' !in url[..n];
    assert url[n - 1] == '/';
    assert key == url[..|key|] && |key| >= n;
    assert key[..n] == url[..n];
  }

  lemma SameStart(scheme: string, a: string, b: string, key: string)
    requires '/' !in a && '/' !in b
    requires StartsWith(key, scheme + a + "/") && StartsWith(key, scheme + b + "/")
    ensures a == b
  {
    var n := |scheme|;
    assert forall i :: 0 <= i < |a| ==> key[n + i] == (scheme + a + "/")[n + i] == a[i];
    assert forall i :: 0 <= i < |b| ==> key[n + i] == (scheme + b + "/")[n + i] == b[i];
    assert key[n + |a|] == (scheme + a + "/")[n + |a|] == '/';
    assert key[n + |b|] == (scheme + b + "/")[n + |b|] == '/';
    assert |a| == |b|;
    assert a == b;
  }

  /** Is e what the login l put into the list? */
  predicate IsOf(e: Entry, l: Login) {
    Key(l.at.https, l.at.host, l.fil) == Some(e.prefix) && e.auth == l.auth
  }

  /** A login answers for no other host than its own. */
  lemma HostStays(e: Entry, l: Login, https: bool, host: string, fil: string)
    requires IsPlace(l.at.host, l.fil) && IsPlace(host, fil) && IsOf(e, l)
    requires Key(https, host, fil).Some? && Answers(e, Key(https, host, fil).value)
    ensures host == l.at.host && https == l.at.https
  {
    var prefix, key := e.prefix, Key(https, host, fil).value;
    KeyHasHost(l.at.https, l.at.host, l.fil);
    KeyHasHost(https, host, fil);
    var own := (if l.at.https then HTTPS else HTTP) + l.at.host + "/";
    assert key[..|own|] == prefix[..|own|] == own;
    SchemesDiffer(l.at.https, https, key, own);
    SameStart(if https then HTTPS else HTTP, host, l.at.host, key);
  }

  lemma SchemesDiffer(a: bool, b: bool, key: string, own: string)
    requires StartsWith(key, if b then HTTPS else HTTP) && StartsWith(key, own)
    requires StartsWith(own, if a then HTTPS else HTTP)
    ensures a == b
  {
    FifthByte(key, own);
    FifthByte(own, if a then HTTPS else HTTP);
    FifthByte(key, if b then HTTPS else HTTP);
  }

  lemma {:induction false} EntryIsOf(logins: seq<Login>, i: nat)
    requires i < |Logins(logins)|
    ensures exists l :: l in logins && IsOf(Logins(logins)[i], l)
  {
    var before, l := logins[..|logins| - 1], logins[|logins| - 1];
    assert l in logins;
    if i < |Logins(before)| {
      EntryIsOf(before, i);
      var m :| m in before && IsOf(Logins(before)[i], m);
      assert m in logins;
    }
  }

  /** What a request is given is a login that the crawl learned on the request's own
      host, over the same scheme or over http. */
  lemma GivenOnOwnHost(logins: seq<Login>, at: Address, fil: string)
    requires IsPlace(at.host, fil) && forall l :: l in logins ==> IsPlace(l.at.host, l.fil)
    ensures var given := Check(Logins(logins), at, fil);
            given.Some? ==> exists l :: l in logins && IsOf(given.value, l) && l.at.host == at.host
                                        && (l.at.https ==> at.https)
  {
    var chain := Logins(logins);
    var given := Check(chain, at, fil);
    if given.Some? {
      var key := Key(at.https, at.host, fil).value;
      var own := FindFirst(chain, key) >= 0;
      var https := at.https && own;
      var i := FindFirst(chain, Key(https, at.host, fil).value);
      EntryIsOf(logins, i);
      var l :| l in logins && IsOf(chain[i], l);
      HostStays(chain[i], l, https, at.host, fil);
    }
  }

  /** Does any entry of the list start this key? */
  ghost predicate HasAnswer(chain: seq<Entry>, key: string) {
    exists i :: 0 <= i < |chain| && chain[i].prefix != "" && StartsWith(key, chain[i].prefix)
  }

  lemma FindsAnswer(chain: seq<Entry>, key: string)
    ensures FindFirst(chain, key) >= 0 <==> HasAnswer(chain, key)
  {
  }

  /** The entry given for a key starts it, and no other that does is as long. */
  ghost predicate IsAnswer(chain: seq<Entry>, key: string, e: Entry) {
    exists i :: 0 <= i < |chain| && chain[i] == e && IsBest(chain, key, i)
  }

  ghost predicate IsBest(chain: seq<Entry>, key: string, i: nat)
    requires i < |chain|
  {
    && chain[i].prefix != "" && StartsWith(key, chain[i].prefix)
    && forall j :: 0 <= j < |chain| && j != i && chain[j].prefix != "" && StartsWith(key, chain[j].prefix) ==>
         |chain[j].prefix| < |chain[i].prefix|
  }

  lemma FindsBest(chain: seq<Entry>, key: string)
    requires ChainOk(chain) && HasAnswer(chain, key)
    ensures var i := FindFirst(chain, key); i >= 0 && IsBest(chain, key, i)
  {
    var i := FindFirst(chain, key);
    forall j | 0 <= j < |chain| && j != i && Answers(chain[j], key)
      ensures |chain[j].prefix| < |chain[i].prefix|
    {
      FirstIsLongest(chain, key, j);
    }
  }

  /** A request is given the best answer to its own key; over https, where there is none,
      the best answer to its key over http. */
  lemma CheckExactly(chain: seq<Entry>, at: Address, fil: string)
    requires ChainOk(chain)
    ensures var key, plain, given := Key(at.https, at.host, fil), Key(false, at.host, fil), Check(chain, at, fil);
            if key.Some? && HasAnswer(chain, key.value) then
              given.Some? && IsAnswer(chain, key.value, given.value)
            else if key.Some? && at.https && plain.Some? && HasAnswer(chain, plain.value) then
              given.Some? && IsAnswer(chain, plain.value, given.value)
            else given == None
  {
    var key, plain := Key(at.https, at.host, fil), Key(false, at.host, fil);
    if key.Some? {
      FindsAnswer(chain, key.value);
      if HasAnswer(chain, key.value) {
        FindsBest(chain, key.value);
      }
      if plain.Some? {
        FindsAnswer(chain, plain.value);
        if HasAnswer(chain, plain.value) {
          FindsBest(chain, plain.value);
        }
      }
    }
  }

  /** A login is stored exactly when it has a key that no entry answers, key and
      credentials fit their fields, and there is memory; it goes last. */
  lemma AddExactly(chain: seq<Entry>, at: Address, fil: string, auth: string, oom: bool)
    ensures var key, next := Key(at.https, at.host, fil), Add(chain, at, fil, auth, oom);
            && (next.Some?
                <==> key.Some? && !HasAnswer(chain, key.value) && |key.value| < 1024 && |auth| < 1024 && !oom)
            && (next.Some? ==> next.value == chain + [Entry(key.value, auth)])
  {
    if Key(at.https, at.host, fil).Some? {
      FindsAnswer(chain, Key(at.https, at.host, fil).value);
    }
  }

  lemma {:induction false} FindSnoc(chain: seq<Entry>, e: Entry, key: string)
    ensures FindFirst(chain + [e], key)
         == if FindFirst(chain, key) >= 0 then FindFirst(chain, key) else if Answers(e, key) then |chain| else -1
  {
    if chain != [] {
      FindSnoc(chain[1..], e, key);
      assert (chain + [e])[1..] == chain[1..] + [e];
    }
  }

  // ---- the list itself ----

  class Credentials {
    /** The chain past its embedded head, whose prefix is empty. */
    var chain: seq<Entry>

    constructor ()
      ensures chain == []
    {
      chain := [];
    }

    /** The loop of bauth_find, which returns the credentials. */
    method Find(key: string) returns (auth: Option<string>)
      ensures var i := FindFirst(chain, key);
              auth == if i < 0 then None else Some(chain[i].auth)
    {
      var i := 0;
      while i < |chain|
        invariant i <= |chain|
        invariant forall j :: 0 <= j < i ==> !Answers(chain[j], key)
      {
        if chain[i].prefix != "" && StartsWith(key, chain[i].prefix) {
          FirstIs(chain, key, i);
          return Some(chain[i].auth);
        }
        i := i + 1;
      }
      auth := None;
    }

    static lemma FirstIs(chain: seq<Entry>, key: string, i: nat)
      requires i < |chain| && Answers(chain[i], key)
      requires forall j :: 0 <= j < i ==> !Answers(chain[j], key)
      ensures FindFirst(chain, key) == i
    {
    }

    method Learn(at: Address, fil: string, auth: string, oom: bool) returns (stored: bool)
      modifies this
      ensures stored == Add(old(chain), at, fil, auth, oom).Some?
      ensures chain == Add(old(chain), at, fil, auth, oom).GetOr(old(chain))
    {
      var prefix := Key(at.https, at.host, fil);
      if prefix.None? {
        return false;
      }
      var known := Find(prefix.value);
      if known.Some? || |prefix.value| >= CHAIN_FIELD || |auth| >= CHAIN_FIELD || oom {
        return false;
      }
      chain := chain + [Entry(prefix.value, auth)];
      stored := true;
    }

    method Lookup(at: Address, fil: string) returns (auth: Option<string>)
      ensures auth == match Check(chain, at, fil) case None => None case Some(e) => Some(e.auth)
    {
      var key := Key(at.https, at.host, fil);
      if key.None? {
        return None;
      }
      auth := Find(key.value);
      if auth.None? && at.https {
        var plain := Key(false, at.host, fil);
        if plain.Some? {
          auth := Find(plain.value);
        }
      }
    }
  }
}
