/** The scope entries that a bundle's URLs and scope lines write, and the lookup in the
    public suffix list behind them. */
module PublicSuffix {
  import opened Wrappers
  import opened Scope

  const MAX_LABELS := 128
  const COOKIE_MAX_DOMAIN := 256

  /** The rules that a list has for one name: "x", "*.x" and "!x". */
  datatype Rule = Rule(exact: bool, wildcard: bool, exception: bool)

  const NO_RULE := Rule(false, false, false)

  /** The list, and the conversion of a name to its ASCII form. */
  datatype World = World(rules: string -> Rule, ascii: string -> Option<string>)

  // ---- labels ----

  predicate IsStart(host: string, p: nat)
    requires p <= |host|
  {
    p == 0 || host[p - 1] == '.'
  }

  /** Where the labels from p on start, the last one first; None for an empty label
      or too many. */
  function LabelsFrom(host: string, p: nat): (labels: Option<seq<string>>)
    requires p <= |host|
    decreases |host| - p
  {
    var later := if p == |host| then Some([]) else LabelsFrom(host, p + 1);
    if later == None || !IsStart(host, p) then later
    else if p == |host| || host[p] == '.' || |later.value| == MAX_LABELS then None
    else Some(later.value + [host[p..]])
  }

  /** psl_labels: the k-th is the last k + 1 labels of host; none for a bad host. */
  function Labels(host: string): seq<string> {
    if host == "" then [] else LabelsFrom(host, 0).GetOr([])
  }

  // ---- the suffix ----

  predicate IsSuffixRule(w: World, keys: seq<string>, k: nat)
    requires k < |keys|
  {
    w.rules(keys[k]).exact || w.rules(keys[k]).wildcard || (k > 0 && w.rules(keys[k - 1]).wildcard)
  }

  /** The last of the first n keys that is a suffix, plus one; 1 for none. */
  function LastSuffix(w: World, keys: seq<string>, n: nat): (s: nat)
    requires n <= |keys|
    ensures s == 1 || (1 < s <= n && IsSuffixRule(w, keys, s - 1))
  {
    if n == 0 then 1 else if IsSuffixRule(w, keys, n - 1) then n else LastSuffix(w, keys, n - 1)
  }

  function LastException(w: World, keys: seq<string>, n: nat): (e: nat)
    requires n <= |keys|
    ensures e <= n && (e > 0 ==> w.rules(keys[e - 1]).exception)
  {
    if n == 0 then 0 else if w.rules(keys[n - 1]).exception then n else LastException(w, keys, n - 1)
  }

  /** psl_suffix: how many labels form the public suffix. */
  function SuffixLength(w: World, keys: seq<string>): nat {
    var e := LastException(w, keys, |keys|);
    if e != 0 then e - 1 else LastSuffix(w, keys, |keys|)
  }

  /** hts_psl_registrable_domain. */
  function Registrable(w: World, host: string): Option<string> {
    var labels := Labels(host);
    var keys := match w.ascii(host) case Some(a) => Labels(a) case None => [];
    if labels == [] || |keys| != |labels| then None
    else
      var s := SuffixLength(w, keys);
      if s < |labels| then Some(labels[s]) else None
  }

  /** The public suffix that the rules give a host. The longest exception decides, and
      leaves its first label out; else the longest rule, or "*.x" for x itself; and
      one label without any. */
  lemma SuffixExactly(w: World, keys: seq<string>)
    ensures var s := SuffixLength(w, keys);
            if exists k :: 0 <= k < |keys| && w.rules(keys[k]).exception then
              s < |keys| && w.rules(keys[s]).exception && forall k :: s < k < |keys| ==> !w.rules(keys[k]).exception
            else
              && 1 <= s && (s == 1 || (s <= |keys| && IsSuffixRule(w, keys, s - 1)))
              && forall k :: s <= k < |keys| ==> !IsSuffixRule(w, keys, k)
  {
    ExceptionIsLast(w, keys, |keys|);
    SuffixIsLast(w, keys, |keys|);
  }

  lemma {:induction false} ExceptionIsLast(w: World, keys: seq<string>, n: nat)
    requires n <= |keys|
    ensures forall k :: LastException(w, keys, n) <= k < n ==> !w.rules(keys[k]).exception
  {
    if n > 0 && !w.rules(keys[n - 1]).exception {
      ExceptionIsLast(w, keys, n - 1);
    }
  }

  lemma {:induction false} SuffixIsLast(w: World, keys: seq<string>, n: nat)
    requires n <= |keys|
    ensures forall k :: LastSuffix(w, keys, n) <= k < n ==> !IsSuffixRule(w, keys, k)
  {
    if n > 0 && !IsSuffixRule(w, keys, n - 1) {
      SuffixIsLast(w, keys, n - 1);
    }
  }

  // ---- entries ----

  /** bundle_note_url: what a URL on host adds to the home, and to the scope when no
      scope line was given. */
  function UrlEntry(w: World, host: string): string {
    if IsAddress(host) then "=" + host
    else match Registrable(w, host)
      case Some(domain) => domain
      case None => "=" + host
  }

  predicate IsScopeByte(c: char) {
    'a' <= c <= 'z' || 'A' <= c <= 'Z' || '0' <= c <= '9' || c == '.' || c == '-'
  }

  /** A name without one leading dot. */
  function Bare(value: string): string {
    if value != "" && value[0] == '.' then value[1..] else value
  }

  function Lower(s: string): (t: string)
    ensures |t| == |s|
  {
    if s == "" then "" else [if 'A' <= s[0] <= 'Z' then (s[0] as int + 32) as char else s[0]] + Lower(s[1..])
  }

  /** bundle_scope_entry: what a scope line adds; None when it is refused. */
  function LineEntry(w: World, value: string): Option<string> {
    var name := Bare(value);
    if name == "" || |name| >= COOKIE_MAX_DOMAIN || exists i | 0 <= i < |name| :: !IsScopeByte(name[i]) then None
    else
      var dom := Lower(name);
      if IsAddress(dom) then Some("=" + dom)
      else if Registrable(w, dom).Some? then Some(dom)
      else None
  }

  // ---- what they look like ----

  /** Digits and dots: a name no rule of the list is for. */
  predicate IsNumeric(s: string) {
    forall i :: 0 <= i < |s| ==> s[i] == '.' || '0' <= s[i] <= '9'
  }

  /** What is asked of the list and the conversion: no rule is for a number, an
      exception has a parent, and the conversion leaves numbers alone. */
  ghost predicate ListOk(w: World) {
    && (forall key :: IsNumeric(key) ==> w.rules(key) == NO_RULE)
    && (forall key :: w.rules(key).exception ==> '.' in key)
    && (forall host :: w.ascii(host).Some? ==> SameNumbers(Labels(host), Labels(w.ascii(host).value)))
  }

  ghost predicate SameNumbers(labels: seq<string>, keys: seq<string>) {
    |labels| == |keys| ==> forall k :: 0 <= k < |labels| && IsNumeric(labels[k]) ==> keys[k] == labels[k]
  }

  /** The k-th tail of host holds k dots and opens with a label. */
  ghost predicate IsTail(host: string, tail: string, k: nat) {
    0 < |tail| <= |host| && tail == Tail(host, |tail|) && tail[0] != '.' && Dots(tail) == k
  }

  lemma {:induction false} LabelsFromAre(host: string, p: nat)
    requires p <= |host| && LabelsFrom(host, p).Some?
    ensures var labels := LabelsFrom(host, p).value;
            && (forall k :: 0 <= k < |labels| ==> IsTail(host, labels[k], k))
            && |labels| == Dots(host[p..]) + (if IsStart(host, p) then 1 else 0)
            && (forall k :: 0 <= k < |labels| ==> |labels[k]| <= |host| - p)
            && forall j, k :: 0 <= j < k < |labels| ==> |labels[j]| < |labels[k]|
    decreases |host| - p
  {
    if p < |host| {
      LabelsFromAre(host, p + 1);
      assert host[p..][1..] == host[p + 1..];
    }
  }

  /** The labels of a host: the k-th holds k dots, and they grow. */
  ghost predicate AreTails(host: string, labels: seq<string>) {
    && (forall k :: 0 <= k < |labels| ==> IsTail(host, labels[k], k))
    && forall j, k :: 0 <= j < k < |labels| ==> |labels[j]| < |labels[k]|
  }

  lemma LabelsAre(host: string)
    ensures AreTails(host, Labels(host))
  {
    if host != "" && LabelsFrom(host, 0).Some? {
      LabelsFromAre(host, 0);
    }
  }

  /** A shorter tail of a number is a number, and has no rule. */
  lemma NumbersHaveNoRule(w: World, host: string, labels: seq<string>, keys: seq<string>, s: nat, k: nat)
    requires ListOk(w) && SameNumbers(labels, keys) && |labels| == |keys| && k <= s < |labels|
    requires AreTails(host, labels) && IsNumeric(labels[s])
    ensures w.rules(keys[k]) == NO_RULE
  {
    var a, b := labels[k], labels[s];
    assert IsTail(host, a, k) && IsTail(host, b, s);
    assert forall i :: 0 <= i < |a| ==> a[i] == b[|b| - |a| + i];
  }

  lemma HasParent(w: World, ascii: string, keys: seq<string>)
    requires ListOk(w) && AreTails(ascii, keys)
    ensures SuffixLength(w, keys) >= 1
  {
    var e := LastException(w, keys, |keys|);
    if e != 0 {
      DotsIn(keys[e - 1]);
      assert IsTail(ascii, keys[e - 1], e - 1);
    }
  }

  lemma NumbersHaveOneDot(w: World, host: string, labels: seq<string>, keys: seq<string>)
    requires ListOk(w) && SameNumbers(labels, keys) && |labels| == |keys| && AreTails(host, labels)
    requires SuffixLength(w, keys) < |labels| && IsNumeric(labels[SuffixLength(w, keys)])
    ensures SuffixLength(w, keys) == 1
  {
    var s := SuffixLength(w, keys);
    NumbersHaveNoRule(w, host, labels, keys, s, s);
    if s > 1 {
      NumbersHaveNoRule(w, host, labels, keys, s, s - 1);
    }
  }

  /** A domain that ends host, has a parent, and is a number only with one dot. */
  predicate IsDomainOf(host: string, d: string) {
    && 0 < |d| <= |host| && d == Tail(host, |d|) && d[0] != '.'
    && Dots(d) >= 1 && (IsNumeric(d) ==> Dots(d) == 1)
  }

  lemma RegistrableShape(w: World, host: string)
    requires ListOk(w) && Registrable(w, host).Some?
    ensures IsDomainOf(host, Registrable(w, host).value)
  {
    var labels, keys := Labels(host), Labels(w.ascii(host).value);
    var s := SuffixLength(w, keys);
    LabelsAre(host);
    LabelsAre(w.ascii(host).value);
    HasParent(w, w.ascii(host).value, keys);
    assert IsTail(host, labels[s], s);
    if IsNumeric(labels[s]) {
      NumbersHaveOneDot(w, host, labels, keys);
    }
  }

  lemma AddressIsNumeric(s: string)
    requires IsIpv4(s)
    ensures IsNumeric(s)
  {
  }

  /** Every entry of a home, and of a scope without scope lines, is a written one. */
  lemma UrlEntryIsWritten(w: World, host: string)
    requires ListOk(w)
    ensures IsWritten(UrlEntry(w, host))
  {
    if !IsAddress(host) && Registrable(w, host).Some? {
      RegistrableShape(w, host);
      var d := Registrable(w, host).value;
      assert ':' !in d;
      if IsIpv4(d) {
        AddressIsNumeric(d);
      }
    }
  }

  /** So is every entry of a scope line. */
  lemma LineEntryIsWritten(w: World, value: string)
    requires ListOk(w) && LineEntry(w, value).Some?
    ensures IsWritten(LineEntry(w, value).value)
  {
    var name := Bare(value);
    var dom := Lower(name);
    if !IsAddress(dom) {
      RegistrableShape(w, dom);
      var d := Registrable(w, dom).value;
      DotsConcat(dom[..|dom| - |d|], d);
      assert dom == dom[..|dom| - |d|] + d;
      assert LabelsFrom(dom, 0).Some?;
    }
  }

  // ---- what they cover ----

  /** A tail of host that starts with a label. */
  predicate StartsLabel(host: string, tail: string) {
    && 0 < |tail| <= |host| && tail == Tail(host, |tail|) && tail[0] != '.'
    && (|tail| == |host| || host[|host| - |tail| - 1] == '.')
  }

  lemma {:induction false} LabelsFromStart(host: string, p: nat)
    requires p <= |host| && LabelsFrom(host, p).Some?
    ensures var labels := LabelsFrom(host, p).value;
            forall k :: 0 <= k < |labels| ==> StartsLabel(host, labels[k])
    decreases |host| - p
  {
    if p < |host| {
      LabelsFromStart(host, p + 1);
    }
  }

  lemma LabelCovers(d: string, host: string)
    requires StartsLabel(host, d) && (d == host || !IsAddress(host))
    ensures DomainMatch(d, host)
  {
  }

  /** The registrable domain of a host covers it. */
  lemma RegistrableCovers(w: World, host: string)
    requires !IsAddress(host) && Registrable(w, host).Some?
    ensures DomainMatch(Registrable(w, host).value, host)
  {
    LabelsFromStart(host, 0);
    LabelCovers(Registrable(w, host).value, host);
  }

  /** A URL's entry covers its own host, and every host of the same registrable domain. */
  lemma UrlEntryCovers(w: World, host: string, other: string)
    requires host == other || (!IsAddress(host) && !IsAddress(other) && Registrable(w, host).Some?
                               && Registrable(w, other) == Registrable(w, host))
    requires Registrable(w, host).Some? ==> !Exact(Registrable(w, host).value)
    ensures Covers(UrlEntry(w, host), other)
  {
    if !IsAddress(other) && Registrable(w, other).Some? {
      RegistrableCovers(w, other);
    } else {
      assert ("=" + host)[1..] == host;
    }
  }

  /** The host that a scope line names: one leading dot dropped, in lower case. */
  function Named(value: string): string {
    Lower(Bare(value))
  }

  lemma LineEntryNames(w: World, value: string)
    requires LineEntry(w, value).Some? && !IsAddress(Named(value))
    ensures LineEntry(w, value) == Some(Named(value)) && Named(value) != ""
    ensures Named(value)[0] != '.' && Named(value)[0] != '='
  {
    var bare, name := Bare(value), Named(value);
    assert IsScopeByte(bare[0]);
    assert Registrable(w, name).Some? && LabelsFrom(name, 0).Some?;
  }

  /** Its entry covers that host, and if it is no address every host below. */
  lemma LineEntryCovers(w: World, value: string, sub: string)
    requires LineEntry(w, value).Some?
    ensures var name := Named(value);
            && Covers(LineEntry(w, value).value, name)
            && (!IsAddress(name) && !IsAddress(sub + "." + name) ==>
                  Covers(LineEntry(w, value).value, sub + "." + name))
  {
    var name := Named(value);
    if IsAddress(name) {
      assert ("=" + name)[1..] == name;
    } else {
      LineEntryNames(w, value);
      var below := sub + "." + name;
      assert Tail(below, |name|) == name && Tail(name, |name|) == name && below[|sub|] == '.';
    }
  }
}
