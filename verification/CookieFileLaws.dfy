/** What a printed line is, and what it is read as. */
module CookieFileLaws {
  import opened CText
  import opened CookieText
  import opened Wrappers
  import opened CookieStore
  import opened CookieFile

  // ---- the printed form of a line ----

  /** A line's first TAB, and what is on either side of it. */
  ghost predicate TabAt(line: string, first: string, rest: string) {
    Find(line, '\t') == |first| < |line| && line[..|first| + 1] == first + "\t" && line[|first| + 1..] == rest
  }

  lemma NextTab(fields: seq<string>)
    requires fields != [] && CleanFields(fields)
    ensures |fields| == 1 ==> Join(fields) == fields[0] && Find(Join(fields), '\t') == |fields[0]|
    ensures |fields| > 1 ==> TabAt(Join(fields), fields[0], Join(fields[1..])) && CleanFields(fields[1..])
  {
    SplitFirst(fields);
    FirstTab(fields);
  }

  lemma HasTabNext(line: string, first: string, rest: string, k: nat)
    requires TabAt(line, first, rest) && k > 0
    ensures HasTab(line, k) == HasTab(rest, k - 1)
    ensures UpToTab(line, k) == if k == 1 then first else first + "\t" + UpToTab(rest, k - 1)
  {
    assert line[..|first| + 1][..|first|] == first;
  }

  lemma NoTabLeft(line: string, k: nat)
    requires Find(line, '\t') == |line|
    ensures HasTab(line, k) <==> k == 0
  {
  }

  lemma JoinTabs(fields: seq<string>, k: nat)
    requires fields != [] && CleanFields(fields) && k > 0
    ensures |fields| == 1 ==> !HasTab(Join(fields), k)
    ensures |fields| > 1 ==> HasTab(Join(fields), k) == HasTab(Join(fields[1..]), k - 1) && CleanFields(fields[1..])
  {
    NextTab(fields);
    if |fields| == 1 {
      NoTabLeft(Join(fields), k);
    } else {
      HasTabNext(Join(fields), fields[0], Join(fields[1..]), k);
    }
  }

  lemma {:induction false} TabsOfJoin(fields: seq<string>, k: nat)
    requires fields != [] && CleanFields(fields)
    ensures HasTab(Join(fields), k) <==> k < |fields|
  {
    if k > 0 {
      JoinTabs(fields, k);
      if |fields| > 1 {
        TabsOfJoin(fields[1..], k - 1);
      }
    }
  }

  lemma {:induction false} FieldsOfJoin(fields: seq<string>, k: nat)
    requires 0 < k <= |fields| && CleanFields(fields)
    ensures UpToTab(Join(fields), k) == Join(fields[..k])
  {
    NextTab(fields);
    if |fields| > 1 {
      HasTabNext(Join(fields), fields[0], Join(fields[1..]), k);
    }
    if k == 1 {
      assert fields[..1] == [fields[0]];
    } else {
      FieldsOfJoin(fields[1..], k - 1);
      JoinPrefix(fields, k);
    }
  }

  lemma JoinPrefix(fields: seq<string>, k: nat)
    requires 1 < k <= |fields|
    ensures Join(fields[..k]) == fields[0] + "\t" + Join(fields[1..][..k - 1])
  {
    assert fields[..k][1..] == fields[1..][..k - 1];
  }

  lemma FirstTab(fields: seq<string>)
    requires fields != [] && CleanFields(fields)
    ensures Find(Join(fields), '\t') == |fields[0]|
    ensures |fields[0]| < |Join(fields)| <==> |fields| > 1
    ensures |fields| > 1 ==> Join(fields)[..|fields[0]| + 1] == fields[0] + "\t"
  {
    assert Clean(fields[0]);
    FindIs(Join(fields), '\t', |fields[0]|);
  }

  lemma FlagReads(line: string, r: Rec, fields: seq<string>)
    requires CleanFields(fields) && line == Join(fields) && |fields| >= 4
    requires fields[1] == Flag(!r.hostOnly) && fields[3] == Flag(r.secure)
    ensures IsHostOnly(line) == r.hostOnly && IsSecure(line) == r.secure
  {
    JoinField(fields, 1);
    JoinField(fields, 3);
  }

  lemma StripJoin(domain: string, dot: string, rest: seq<string>)
    requires domain != "" && rest != []
    ensures dot + StripDot(Join([domain] + rest)) == Join([dot + StripDot(domain)] + rest)
  {
    assert ([domain] + rest)[1..] == rest && ([dot + StripDot(domain)] + rest)[1..] == rest;
  }

  /** cookie_records_text writes each record in its printed form. */
  lemma PrintsRecord(r: Rec)
    requires Storable(r)
    ensures PrintLine(Join(Fields(r))) == PrintedLine(r)
  {
    var fields := Fields(r);
    FieldsClean(r);
    SevenFields(r);
    TabsOfJoin(fields, 7);
    FieldsOfJoin(fields, 7);
    var seven := fields[..7];
    FlagReads(Join(seven), r, seven);
    PrintsSeven(r, seven);
    PrintsRest(Join(fields), Join(seven), r);
  }

  lemma PrintsSeven(r: Rec, seven: seq<string>)
    requires r.domain != "" && seven == [r.domain] + PrintedFields(r)[1..]
    ensures (if r.hostOnly then "" else ".") + StripDot(Join(seven)) == Join(PrintedFields(r))
  {
    var rest := PrintedFields(r)[1..];
    var dot := if r.hostOnly then "" else ".";
    StripJoin(r.domain, dot, rest);
    assert [dot + StripDot(r.domain)] + rest == PrintedFields(r);
  }

  lemma PrintsRest(line: string, rec: string, r: Rec)
    requires UpToTab(line, 7) == rec && HasTab(line, 7) == r.httpOnly && IsHostOnly(rec) == r.hostOnly
    requires (if r.hostOnly then "" else ".") + StripDot(rec) == Join(PrintedFields(r))
    ensures PrintLine(line) == PrintedLine(r)
  {
    Assoc(if r.httpOnly then HTTPONLY_PREFIX else "", if r.hostOnly then "" else ".", StripDot(rec));
  }

  lemma Assoc(a: string, b: string, c: string)
    ensures a + b + c == a + (b + c)
  {
  }

  lemma SevenFields(r: Rec)
    requires Storable(r)
    ensures 7 <= |Fields(r)| && (|Fields(r)| > 7 <==> r.httpOnly)
    ensures Fields(r)[..7] == [r.domain] + PrintedFields(r)[1..]
    ensures Fields(r)[1] == Flag(!r.hostOnly) && Fields(r)[3] == Flag(r.secure)
  {
  }

  // ---- reading a printed line ----

  lemma {:induction false} TabCount(fields: seq<string>)
    requires fields != [] && CleanFields(fields)
    ensures CountTabs(Join(fields)) == |fields| - 1
  {
    assert Clean(fields[0]);
    if |fields| > 1 {
      TabCount(fields[1..]);
      CountConcat(fields[0], "\t" + Join(fields[1..]));
      assert Join(fields) == fields[0] + ("\t" + Join(fields[1..]));
      assert ("\t" + Join(fields[1..]))[1..] == Join(fields[1..]);
    } else {
      CountConcat(fields[0], "");
      assert fields[0] + "" == fields[0];
    }
  }

  lemma {:induction false} CountConcat(a: string, b: string)
    requires Clean(a)
    ensures CountTabs(a + b) == CountTabs(b)
  {
    if a == "" {
      assert a + b == b;
    } else {
      CountConcat(a[1..], b);
      assert (a + b)[1..] == a[1..] + b;
    }
  }

  const READ_STOP := INT64_MAX / 10 - 9

  lemma {:induction false} ReadAll(s: string, when: nat, c: char)
    requires AllDigits(s + [c]) && AllDigits(s)
    ensures ReadDigits(s, when) < READ_STOP ==>
              ReadDigits(s + [c], when) == 10 * ReadDigits(s, when) + (c as int - '0' as int)
    ensures ReadDigits(s, when) >= READ_STOP ==> ReadDigits(s + [c], when) == ReadDigits(s, when)
  {
    if s == "" {
      assert (s + [c])[1..] == "";
    } else if when < READ_STOP {
      assert (s + [c])[1..] == s[1..] + [c];
      assert (s + [c])[0] == s[0];
      ReadAll(s[1..], when * 10 + (s[0] as int - '0' as int), c);
    }
  }

  /** An expiry parses back exactly if and only if it is below the point where
      the reader stops. */
  lemma {:induction false} ExpiryExact(e: nat)
    ensures ReadDigits(DecNat(e), 0) <= e
    ensures ReadDigits(DecNat(e), 0) == e <==> e / 10 < READ_STOP
  {
    if e < 10 {
      assert DecNat(e)[1..] == "";
    } else {
      ExpiryExact(e / 10);
      ReadAll(DecNat(e / 10), 0, Digit(e % 10));
    }
  }

  predicate TwoDots(domain: string) {
    |domain| >= 2 && domain[0] == '.' && domain[1] == '.'
  }

  /** The record a printed line stands for: its domain is spelt as the file does. */
  function Reread(r: Rec): Rec {
    r.(domain := PrintedDomain(r))
  }

  /** Printing again gives the same line if and only if the record is not a
      host-only one whose domain opens with two dots. */
  lemma RereadPrints(r: Rec)
    ensures PrintedLine(Reread(r)) == PrintedLine(r) <==> !(r.hostOnly && TwoDots(r.domain))
    ensures !(r.hostOnly && TwoDots(r.domain)) ==> IdOf(Reread(r)) == IdOf(r)
  {
    var a, b := PrintedFields(Reread(r)), PrintedFields(r);
    assert a[1..] == b[1..];
    if r.hostOnly && TwoDots(r.domain) {
      assert |PrintedDomain(Reread(r))| + 1 == |PrintedDomain(r)|;
    } else {
      assert StripDot(PrintedDomain(r)) == StripDot(r.domain);
      assert a == b;
    }
  }

  /** What the file form asks of a record: a domain that reads as itself, and an
      expiry that parses back. */
  ghost predicate Printable(w: World, r: Rec) {
    var domain := PrintedDomain(r);
    && domain != "" && domain[0] != '#' && w.cookieHost(domain) == Some(domain)
    && !(r.hostOnly && TwoDots(r.domain))
    && r.expires / 10 < READ_STOP
  }

  lemma PrintedClean(r: Rec)
    requires Storable(r)
    ensures CleanFields(PrintedFields(r)) && |PrintedFields(r)| == 7
  {
    FieldsClean(r);
    var fields := PrintedFields(r);
    forall i | 0 <= i < 7
      ensures Clean(fields[i])
    {
      if i > 0 {
        assert fields[i] == Fields(r)[i];
      } else {
        assert Clean(StripDot(r.domain));
      }
    }
  }

  /** The fields of a printed line, one by one. */
  lemma PrintedReads(r: Rec)
    requires Storable(r)
    ensures var rec := Join(PrintedFields(r));
            && CountTabs(rec) == 6 && IsHostOnly(rec) == r.hostOnly && IsSecure(rec) == r.secure
            && FieldOf(rec, 0) == PrintedDomain(r) && FieldOf(rec, 2) == r.path && FieldOf(rec, 4) == Dec(r.expires)
            && FieldOf(rec, 5) == r.name && FieldOf(rec, 6) == r.value
  {
    var fields := PrintedFields(r);
    PrintedClean(r);
    TabCount(fields);
    FlagReads(Join(fields), r, fields);
    JoinField(fields, 0);
    JoinField(fields, 2);
    JoinField(fields, 4);
    JoinField(fields, 5);
    JoinField(fields, 6);
  }

  lemma FirstByte(r: Rec)
    requires Storable(r) && PrintedDomain(r) != ""
    ensures Join(PrintedFields(r)) != "" && Join(PrintedFields(r))[0] == PrintedDomain(r)[0]
  {
  }

  lemma NotBlank(r: Rec)
    requires Storable(r)
    ensures !BlankLine(Join(PrintedFields(r)))
  {
    var fields := PrintedFields(r);
    PrintedClean(r);
    JoinField(fields, 1);
    assert fields[1][0] == 'T' || fields[1][0] == 'F';
    FieldNotBlank(Join(fields), 1);
  }

  lemma {:induction false} FieldNotBlank(line: string, k: nat)
    requires FieldOf(line, k) != "" && FieldOf(line, k)[0] != ' ' && FieldOf(line, k)[0] != '\t'
    ensures !BlankLine(line)
    decreases k
  {
    var stop := Find(line, '\t');
    if k > 0 && line != "" {
      FieldNotBlank(if stop < |line| then line[stop + 1..] else "", k - 1);
    } else {
      assert FieldOf(line, k)[0] == line[0];
    }
  }

  /** What a load demands beside: a name, an expiry that is no negative number,
      and fields that fit its buffers, which hold less than those of cookie_set. */
  predicate Readable(r: Rec) {
    && r.name != "" && 0 <= r.expires
    && |PrintedDomain(r)| < COOKIE_MAX_DOMAIN && |r.path| < COOKIE_MAX_PATH
  }

  predicate Expired(now: Int64, r: Rec) {
    r.expires != 0 && r.expires <= now
  }

  function AttrOf(r: Rec, httpOnly: bool): Attr {
    Attr(r.hostOnly, r.secure, httpOnly, r.expires)
  }

  /** What the record r asks of a load that reads its line. */
  function Asks(r: Rec, httpOnly: bool, now: Int64): Parsed {
    if !Readable(r) then Refused
    else if Expired(now, r) then PassedOver
    else ToSet(PrintedDomain(r), r.name, r.value, r.path, AttrOf(r, httpOnly))
  }

  lemma ParsesRecord(r: Rec, httpOnly: bool, now: Int64)
    requires Storable(r) && r.expires / 10 < READ_STOP
    ensures ParseRecord(Join(PrintedFields(r)), httpOnly, now) == Asks(r, httpOnly, now)
  {
    PrintedReads(r);
    if 0 <= r.expires {
      ExpiryReads(r.expires);
    }
    ParsesFields(Join(PrintedFields(r)), r, httpOnly, now);
  }

  lemma ParsesFields(rec: string, r: Rec, httpOnly: bool, now: Int64)
    requires CountTabs(rec) == 6 && IsHostOnly(rec) == r.hostOnly && IsSecure(rec) == r.secure
    requires FieldOf(rec, 0) == PrintedDomain(r) && FieldOf(rec, 2) == r.path
    requires FieldOf(rec, 5) == r.name && FieldOf(rec, 6) == r.value && |r.name| + |r.value| <= COOKIE_MAX_PAIR
    requires AllDigits(FieldOf(rec, 4)) <==> 0 <= r.expires
    requires 0 <= r.expires ==> Expiry(FieldOf(rec, 4)) == r.expires
    ensures ParseRecord(rec, httpOnly, now) == Asks(r, httpOnly, now)
  {
  }

  lemma ExpiryReads(e: Int64)
    requires e / 10 < READ_STOP && AllDigits(Dec(e))
    ensures Expiry(Dec(e)) == e
  {
    assert 0 <= e;
    ExpiryExact(e);
  }

  /** A printed line is read as exactly what its record asks. */
  lemma ParsesPrinted(w: World, r: Rec)
    requires Storable(r) && Printable(w, r)
    ensures ParseLine(PrintedLine(r), w.now) == Asks(r, r.httpOnly, w.now)
  {
    PrefixRead(r);
    FirstByte(r);
    ParsesRecord(r, r.httpOnly, w.now);
    LineBytes(r);
    ParsesBytes(PrintedLine(r), Join(PrintedFields(r)), r.httpOnly, w.now);
    if Readable(r) {
      PrintedFits(r);
    }
  }

  lemma ParsesBytes(line: string, rec: string, httpOnly: bool, now: Int64)
    requires NoBreaks(line) && !BlankLine(line) && StartsWith(line, HTTPONLY_PREFIX) == httpOnly
    requires rec == (if httpOnly then line[|HTTPONLY_PREFIX|..] else line) && rec != "" && rec[0] != '#'
    ensures ParseLine(line, now) == if |line| >= COOKIE_MAX_LINE then Refused else ParseRecord(rec, httpOnly, now)
  {
  }

  lemma PrintedFits(r: Rec)
    requires Storable(r) && |PrintedDomain(r)| < COOKIE_MAX_DOMAIN
    ensures |PrintedLine(r)| < COOKIE_MAX_LINE
  {
    var q := Reread(r).(httpOnly := false);
    LineFits(q);
    assert Fields(q) == PrintedFields(r);
  }

  /** The HttpOnly mark is read off a printed line, and only where it was put. */
  lemma PrefixRead(r: Rec)
    requires Storable(r) && PrintedDomain(r) != "" && PrintedDomain(r)[0] != '#'
    ensures var line := PrintedLine(r);
            && StartsWith(line, HTTPONLY_PREFIX) == r.httpOnly && !BlankLine(line)
            && (if r.httpOnly then line[|HTTPONLY_PREFIX|..] else line) == Join(PrintedFields(r))
  {
    var rec, line := Join(PrintedFields(r)), PrintedLine(r);
    FirstByte(r);
    NotBlank(r);
    if r.httpOnly {
      assert line == HTTPONLY_PREFIX + rec && line[..|HTTPONLY_PREFIX|] == HTTPONLY_PREFIX;
      assert line[0] == '#';
    } else {
      assert line == rec;
      assert line[0] != HTTPONLY_PREFIX[0];
    }
  }

  /** No line break and no NUL. */
  predicate NoBreaks(s: string) {
    forall i :: 0 <= i < |s| ==> s[i] != '\n' && s[i] != '\r' && s[i] != '\0'
  }

  lemma LineBytes(r: Rec)
    requires Storable(r)
    ensures NoBreaks(PrintedLine(r))
  {
    PrintedClean(r);
    JoinNoBreak(PrintedFields(r));
  }

  lemma {:induction false} JoinNoBreak(fields: seq<string>)
    requires CleanFields(fields)
    ensures NoBreaks(Join(fields))
  {
    if |fields| > 1 {
      JoinNoBreak(fields[1..]);
      assert Clean(fields[0]);
    } else if |fields| == 1 {
      assert Clean(fields[0]);
    }
  }
}
