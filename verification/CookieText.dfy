/** The text of the cookie jar: one line a record, fields parted by TABs, and
    the two readers cookie_get and cookie_nextfield that find their way in it. */
module CookieText {
  import opened CText

  const HTTPONLY_FIELD := "HttpOnly"
  const COOKIE_MAX_PAIR := 4096
  const COOKIE_MAX_DOMAIN := 256
  const COOKIE_MAX_PATH := 256
  const COOKIE_HEADROOM := 256

  /** A record of the jar, as cookie_set prints it. */
  datatype Rec = Rec(domain: string, hostOnly: bool, path: string, secure: bool,
                     expires: Int64, name: string, value: string, httpOnly: bool)

  /** What a cookie keeps beside name, value, domain and path. */
  datatype Attr = Attr(hostOnly: bool, secure: bool, httpOnly: bool, expires: Int64)

  const SESSION := Attr(false, false, false, 0)

  /** The record cookie_set makes. A public suffix reaches that host alone. */
  function NewRec(host: string, suffix: bool, name: string, value: string, path: string, attr: Attr): Rec {
    Rec(host, attr.hostOnly || suffix, path, attr.secure, attr.expires, name, value, attr.httpOnly)
  }

  /** A byte that forges neither a field nor a record. */
  predicate CleanByte(c: char) {
    c != '\t' && c != '\n' && c != '\r' && c != '\0'
  }

  predicate Clean(s: string) {
    forall i :: 0 <= i < |s| ==> CleanByte(s[i])
  }

  /** What cookie_set demands of a record's parts. */
  predicate Storable(r: Rec) {
    && 0 < |r.domain| < COOKIE_MAX_DOMAIN && Clean(r.domain)
    && |r.name| + |r.value| <= COOKIE_MAX_PAIR && Clean(r.name) && Clean(r.value)
    && |r.path| <= COOKIE_MAX_PATH && Clean(r.path)
  }

  function Flag(b: bool): string {
    if b then "TRUE" else "FALSE"
  }

  function Fields(r: Rec): seq<string> {
    [r.domain, Flag(!r.hostOnly), r.path, Flag(r.secure), Dec(r.expires), r.name, r.value]
    + if r.httpOnly then [HTTPONLY_FIELD] else []
  }

  function Join(fields: seq<string>): string {
    if fields == [] then ""
    else if |fields| == 1 then fields[0]
    else fields[0] + "\t" + Join(fields[1..])
  }

  function Line(r: Rec): (s: string)
    ensures |s| > 0
  {
    Join(Fields(r)) + "\n"
  }

  function Lines(rs: seq<Rec>): (lines: seq<string>)
    ensures |lines| == |rs|
    ensures forall i :: 0 <= i < |rs| ==> lines[i] == Line(rs[i])
  {
    seq(|rs|, i requires 0 <= i < |rs| => Line(rs[i]))
  }

  function Text(rs: seq<Rec>): string {
    Cat(Lines(rs))
  }

  // ---- the two readers ----

  /** Field k of a line that has lost its newline; "" when there is none. An
      empty last field is not read, which gives "" as well. */
  function FieldOf(line: string, k: nat): string
    decreases |line|
  {
    var stop := Find(line, '\t');
    if k == 0 || line == "" then line[..stop]
    else FieldOf(if stop < |line| then line[stop + 1..] else "", k - 1)
  }

  /** The line at `at`, past the newlines that open it. */
  function LineAt(s: string, at: nat): string
    requires at <= |s|
  {
    var start := at + Span(s[at..], '\n');
    s[start..start + Find(s[start..], '\n')]
  }

  function CookieGet(s: string, at: nat, k: nat): string
    requires at <= |s|
  {
    FieldOf(LineAt(s, at), k)
  }

  function NextField(s: string, at: nat): (next: nat)
    requires at <= |s|
    ensures at <= next <= |s|
    ensures at < |s| ==> at < next
  {
    var stop := at + Find(s[at..], '\n');
    if stop == |s| then |s| else stop + 1 + Span(s[stop + 1..], '\n')
  }

  // ---- reading back what cookie_set prints ----

  predicate CleanFields(fields: seq<string>) {
    forall i :: 0 <= i < |fields| ==> Clean(fields[i])
  }

  lemma {:induction false} JoinNoNewline(fields: seq<string>)
    requires CleanFields(fields)
    ensures forall i :: 0 <= i < |Join(fields)| ==> Join(fields)[i] != '\n' && Join(fields)[i] != '\0'
  {
    if |fields| > 1 {
      JoinNoNewline(fields[1..]);
      assert Clean(fields[0]);
    } else if |fields| == 1 {
      assert Clean(fields[0]);
    }
  }

  lemma {:induction false} JoinField(fields: seq<string>, k: nat)
    requires CleanFields(fields)
    ensures FieldOf(Join(fields), k) == if k < |fields| then fields[k] else ""
  {
    if fields != [] {
      SplitFirst(fields);
      if k > 0 && |fields| > 1 {
        JoinField(fields[1..], k - 1);
      }
    }
  }

  lemma SplitFirst(fields: seq<string>)
    requires fields != [] && CleanFields(fields)
    ensures var line, stop := Join(fields), Find(Join(fields), '\t');
            && line[..stop] == fields[0]
            && (if stop < |line| then line[stop + 1..] else "") == (if |fields| == 1 then "" else Join(fields[1..]))
  {
    var line, first := Join(fields), fields[0];
    assert Clean(first);
    FindIs(line, '\t', |first|);
  }

  lemma FieldsClean(r: Rec)
    requires Storable(r)
    ensures CleanFields(Fields(r))
  {
    var fields := Fields(r);
    assert Clean(Flag(true)) && Clean(Flag(false)) && Clean(HTTPONLY_FIELD);
    assert Clean(Dec(r.expires));
    forall i | 0 <= i < |fields|
      ensures Clean(fields[i])
    {
      assert i < 8;
      if i == 0 {} else if i == 1 {} else if i == 2 {} else if i == 3 {}
      else if i == 4 {} else if i == 5 {} else if i == 6 {} else {}
    }
  }

  /** A record between anything before it and other lines after it reads back
      field by field, and the next line starts right past it. */
  lemma ReadBack(before: string, r: Rec, after: string)
    requires Storable(r)
    requires after == "" || after[0] != '\n'
    ensures NextField(before + Line(r) + after, |before|) == |before| + |Line(r)|
    ensures forall k: nat ::
              CookieGet(before + Line(r) + after, |before|, k)
              == if k < |Fields(r)| then Fields(r)[k] else ""
  {
    var s, at, body := before + Line(r) + after, |before|, Join(Fields(r));
    FieldsClean(r);
    JoinNoNewline(Fields(r));
    assert body[0] == r.domain[0];
    assert s[at..] == body + "\n" + after;
    FindIs(s[at..], '\n', |body|);
    assert Span(s[at..], '\n') == 0;
    assert LineAt(s, at) == body;
    var stop := at + |body|;
    assert s[stop + 1..] == after;
    forall k: nat
      ensures CookieGet(s, at, k) == if k < |Fields(r)| then Fields(r)[k] else ""
    {
      JoinField(Fields(r), k);
    }
  }

  predicate AllStorable(rs: seq<Rec>) {
    forall i :: 0 <= i < |rs| ==> Storable(rs[i])
  }

  lemma TextConcat(a: seq<Rec>, b: seq<Rec>)
    ensures Text(a + b) == Text(a) + Text(b)
  {
    assert Lines(a + b) == Lines(a) + Lines(b);
    CatConcat(Lines(a), Lines(b));
  }

  lemma TextSplit(rs: seq<Rec>, i: nat)
    requires i < |rs|
    ensures Text(rs) == Text(rs[..i]) + Line(rs[i]) + Text(rs[i + 1..])
    ensures Text(rs[..i + 1]) == Text(rs[..i]) + Line(rs[i])
  {
    CatSplit(Lines(rs), i);
    assert Lines(rs)[..i] == Lines(rs[..i]);
    assert Lines(rs)[..i + 1] == Lines(rs[..i + 1]);
    assert Lines(rs)[i + 1..] == Lines(rs[i + 1..]);
  }

  lemma LineStart(r: Rec)
    requires Storable(r)
    ensures Line(r)[0] == r.domain[0] != '\n'
  {
  }

  /** cookie_get and cookie_nextfield see the i-th record at its place. */
  lemma RecordAt(rs: seq<Rec>, i: nat)
    requires AllStorable(rs) && i < |rs|
    ensures |Text(rs[..i])| < |Text(rs)|
    ensures NextField(Text(rs), |Text(rs[..i])|) == |Text(rs[..i + 1])| <= |Text(rs)|
    ensures |Text(rs[..i + 1])| == |Text(rs[..i])| + |Line(rs[i])|
    ensures forall k: nat ::
              CookieGet(Text(rs), |Text(rs[..i])|, k)
              == if k < |Fields(rs[i])| then Fields(rs[i])[k] else ""
  {
    TextSplit(rs, i);
    var after := Text(rs[i + 1..]);
    if i + 1 < |rs| {
      LineStart(rs[i + 1]);
      assert rs[i + 1..][0] == rs[i + 1];
      TextSplit(rs[i + 1..], 0);
      assert Text(rs[i + 1..][..0]) == "";
      assert after[0] == Line(rs[i + 1])[0];
    }
    ReadBack(Text(rs[..i]), rs[i], after);
  }

  lemma RecordParts(rs: seq<Rec>, i: nat)
    requires AllStorable(rs) && i < |rs|
    ensures |Text(rs[..i])| < |Text(rs)|
    ensures CookieGet(Text(rs), |Text(rs[..i])|, 0) == rs[i].domain
    ensures CookieGet(Text(rs), |Text(rs[..i])|, 2) == rs[i].path
    ensures CookieGet(Text(rs), |Text(rs[..i])|, 5) == rs[i].name
  {
    RecordAt(rs, i);
    FieldValues(rs[i]);
  }

  lemma FieldValues(r: Rec)
    ensures 7 <= |Fields(r)| <= 8
    ensures Fields(r)[0] == r.domain && Fields(r)[2] == r.path && Fields(r)[5] == r.name
  {
  }

  /** The text from the i-th record on: that record, then the others. */
  lemma TailText(rs: seq<Rec>, i: nat)
    requires i < |rs|
    ensures Text(rs[i..]) == Line(rs[i]) + Text(rs[i + 1..])
  {
    TextSplit(rs[i..], 0);
    assert rs[i..][1..] == rs[i + 1..] && Lines(rs[i..][..0]) == [];
  }

  lemma TailNext(rs: seq<Rec>, i: nat)
    requires AllStorable(rs) && i < |rs|
    ensures NextField(Text(rs[i..]), 0) == |Line(rs[i])|
  {
    var tail := rs[i..];
    RecordAt(tail, 0);
    assert Lines(tail[..0]) == [];
  }

  lemma {:induction false} TextNoNul(rs: seq<Rec>)
    requires AllStorable(rs)
    ensures forall i :: 0 <= i < |Text(rs)| ==> Text(rs)[i] != '\0'
  {
    if rs != [] {
      TextSplit(rs, 0);
      assert Text(rs[..0]) == "";
      TextNoNul(rs[1..]);
      FieldsClean(rs[0]);
      JoinNoNewline(Fields(rs[0]));
    }
  }

  /** The printed line is always shorter than the room cookie_set asks for, so
      the test behind the headroom never fires. */
  lemma LineFits(r: Rec)
    ensures |Line(r)| + 210 <= |r.value| + |r.name| + |r.domain| + |r.path| + COOKIE_HEADROOM
  {
    DecLength(r.expires);
    var fields := Fields(r);
    var last := fields[6..];
    assert Join(last) == r.value + if r.httpOnly then "\t" + HTTPONLY_FIELD else "" by {
      if r.httpOnly {
        assert last == [r.value, HTTPONLY_FIELD];
        assert Join(last[1..]) == HTTPONLY_FIELD;
      } else {
        assert last == [r.value];
      }
    }
    assert |Join(last)| <= |r.value| + 9;
    assert |Join(fields[5..])| == |r.name| + 1 + |Join(last)| by {
      assert fields[5..][1..] == last;
    }
    assert |Join(fields[4..])| <= 21 + |Join(fields[5..])| by {
      assert fields[4..][1..] == fields[5..];
    }
    assert |Join(fields[3..])| <= 6 + |Join(fields[4..])| by {
      assert fields[3..][1..] == fields[4..];
    }
    assert |Join(fields[2..])| == |r.path| + 1 + |Join(fields[3..])| by {
      assert fields[2..][1..] == fields[3..];
    }
    assert |Join(fields[1..])| <= 6 + |Join(fields[2..])| by {
      assert fields[1..][1..] == fields[2..];
    }
    assert |Join(fields)| == |r.domain| + 1 + |Join(fields[1..])|;
  }
}
