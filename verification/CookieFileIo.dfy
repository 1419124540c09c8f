/** The loops that print a jar and load one. */
module CookieFileIo {
  import opened CText
  import opened CookieText
  import opened Wrappers
  import opened CookieStore
  import opened CookieTally
  import opened CookieFile
  import opened CookieFileLaws
  import opened CookieJar

  /** binput: the bytes up to the line's end, CRs dropped and cut at max. */
  function Binput(s: string, max: nat): string {
    var line := DropCr(s[..Find(s, '\n')]);
    if |line| <= max then line else line[..max]
  }

  function DropCr(s: string): string {
    if s == "" then "" else (if s[0] == '\r' then "" else [s[0]]) + DropCr(s[1..])
  }

  lemma {:induction false} NoCrToDrop(s: string)
    requires '\r' !in s
    ensures DropCr(s) == s
  {
    if s != "" {
      assert s[0] in s && forall i :: 0 <= i < |s[1..]| ==> s[1..][i] == s[i + 1];
      NoCrToDrop(s[1..]);
    }
  }

  lemma JarLine(rs: seq<Rec>, i: nat)
    requires AllStorable(rs) && i < |rs|
    ensures Find(Text(rs[i..]), '\n') == |Join(Fields(rs[i]))| && |Line(rs[i])| == |Join(Fields(rs[i]))| + 1
    ensures Binput(Text(rs[i..]), COOKIE_MAX_LINE) == Join(Fields(rs[i]))
    ensures |Text(rs[..i])| < |Text(rs)| && Text(rs)[|Text(rs[..i])|..] == Text(rs[i..])
  {
    TailText(rs, i);
    RecordAt(rs, i);
    LineRead(rs[i], Text(rs[i + 1..]));
    TextConcat(rs[..i], rs[i..]);
    assert rs == rs[..i] + rs[i..];
  }

  lemma LineRead(r: Rec, rest: string)
    requires Storable(r)
    ensures Find(Line(r) + rest, '\n') == |Join(Fields(r))|
    ensures Binput(Line(r) + rest, COOKIE_MAX_LINE) == Join(Fields(r))
  {
    var body := Join(Fields(r));
    FieldsClean(r);
    JoinNoNewline(Fields(r));
    JoinNoBreak(Fields(r));
    LineFits(r);
    BodyRead(body, rest);
    assert Line(r) + rest == body + "\n" + rest;
  }

  lemma BodyRead(body: string, rest: string)
    requires forall i :: 0 <= i < |body| ==> body[i] != '\n' && body[i] != '\r'
    ensures Find(body + "\n" + rest, '\n') == |body|
    ensures |body| <= COOKIE_MAX_LINE ==> Binput(body + "\n" + rest, COOKIE_MAX_LINE) == body
  {
    FindIs(body + "\n" + rest, '\n', |body|);
    assert (body + "\n" + rest)[..|body|] == body;
    NoCrToDrop(body);
  }

  lemma FileSnoc(rs: seq<Rec>, i: nat)
    requires i < |rs|
    ensures FileText(rs[..i + 1]) == FileText(rs[..i]) + PrintedLine(rs[i]) + "\n"
  {
    assert PrintedLines(rs[..i + 1]) == PrintedLines(rs[..i]) + [PrintedLine(rs[i]) + "\n"];
    CatConcat(PrintedLines(rs[..i]), [PrintedLine(rs[i]) + "\n"]);
    CatOne(PrintedLine(rs[i]) + "\n");
  }

  lemma CatOne(s: string)
    ensures Cat([s]) == s
  {
    assert Cat([s]) == s + Cat([]);
  }

  /** cookie_records_text. */
  method RecordsText(text: string, ghost rs: seq<Rec>) returns (out: string)
    requires AllStorable(rs) && text == Text(rs)
    ensures out == FileText(rs)
  {
    out := "";
    var a := 0;
    ghost var i := 0;
    AtEnd(rs, 0);
    assert Lines(rs[..0]) == [] && PrintedLines(rs[..0]) == [];
    while a < |text|
      invariant i <= |rs| && a == |Text(rs[..i])| <= |text| && (a < |text| <==> i < |rs|)
      invariant out == FileText(rs[..i])
      decreases |rs| - i
    {
      JarLine(rs, i);
      RecordAt(rs, i);
      PrintsRecord(rs[i]);
      FileSnoc(rs, i);
      var line := Binput(text[a..], COOKIE_MAX_LINE);
      out := out + PrintLine(line) + "\n";
      a := a + Find(text[a..], '\n') + 1;
      i := i + 1;
      AtEnd(rs, i);
    }
    assert rs[..i] == rs;
  }

  lemma {:induction false} FieldNoNul(line: string, k: nat)
    requires IsCString(line)
    ensures IsCString(FieldOf(line, k))
    decreases k
  {
    var stop := Find(line, '\t');
    if k > 0 && line != "" {
      FieldNoNul(if stop < |line| then line[stop + 1..] else "", k - 1);
    }
  }

  lemma ParsedNoNul(line: string, now: Int64)
    requires ParseLine(line, now).ToSet?
    ensures var p := ParseLine(line, now);
            IsCString(p.domain) && IsCString(p.name) && IsCString(p.value) && IsCString(p.path)
  {
    var rec := if StartsWith(line, HTTPONLY_PREFIX) then line[|HTTPONLY_PREFIX|..] else line;
    assert IsCString(line) && IsCString(rec);
    FieldNoNul(rec, 0);
    FieldNoNul(rec, 2);
    FieldNoNul(rec, 5);
    FieldNoNul(rec, 6);
  }

  /** cookie_host gives a C string that fits its buffer and is not empty. */
  ghost predicate HostsFit(w: World) {
    forall d: string :: w.cookieHost(d).Some? ==>
      IsCString(w.cookieHost(d).value) && 0 < |w.cookieHost(d).value| < COOKIE_MAX_DOMAIN
  }

  /** The two jars of a load and its count, as one state. */
  ghost function LoadingOf(jar: JarState, seen: JarState, mem: bool, refused: nat): (l: Loading)
  {
    Loading(jar, if mem then Some(seen) else None, refused)
  }

  /** cookie_load_records, with mem saying whether the notes get their memory. The
      result is how many lines were refused, and whether the file is to be kept. */
  method LoadRecords(jar: Jar, lines: seq<string>, w: World, mem: bool) returns (refused: nat, keep: bool)
    requires jar.Valid() && w.maxLen == jar.maxLen && HostsFit(w)
    modifies jar, jar.data
    ensures jar.Valid()
    ensures var l := Load(w, StartLoad(old(jar.jar), mem), lines); jar.jar == l.jar && refused == l.refused
    ensures keep == !mem
  {
    var seen := new Jar(SEEN_LEN, SEEN_LEN);
    refused, keep := 0, !mem;
    ghost var start := StartLoad(jar.jar, mem);
    var i := 0;
    assert lines[0..] == lines;
    while i < |lines|
      invariant i <= |lines| && jar.Valid() && seen.Valid() && seen.maxLen == SEEN_LEN
      invariant fresh(seen) && fresh(seen.data)
      invariant Load(w, LoadingOf(jar.jar, seen.jar, mem, refused), lines[i..]) == Load(w, start, lines)
    {
      assert lines[i..][1..] == lines[i + 1..];
      refused := LoadOne(jar, seen, lines[i], w, mem, refused);
      i := i + 1;
    }
  }

  /** One line of the file. */
  method LoadOne(jar: Jar, seen: Jar, line: string, w: World, mem: bool, count: nat) returns (refused: nat)
    requires jar.Valid() && seen.Valid() && w.maxLen == jar.maxLen && seen.maxLen == SEEN_LEN && HostsFit(w)
    requires jar != seen && jar.data != seen.data
    modifies jar, jar.data, seen, seen.data
    ensures jar.Valid() && seen.Valid()
    ensures LoadingOf(jar.jar, seen.jar, mem, refused) ==
            LoadLine(w, LoadingOf(old(jar.jar), old(seen.jar), mem, count), line)
  {
    match ParseLine(line, w.now)
    case PassedOver => refused := count;
    case Refused => refused := OneMore(count);
    case ToSet(domain, name, value, path, attr) =>
      ParsedNoNul(line, w.now);
      var host := w.cookieHost(domain);
      if host == None {
        refused := OneMore(count);
      } else {
        refused := SetOne(jar, seen, host.value, name, value, path, attr, w, mem, count);
      }
  }

  /** One record of it. */
  method SetOne(jar: Jar, seen: Jar, host: string, name: string, value: string, path: string, attr: Attr,
                w: World, mem: bool, count: nat)
    returns (refused: nat)
    requires jar.Valid() && seen.Valid() && w.maxLen == jar.maxLen && seen.maxLen == SEEN_LEN
    requires jar != seen && jar.data != seen.data
    requires IsCString(host) && 0 < |host| < COOKIE_MAX_DOMAIN
    requires IsCString(name) && IsCString(value) && IsCString(path)
    modifies jar, jar.data, seen, seen.data
    ensures jar.Valid() && seen.Valid()
    ensures LoadingOf(jar.jar, seen.jar, mem, refused)
         == SetLoaded(w, LoadingOf(old(jar.jar), old(seen.jar), mem, count), host, name, value, path, attr)
  {
    refused := count;
    var repeated := false;
    if mem {
      repeated := IsNoted(seen, name, host, path);
    }
    if repeated {
      refused := OneMore(refused);
    }
    var rc := jar.SetImpl(Some(host), IsSuffix(w, host), name, value, path, Some(attr), false, false);
    if rc != 0 {
      refused := OneMore(refused);
    } else if mem && !repeated {
      var _ := seen.SetImpl(Some(host), IsSuffix(w, host), name, "", path, None, false, false);
    }
  }

  /** cookie_find_exact in the notes. */
  method IsNoted(seen: Jar, name: string, host: string, path: string) returns (noted: bool)
    requires seen.Valid()
    ensures noted == IsRepeated(Some(seen.jar), name, host, path)
  {
    var n := seen.StrLen(Text(seen.jar.recs));
    var found, at, i := Jar.FindRecord(seen.data[..n], seen.jar.recs, name, host, path);
    noted := found;
  }
}
