/** A cookies.txt file written from a jar and loaded again. */
module CookieReload {
  import opened CText
  import opened CookieText
  import opened Wrappers
  import opened EvictionPlan
  import opened JarOrder
  import opened CookieStore
  import opened CookieStoreLaws
  import opened CookieFile
  import opened CookieFileLaws

  // ---- the lines of a written file ----

  function Rereads(rs: seq<Rec>): (out: seq<Rec>)
    ensures |out| == |rs|
    ensures forall i :: 0 <= i < |rs| ==> out[i] == Reread(rs[i])
  {
    seq(|rs|, i requires 0 <= i < |rs| => Reread(rs[i]))
  }

  function RawLines(rs: seq<Rec>): (lines: seq<string>)
    ensures |lines| == |rs|
    ensures forall i :: 0 <= i < |rs| ==> lines[i] == PrintedLine(rs[i])
  {
    seq(|rs|, i requires 0 <= i < |rs| => PrintedLine(rs[i]))
  }

  lemma {:induction false} SplitsPrinted(rs: seq<Rec>)
    requires AllStorable(rs)
    ensures SplitLines(FileText(rs)) == RawLines(rs) + [""]
  {
    if rs != [] {
      SplitsPrinted(rs[1..]);
      LineBytes(rs[0]);
      FileTextFirst(rs);
      SplitsFirst(PrintedLine(rs[0]), FileText(rs[1..]));
      RawFirst(rs);
    }
  }

  lemma RawFirst(rs: seq<Rec>)
    requires rs != []
    ensures RawLines(rs) + [""] == [PrintedLine(rs[0])] + (RawLines(rs[1..]) + [""])
  {
    assert RawLines(rs) == [PrintedLine(rs[0])] + RawLines(rs[1..]);
  }

  lemma FileTextFirst(rs: seq<Rec>)
    requires rs != []
    ensures FileText(rs) == PrintedLine(rs[0]) + "\n" + FileText(rs[1..])
  {
    assert PrintedLines(rs)[1..] == PrintedLines(rs[1..]);
  }

  lemma SplitsFirst(line: string, rest: string)
    requires NoBreaks(line)
    ensures SplitLines(line + "\n" + rest) == [line] + SplitLines(rest)
  {
    var text := line + "\n" + rest;
    FindIs(text, '\n', |line|);
    assert text[..|line|] == line && text[|line| + 1..] == rest;
  }

  /** A comment without TABs or blanks side by side is its own normal form. */
  lemma {:induction false} Squeezed(line: string, done: string)
    requires |done| + |line| <= COMMENT_MAX
    requires forall i :: 0 <= i < |line| ==> line[i] != '\t'
    requires forall i :: 0 < i < |line| ==> line[i] != ' ' || line[i - 1] != ' '
    requires done == "" || line == "" || line[0] != ' ' || done[|done| - 1] != ' '
    ensures Squeeze(line, done) == Norm(done + line, false)
  {
    if line != "" {
      Squeezed(line[1..], done + [line[0]]);
      assert done + [line[0]] + line[1..] == done + line;
    } else {
      assert done + line == done;
    }
  }

  /** A comment that is its own normal form, and that no mark opens. */
  ghost predicate IsPlain(line: string) {
    && 1 < |line| <= COMMENT_MAX && line[0] == '#' && line[1] == ' ' && line[|line| - 1] != ' '
    && NoBreaks(line) && NoTabs(line) && IsSpaced(line)
  }

  predicate NoTabs(line: string) {
    forall i :: 0 <= i < |line| ==> line[i] != '\t'
  }

  predicate IsSpaced(line: string) {
    forall i :: 0 < i < |line| ==> line[i] != ' ' || line[i - 1] != ' '
  }

  lemma PlainPasses(line: string, now: Int64)
    requires IsPlain(line) && IsKnown(line)
    ensures ParseLine(line, now) == PassedOver && ChopBom(line) == line
  {
    Squeezed(line, "");
    assert "" + line == line && TrimSpace(line) == line;
    KnownAsIs(line);
    PlainStart(line);
  }

  lemma KnownAsIs(line: string)
    requires IsKnown(line)
    ensures KnownNorm(line, false)
  {
  }

  lemma PlainStart(line: string)
    requires 1 < |line| && line[0] == '#' && line[1] == ' '
    ensures !StartsWith(line, HTTPONLY_PREFIX) && !BlankLine(line) && ChopBom(line) == line
  {
    assert HTTPONLY_PREFIX[1] != line[1] && BOM[0] != line[0] && !IsBlank(line[0]);
  }

  lemma FirstIsPlain()
    ensures IsPlain(FIRST_HEADER)
  {
    assert NoBreaks(FIRST_HEADER) && NoTabs(FIRST_HEADER);
    assert IsSpaced(FIRST_HEADER);
  }

  lemma SecondBreaks()
    ensures NoBreaks(SECOND_HEADER) && NoTabs(SECOND_HEADER)
  {
  }

  lemma SecondSpaces()
    ensures IsSpaced(SECOND_HEADER)
  {
  }

  lemma SecondIsPlain()
    ensures IsPlain(SECOND_HEADER)
  {
    SecondBreaks();
    SecondSpaces();
  }

  lemma BothAreKnown()
    ensures IsKnown(FIRST_HEADER) && IsKnown(SECOND_HEADER)
  {
    assert KNOWN_COMMENTS[0] == FIRST_HEADER && KNOWN_COMMENTS[3] == SECOND_HEADER;
  }

  lemma HeaderPasses(now: Int64)
    ensures ParseLine(FIRST_HEADER, now) == PassedOver && ChopBom(FIRST_HEADER) == FIRST_HEADER
    ensures ParseLine(SECOND_HEADER, now) == PassedOver
    ensures NoBreaks(FIRST_HEADER) && NoBreaks(SECOND_HEADER)
  {
    FirstIsPlain();
    SecondIsPlain();
    BothAreKnown();
    PlainPasses(FIRST_HEADER, now);
    PlainPasses(SECOND_HEADER, now);
  }

  lemma FileLinesAre(a: string, b: string, text: string)
    requires NoBreaks(a) && NoBreaks(b) && ChopBom(a) == a
    ensures FileLines(a + "\n" + (b + "\n" + text)) == [a] + ([b] + SplitLines(text))
  {
    SplitsFirst(b, text);
    SplitsFirst(a, b + "\n" + text);
  }

  lemma WrittenLines(rs: seq<Rec>)
    requires AllStorable(rs)
    ensures FileLines(WrittenFile(rs)) == [FIRST_HEADER] + ([SECOND_HEADER] + (RawLines(rs) + [""]))
  {
    HeaderPasses(0);
    SplitsPrinted(rs);
    FileLinesAre(FIRST_HEADER, SECOND_HEADER, FileText(rs));
  }

  // ---- what is loaded back ----

  ghost predicate AllPrintable(w: World, rs: seq<Rec>) {
    forall i :: 0 <= i < |rs| ==> Printable(w, rs[i])
  }

  predicate AllReadable(rs: seq<Rec>) {
    forall i :: 0 <= i < |rs| ==> Readable(rs[i])
  }

  /** What cookie_set makes of any record: a public suffix reaches that host alone. */
  predicate IsMade(w: World, r: Rec) {
    IsSuffix(w, r.domain) ==> r.hostOnly
  }

  /** A record is one that cookie_set makes, of some attributes, exactly then. */
  lemma MadeExactly(w: World, r: Rec)
    ensures IsMade(w, r)
       <==> exists attr :: r == NewRec(r.domain, IsSuffix(w, r.domain), r.name, r.value, r.path, attr)
  {
    if IsMade(w, r) {
      var attr := Attr(r.hostOnly, r.secure, r.httpOnly, r.expires);
      assert r == NewRec(r.domain, IsSuffix(w, r.domain), r.name, r.value, r.path, attr);
    }
  }

  predicate AllMade(w: World, rs: seq<Rec>) {
    forall i :: 0 <= i < |rs| ==> IsMade(w, rs[i])
  }

  /** The records that have not expired. */
  function Live(rs: seq<Rec>, now: Int64): (out: seq<Rec>)
    ensures forall k :: 0 <= k < |out| ==> out[k] in rs
  {
    if rs == [] then [] else
    var n := |rs| - 1;
    Live(rs[..n], now) + if Expired(now, rs[n]) then [] else [rs[n]]
  }

  lemma LiveNext(rs: seq<Rec>, now: Int64, i: nat)
    requires i < |rs|
    ensures Live(rs[..i + 1], now) == Live(rs[..i], now) + if Expired(now, rs[i]) then [] else [rs[i]]
  {
    assert rs[..i + 1][..i] == rs[..i];
  }

  /** The load of the first i records: what the jar and the notes hold. */
  ghost predicate Meets(w: World, rs: seq<Rec>, l: Loading, i: nat) {
    && i <= |rs| && LoadingOk(l) && l.jar.recs == Rereads(Live(rs[..i], w.now))
    && (l.seen.Some? ==> Noted(rs[..i], l.seen.value.recs))
  }

  /** Only records that are known were noted. */
  ghost predicate Noted(rs: seq<Rec>, seen: seq<Rec>) {
    forall k :: 0 <= k < |seen| ==> IdOf(seen[k]) in Ids(Rereads(rs))
  }

  lemma Apart(s: JarState, maxLen: nat, w: World, j: nat, i: nat)
    requires JarOk(s, maxLen) && j < i < |s.recs| && AllPrintable(w, s.recs)
    ensures IdOf(Reread(s.recs[j])) != IdOf(Reread(s.recs[i])) && |s.recs[j].path| >= |s.recs[i].path|
  {
    RereadPrints(s.recs[j]);
    RereadPrints(s.recs[i]);
    assert Ids(s.recs)[j] != Ids(s.recs)[i];
    assert |Ids(s.recs)[j].path| >= |Ids(s.recs)[i].path|;
  }

  /** A printed line asks for the record it was printed from, reread. */
  lemma LoadsRecord(w: World, l: Loading, r: Rec)
    requires Printable(w, r) && Storable(r) && IsMade(w, r) && LoadingOk(l)
    ensures LoadLine(w, l, PrintedLine(r))
         == if !Readable(r) then Refuse(l) else if Expired(w.now, r) then l else LoadRec(w, l, Reread(r))
  {
    ParsesPrinted(w, r);
    SuffixOfPrinted(w, r);
  }

  lemma SuffixOfPrinted(w: World, r: Rec)
    requires IsMade(w, r)
    ensures IsMade(w, Reread(r))
  {
    assert !r.hostOnly ==> StripDot(PrintedDomain(r)) == StripDot(r.domain);
  }

  /** A record that the load sets as it is. */
  function LoadRec(w: World, l: Loading, q: Rec): Loading
    requires LoadingOk(l)
  {
    SetLoaded(w, l, q.domain, q.name, q.value, q.path, AttrOf(q, q.httpOnly))
  }

  /** It is new to the jar, and goes last. */
  lemma IsNew(w: World, s: JarState, maxLen: nat, l: Loading, i: nat)
    requires JarOk(s, maxLen) && i < |s.recs| && AllPrintable(w, s.recs) && Meets(w, s.recs, l, i)
    ensures var q := Reread(s.recs[i]);
            && FindExact(l.jar.recs, q.name, q.domain, q.path) == -1
            && Store(l.jar, q).recs == l.jar.recs + [q]
  {
    var q := Reread(s.recs[i]);
    var before, known := s.recs[..i], Live(s.recs[..i], w.now);
    forall k | 0 <= k < |l.jar.recs|
      ensures !IsSelf(l.jar.recs[k], q.name, q.domain, q.path) && |l.jar.recs[k].path| >= |q.path|
    {
      assert known[k] in before;
      var j :| 0 <= j < i && before[j] == known[k];
      Apart(s, maxLen, w, j, i);
    }
    StoreLast(l.jar, q);
  }

  /** And it is new to the notes. */
  lemma NotRepeated(w: World, s: JarState, maxLen: nat, seen: Option<JarState>, i: nat)
    requires JarOk(s, maxLen) && i < |s.recs| && AllPrintable(w, s.recs)
    requires seen.Some? ==> Noted(s.recs[..i], seen.value.recs)
    ensures var q := Reread(s.recs[i]); !IsRepeated(seen, q.name, q.domain, q.path)
  {
    var q := Reread(s.recs[i]);
    if IsRepeated(seen, q.name, q.domain, q.path) {
      var k := FindExact(seen.value.recs, q.name, q.domain, q.path);
      var ids := Ids(Rereads(s.recs[..i]));
      assert IdOf(seen.value.recs[k]) in ids;
      var j :| 0 <= j < i && ids[j] == IdOf(q);
      Apart(s, maxLen, w, j, i);
    }
  }

  lemma StoreLast(t: JarState, q: Rec)
    requires |t.stamps| == |t.recs|
    requires forall j :: 0 <= j < |t.recs| ==> !IsSelf(t.recs[j], q.name, q.domain, q.path)
    requires forall j :: 0 <= j < |t.recs| ==> |t.recs[j].path| >= |q.path|
    ensures FindExact(t.recs, q.name, q.domain, q.path) == -1
    ensures Store(t, q).recs == t.recs + [q]
  {
    assert FindExact(t.recs, q.name, q.domain, q.path) == -1;
    assert Place(t.recs, |q.path|) == |t.recs|;
  }

  /** A store brings in its own record only. */
  lemma StoreFrom(t: JarState, r: Rec, k: nat)
    requires |t.stamps| == |t.recs| && k < |Store(t, r).recs|
    ensures Store(t, r).recs[k] == r || Store(t, r).recs[k] in t.recs
  {
    var i := FindExact(t.recs, r.name, r.domain, r.path);
    InsertFrom(Without(t.recs, i), Place(Without(t.recs, i), |r.path|), r, k);
    WithoutFrom(t.recs, i, InsertAt(Without(t.recs, i), Place(Without(t.recs, i), |r.path|), r)[k]);
  }

  lemma InsertFrom(rs: seq<Rec>, p: nat, r: Rec, k: nat)
    requires p <= |rs| && k < |InsertAt(rs, p, r)|
    ensures InsertAt(rs, p, r)[k] == r || InsertAt(rs, p, r)[k] in rs
  {
  }

  lemma WithoutFrom(rs: seq<Rec>, i: int, r: Rec)
    requires -1 <= i < |rs|
    ensures r in Without(rs, i) ==> r in rs
  {
  }

  lemma NotesNext(w: World, rs: seq<Rec>, seen: Option<JarState>, i: nat, q: Rec)
    requires i < |rs| && q == Reread(rs[i]) && (seen.Some? ==> |seen.value.recs| == |seen.value.stamps|)
    requires seen.Some? ==> Noted(rs[..i], seen.value.recs)
    ensures var t := Note(w, seen, q.name, q.domain, q.path); t.Some? ==> Noted(rs[..i + 1], t.value.recs)
  {
    NotedMore(rs, i);
    if seen.Some? {
      var r := NewRec(q.domain, IsSuffix(w, q.domain), q.name, "", q.path, SESSION);
      var t := Note(w, seen, q.name, q.domain, q.path).value;
      assert IdOf(r) == IdOf(q);
      forall k | 0 <= k < |t.recs|
        ensures IdOf(t.recs[k]) in Ids(Rereads(rs[..i + 1]))
      {
        if t != seen.value {
          StoreFrom(seen.value, r, k);
        }
      }
    }
  }

  lemma NotedMore(rs: seq<Rec>, i: nat)
    requires i < |rs|
    ensures Ids(Rereads(rs[..i + 1])) == Ids(Rereads(rs[..i])) + [IdOf(Reread(rs[i]))]
  {
  }

  // ---- room ----

  /** Room for every record that is still live, with the headroom of the last one. */
  predicate HasRoomFor(w: World, rs: seq<Rec>) {
    |Text(Rereads(Live(rs, w.now)))| + COOKIE_HEADROOM <= w.maxLen
  }

  /** A line is at least as long as the parts that cookie_set counts. */
  lemma NeedFits(r: Rec)
    ensures Need(r) <= |Line(r)| + COOKIE_HEADROOM
  {
    var fields := Fields(r);
    forall k | 0 <= k < 6
      ensures |Join(fields[k..])| == |fields[k]| + 1 + |Join(fields[k + 1..])|
    {
      assert fields[k..][1..] == fields[k + 1..];
    }
    assert fields[6..][0] == r.value && |Join(fields[6..])| >= |r.value|;
    assert fields[0..] == fields && |fields[1]| >= 4 && |fields[3]| >= 4 && |fields[4]| >= 1;
    assert |Join(fields)| == |fields[0]| + 1 + |Join(fields[1..])|;
  }

  lemma {:induction false} LiveGrows(rs: seq<Rec>, now: Int64, i: nat)
    requires i <= |rs|
    ensures |Text(Rereads(Live(rs[..i], now)))| <= |Text(Rereads(Live(rs, now)))|
    decreases |rs|
  {
    if i == |rs| {
      assert rs[..i] == rs;
    } else {
      var n := |rs| - 1;
      LiveGrows(rs[..n], now, i);
      assert rs[..n][..i] == rs[..i] && rs[..n + 1] == rs;
      LiveNext(rs, now, n);
      if !Expired(now, rs[n]) {
        RereadsMore(Live(rs[..n], now), rs[n]);
      } else {
        assert Live(rs, now) == Live(rs[..n], now);
      }
    }
  }

  lemma RereadsMore(rs: seq<Rec>, r: Rec)
    ensures Text(Rereads(rs + [r])) == Text(Rereads(rs)) + Line(Reread(r))
  {
    assert Rereads(rs + [r]) == Rereads(rs) + [Reread(r)];
    TextConcat(Rereads(rs), [Reread(r)]);
    TextOne(Reread(r));
  }

  lemma RoomForNext(w: World, rs: seq<Rec>, i: nat, l: Loading)
    requires i < |rs| && Meets(w, rs, l, i) && HasRoomFor(w, rs) && !Expired(w.now, rs[i])
    requires FindExact(l.jar.recs, rs[i].name, Reread(rs[i]).domain, rs[i].path) == -1
    ensures HasRoom(l.jar.recs, w.maxLen, Reread(rs[i]))
  {
    LiveNext(rs, w.now, i);
    LiveGrows(rs, w.now, i + 1);
    RereadsMore(Live(rs[..i], w.now), rs[i]);
    NeedFits(Reread(rs[i]));
  }

  lemma RereadStorable(w: World, r: Rec)
    requires Storable(r) && Printable(w, r) && Readable(r)
    ensures Storable(Reread(r))
  {
    PrintedClean(r);
    assert Clean(PrintedFields(r)[0]);
  }

  // ---- line by line ----

  /** One more line: either it is refused, or the load has met its record. With
      room, it is refused exactly when its record is not readable. */
  lemma LoadsNext(w: World, s: JarState, maxLen: nat, l: Loading, i: nat)
    requires JarOk(s, maxLen) && i < |s.recs| && AllPrintable(w, s.recs) && AllMade(w, s.recs)
    requires Meets(w, s.recs, l, i)
    ensures var t := LoadLine(w, l, PrintedLine(s.recs[i]));
            && (t.refused == 0 ==> Meets(w, s.recs, t, i + 1))
            && (HasRoomFor(w, s.recs) && l.refused == 0 ==> (t.refused == 0 <==> Readable(s.recs[i])))
  {
    var r := s.recs[i];
    LoadsRecord(w, l, r);
    LiveNext(s.recs, w.now, i);
    if Readable(r) {
      if Expired(w.now, r) {
        NotedMore(s.recs, i);
      } else {
        RecordNext(w, s, maxLen, l, i);
      }
    }
  }

  lemma RecordNext(w: World, s: JarState, maxLen: nat, l: Loading, i: nat)
    requires JarOk(s, maxLen) && i < |s.recs| && AllPrintable(w, s.recs)
    requires Meets(w, s.recs, l, i) && Readable(s.recs[i]) && !Expired(w.now, s.recs[i])
    requires IsMade(w, s.recs[i])
    ensures var t := LoadRec(w, l, Reread(s.recs[i]));
            && (t.refused == 0 ==> Meets(w, s.recs, t, i + 1))
            && (HasRoomFor(w, s.recs) && l.refused == 0 ==> t.refused == 0)
  {
    var q := Reread(s.recs[i]);
    SuffixOfPrinted(w, s.recs[i]);
    NotRepeated(w, s, maxLen, l.seen, i);
    SetsNew(w, l, q);
    if SetPlain(l.jar, w.maxLen, q).Some? {
      IsNew(w, s, maxLen, l, i);
      NotesNext(w, s.recs, l.seen, i, q);
      MeetsNext(w, s.recs, l, i, LoadRec(w, l, q));
    }
    if HasRoomFor(w, s.recs) {
      IsNew(w, s, maxLen, l, i);
      RoomForNext(w, s.recs, i, l);
      RereadStorable(w, s.recs[i]);
    }
  }

  /** A record that is not repeated is refused or stored. */
  lemma SetsNew(w: World, l: Loading, q: Rec)
    requires LoadingOk(l) && IsMade(w, q) && !IsRepeated(l.seen, q.name, q.domain, q.path)
    ensures SetPlain(l.jar, w.maxLen, q) == None ==> LoadRec(w, l, q) == Refuse(l)
    ensures SetPlain(l.jar, w.maxLen, q).Some? ==>
              LoadRec(w, l, q) == Loading(Store(l.jar, q), Note(w, l.seen, q.name, q.domain, q.path), l.refused)
  {
    assert NewRec(q.domain, IsSuffix(w, q.domain), q.name, q.value, q.path, AttrOf(q, q.httpOnly)) == q;
  }

  lemma MeetsNext(w: World, rs: seq<Rec>, l: Loading, i: nat, t: Loading)
    requires i < |rs| && Meets(w, rs, l, i) && LoadingOk(t) && !Expired(w.now, rs[i])
    requires t.jar.recs == l.jar.recs + [Reread(rs[i])]
    requires t.seen.Some? ==> Noted(rs[..i + 1], t.seen.value.recs)
    ensures Meets(w, rs, t, i + 1)
  {
    LiveNext(rs, w.now, i);
    assert Rereads(Live(rs[..i], w.now) + [rs[i]]) == Rereads(Live(rs[..i], w.now)) + [Reread(rs[i])];
  }

  lemma {:induction false} RefusedStays(w: World, l: Loading, lines: seq<string>)
    requires LoadingOk(l) && l.refused != 0
    ensures Load(w, l, lines).refused != 0
    decreases |lines|
  {
    if lines != [] {
      RefusedStays(w, LoadLine(w, l, lines[0]), lines[1..]);
    }
  }

  /** The last line of a file is empty, and loads nothing. */
  lemma LastLine(w: World, l: Loading)
    requires LoadingOk(l)
    ensures Load(w, l, [""]) == l
  {
    assert ParseLine("", w.now) == PassedOver;
  }

  /** What the lines from the i-th on come to. */
  ghost predicate LoadsBack(w: World, rs: seq<Rec>, i: nat, t: Loading) {
    && i <= |rs|
    && (t.refused == 0 ==> t.jar.recs == Rereads(Live(rs, w.now)))
    && (HasRoomFor(w, rs) ==> (t.refused == 0 <==> AllReadable(rs[i..])))
  }

  lemma {:induction false} LoadsRest(w: World, s: JarState, maxLen: nat, l: Loading, i: nat)
    requires JarOk(s, maxLen) && AllPrintable(w, s.recs) && AllMade(w, s.recs)
    requires Meets(w, s.recs, l, i) && l.refused == 0
    ensures LoadsBack(w, s.recs, i, Load(w, l, RawLines(s.recs)[i..] + [""]))
    decreases |s.recs| - i
  {
    var rest := RawLines(s.recs)[i..] + [""];
    if i == |s.recs| {
      LastLine(w, l);
      assert rest == [""] && s.recs[..i] == s.recs;
    } else {
      LoadsNext(w, s, maxLen, l, i);
      ReadableFrom(s.recs, i);
      var t := LoadLine(w, l, PrintedLine(s.recs[i]));
      LoadNext(w, l, RawLines(s.recs), i);
      if t.refused == 0 {
        LoadsRest(w, s, maxLen, t, i + 1);
      } else {
        RefusedStays(w, t, RawLines(s.recs)[i + 1..] + [""]);
      }
    }
  }

  lemma LoadNext(w: World, l: Loading, lines: seq<string>, i: nat)
    requires i < |lines| && LoadingOk(l)
    ensures Load(w, l, lines[i..] + [""]) == Load(w, LoadLine(w, l, lines[i]), lines[i + 1..] + [""])
  {
    assert (lines[i..] + [""])[1..] == lines[i + 1..] + [""];
  }

  lemma ReadableFrom(rs: seq<Rec>, i: nat)
    requires i < |rs|
    ensures AllReadable(rs[i..]) <==> Readable(rs[i]) && AllReadable(rs[i + 1..])
  {
    assert rs[i..] == [rs[i]] + rs[i + 1..];
  }

  lemma RereadsPrintAlike(w: World, rs: seq<Rec>)
    requires AllPrintable(w, rs)
    ensures FileText(Rereads(rs)) == FileText(rs)
  {
    forall i | 0 <= i < |rs|
      ensures PrintedLine(Reread(rs[i])) == PrintedLine(rs[i])
    {
      RereadPrints(rs[i]);
    }
    assert PrintedLines(Rereads(rs)) == PrintedLines(rs);
  }

  // ---- the whole file ----

  /** The cookies.txt form is canonical: a file written from a jar, and loaded into
      an empty one without a refusal, gives the records that have not expired, in
      the same order, and they print the same text. With room for them, the load
      refuses nothing exactly when every record is readable. */
  lemma FileIsCanonical(w: World, s: JarState, maxLen: nat, mem: bool)
    requires JarOk(s, maxLen) && AllPrintable(w, s.recs) && AllMade(w, s.recs)
    ensures var t := Load(w, StartLoad(EMPTY_JAR, mem), FileLines(WrittenFile(s.recs)));
            && (t.refused == 0 ==> && t.jar.recs == Rereads(Live(s.recs, w.now))
                                   && WrittenFile(t.jar.recs) == WrittenFile(Live(s.recs, w.now)))
            && (HasRoomFor(w, s.recs) ==> (t.refused == 0 <==> AllReadable(s.recs)))
  {
    var l, lines := StartLoad(EMPTY_JAR, mem), RawLines(s.recs) + [""];
    WrittenLines(s.recs);
    HeaderLoads(w, l, lines);
    assert s.recs[..0] == [] && RawLines(s.recs)[0..] == RawLines(s.recs) && s.recs[0..] == s.recs;
    LoadsRest(w, s, maxLen, l, 0);
    RereadsPrintAlike(w, Live(s.recs, w.now));
  }

  lemma HeaderLoads(w: World, l: Loading, lines: seq<string>)
    requires LoadingOk(l)
    ensures Load(w, l, [FIRST_HEADER] + ([SECOND_HEADER] + lines)) == Load(w, l, lines)
  {
    HeaderPasses(w.now);
    PassesOver(w, l, FIRST_HEADER, [SECOND_HEADER] + lines);
    PassesOver(w, l, SECOND_HEADER, lines);
  }

  lemma PassesOver(w: World, l: Loading, line: string, lines: seq<string>)
    requires LoadingOk(l) && ParseLine(line, w.now) == PassedOver
    ensures Load(w, l, [line] + lines) == Load(w, l, lines)
  {
    assert ([line] + lines)[1..] == lines;
  }

  // ---- every run ----

  /** An operation as cookie_set and cookie_set_capped run it on this machine. */
  predicate OpMade(w: World, op: Op) {
    match op
    case SetOp(r) => IsMade(w, r)
    case SetCappedOp(r) => IsMade(w, r)
    case RemoveOp(_, _, _) => true
  }

  lemma StoreMade(w: World, t: JarState, r: Rec)
    requires |t.stamps| == |t.recs| && AllMade(w, t.recs) && IsMade(w, r)
    ensures AllMade(w, Store(t, r).recs)
  {
    forall k | 0 <= k < |Store(t, r).recs|
      ensures IsMade(w, Store(t, r).recs[k])
    {
      StoreFrom(t, r, k);
    }
  }

  lemma ApplyMade(w: World, t: JarState, maxLen: nat, op: Op)
    requires |t.stamps| == |t.recs| && AllMade(w, t.recs) && OpMade(w, op)
    ensures AllMade(w, Apply(t, maxLen, op).recs)
  {
    match op
    case SetOp(r) => StoreMade(w, t, r);
    case SetCappedOp(r) => CappedMade(w, t, maxLen, r);
    case RemoveOp(_, _, _) =>
  }

  lemma CappedMade(w: World, t: JarState, maxLen: nat, r: Rec)
    requires |t.stamps| == |t.recs| && AllMade(w, t.recs) && IsMade(w, r)
    ensures AllMade(w, SetCapped(t, maxLen, r).GetOr(t).recs)
  {
    var gone := CappedIs(t, maxLen, r);
    StoreMade(w, t, r);
    EvictMade(w, t, gone);
    StoreMade(w, Evict(t, gone), r);
  }

  /** A capped set is refused, or stores, with or without an eviction. */
  lemma CappedIs(t: JarState, maxLen: nat, r: Rec) returns (gone: set<nat>)
    requires |t.stamps| == |t.recs|
    ensures SetCapped(t, maxLen, r) in {None, Some(Store(t, r)), Some(Store(Evict(t, gone), r))}
  {
    gone := {};
    if Need(r) <= maxLen && Plan(DemandOf(t.recs, maxLen, r)).Some? {
      gone := SetOf(Plan(DemandOf(t.recs, maxLen, r)).value);
    }
  }

  lemma EvictMade(w: World, t: JarState, gone: set<nat>)
    requires |t.stamps| == |t.recs| && AllMade(w, t.recs)
    ensures AllMade(w, Evict(t, gone).recs)
  {
  }

  lemma {:induction false} RunMade(w: World, maxLen: nat, ops: seq<Op>)
    requires forall i :: 0 <= i < |ops| ==> OpMade(w, ops[i])
    ensures AllMade(w, Run(maxLen, ops).recs)
  {
    if ops != [] {
      RunMade(w, maxLen, ops[..|ops| - 1]);
      ApplyMade(w, Run(maxLen, ops[..|ops| - 1]), maxLen, ops[|ops| - 1]);
    }
  }

  /** So it is for the file of every jar reached from the empty one. */
  lemma RunIsCanonical(w: World, maxLen: nat, ops: seq<Op>, mem: bool)
    requires 0 < maxLen && forall i :: 0 <= i < |ops| ==> OpMade(w, ops[i])
    requires AllPrintable(w, Run(maxLen, ops).recs)
    ensures var rs := Run(maxLen, ops).recs;
            var t := Load(w, StartLoad(EMPTY_JAR, mem), FileLines(WrittenFile(rs)));
            && (t.refused == 0 ==> && t.jar.recs == Rereads(Live(rs, w.now))
                                   && WrittenFile(t.jar.recs) == WrittenFile(Live(rs, w.now)))
            && (HasRoomFor(w, rs) ==> (t.refused == 0 <==> AllReadable(rs)))
  {
    RunOk(maxLen, ops);
    RunMade(w, maxLen, ops);
    FileIsCanonical(w, Run(maxLen, ops), maxLen, mem);
  }

  // ---- a file that repeats a record ----

  /** A record whose line a load stores when there is room. */
  ghost predicate IsLoadable(w: World, r: Rec) {
    && Storable(r) && Printable(w, r) && IsMade(w, r) && Readable(r) && !Expired(w.now, r)
    && Need(Reread(r)) <= w.maxLen
  }

  lemma StoreAlone(t: JarState, q: Rec)
    requires |t.stamps| == |t.recs| && (t.recs == [] || (|t.recs| == 1 && IdOf(t.recs[0]) == IdOf(q)))
    ensures Store(t, q).recs == [q] && FindExact(t.recs, q.name, q.domain, q.path) == |t.recs| - 1
  {
    if t.recs == [] {
      StoreLast(t, q);
    } else {
      FindExactIs(t.recs, q.name, q.domain, q.path, 0);
      assert Without(t.recs, 0) == [];
    }
  }

  lemma RoomAlone(t: JarState, maxLen: nat, q: Rec)
    requires |t.stamps| == |t.recs| && (t.recs == [] || (|t.recs| == 1 && IdOf(t.recs[0]) == IdOf(q)))
    requires Need(q) <= maxLen
    ensures HasRoom(t.recs, maxLen, q)
  {
    StoreAlone(t, q);
    if t.recs == [] {
      assert Text(t.recs) == "" by {
        assert Lines(t.recs) == [];
      }
    } else {
      TextOne(t.recs[0]);
      assert t.recs == [t.recs[0]];
    }
  }

  lemma FirstIsNoted(w: World, q: Rec)
    requires Storable(q)
    ensures var t := Note(w, Some(EMPTY_JAR), q.name, q.domain, q.path);
            t.Some? && |t.value.recs| == 1 && IdOf(t.value.recs[0]) == IdOf(q)
  {
    var r := NewRec(q.domain, IsSuffix(w, q.domain), q.name, "", q.path, SESSION);
    RoomAlone(EMPTY_JAR, SEEN_LEN, r);
    StoreAlone(EMPTY_JAR, r);
  }

  /** The last one of two is in the jar, and one counts as refused, since a rewrite of the
      file would lose it. */
  lemma RepeatIsCounted(w: World, r: Rec, q: Rec)
    requires IsLoadable(w, r) && IsLoadable(w, q) && IdOf(Reread(r)) == IdOf(Reread(q))
    ensures var t := Load(w, StartLoad(EMPTY_JAR, true), [PrintedLine(r), PrintedLine(q)]);
            t.jar.recs == [Reread(q)] && t.refused == 1
  {
    var l, q1, q2 := StartLoad(EMPTY_JAR, true), Reread(r), Reread(q);
    LoadsRecord(w, l, r);
    RereadStorable(w, r);
    SuffixOfPrinted(w, r);
    RoomAlone(EMPTY_JAR, w.maxLen, q1);
    StoreAlone(EMPTY_JAR, q1);
    SetsNew(w, l, q1);
    FirstIsNoted(w, q1);
    var l1 := LoadRec(w, l, q1);
    SecondCounts(w, l1, q, q2);
    TwoLines(w, l, PrintedLine(r), PrintedLine(q));
  }

  lemma SecondCounts(w: World, l: Loading, q: Rec, q2: Rec)
    requires LoadingOk(l) && l.refused == 0 && IsLoadable(w, q) && q2 == Reread(q)
    requires |l.jar.recs| == 1 && IdOf(l.jar.recs[0]) == IdOf(q2)
    requires l.seen.Some? && |l.seen.value.recs| == 1 && IdOf(l.seen.value.recs[0]) == IdOf(q2)
    ensures var t := LoadLine(w, l, PrintedLine(q)); t.jar.recs == [q2] && t.refused == 1
  {
    LoadsRecord(w, l, q);
    RereadStorable(w, q);
    SuffixOfPrinted(w, q);
    RoomAlone(l.jar, w.maxLen, q2);
    StoreAlone(l.jar, q2);
    FindExactIs(l.seen.value.recs, q2.name, q2.domain, q2.path, 0);
    assert NewRec(q2.domain, IsSuffix(w, q2.domain), q2.name, q2.value, q2.path, AttrOf(q2, q2.httpOnly)) == q2;
  }

  lemma TwoLines(w: World, l: Loading, a: string, b: string)
    requires LoadingOk(l)
    ensures Load(w, l, [a, b]) == LoadLine(w, LoadLine(w, l, a), b)
  {
    var t := LoadLine(w, l, a);
    assert [a, b][1..] == [b] && [b][1..] == [];
    assert Load(w, t, [b]) == LoadLine(w, t, b);
  }
}
