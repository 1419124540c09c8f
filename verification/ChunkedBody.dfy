/** A well-formed chunked body, as section 7.1 of RFC 9112 writes one, is decoded
    to its data. */
module ChunkedBody {
  import opened Wrappers
  import opened Chunked
  import opened ChunkedLaws
  import opened ChunkedSize

  const CRLF := "\r\n"

  /** A chunk: its size in hex digits, its extensions, its data. */
  datatype Chunk = Chunk(hex: string, ext: string, data: string)

  predicate LineText(s: string) {
    forall i :: 0 <= i < |s| ==> s[i] != CR && s[i] != LF
  }

  /** The grammar, and the code's own limits: the line is shorter than 32 bytes
      with its LF, the size fits an int, and an extension starts with ';' or a
      space. The grammar allows a TAB there too (Tabbed), which the code refuses. */
  predicate SizeLine(hex: string, ext: string, n: nat) {
    && Spells(hex, n) && n <= 0x7FFF_FFFF
    && LineText(ext) && (ext == "" || ext[0] == ';' || ext[0] == ' ')
    && |hex| + |ext| + 1 < CHUNK_LINE_MAX
  }

  predicate ChunkOk(c: Chunk) {
    SizeLine(c.hex, c.ext, |c.data|) && |c.data| > 0
  }

  function Encode(c: Chunk): string {
    c.hex + c.ext + CRLF + c.data + CRLF
  }

  /** What follows the last data: the zero-size line, the trailers, the blank line. */
  datatype End = End(hex: string, ext: string, trailers: seq<string>)

  function TrailerText(trailers: seq<string>): string {
    if trailers == [] then "" else trailers[0] + CRLF + TrailerText(trailers[1..])
  }

  function KeptTrailers(trailers: seq<string>): nat {
    if trailers == [] then 0 else |trailers[0]| + 1 + KeptTrailers(trailers[1..])
  }

  predicate EndOk(e: End) {
    && SizeLine(e.hex, e.ext, 0)
    && (forall i :: 0 <= i < |e.trailers| ==> e.trailers[i] != "" && LineText(e.trailers[i]))
    && KeptTrailers(e.trailers) < HTS_LINE_BLOCK_SIZE - 2
  }

  function EncodeEnd(e: End): string {
    e.hex + e.ext + CRLF + TrailerText(e.trailers) + CRLF
  }

  function EncodeAll(chunks: seq<Chunk>, e: End): string {
    if chunks == [] then EncodeEnd(e) else Encode(chunks[0]) + EncodeAll(chunks[1..], e)
  }

  function Data(chunks: seq<Chunk>): string {
    if chunks == [] then "" else chunks[0].data + Data(chunks[1..])
  }

  /** The transfer's limits let a body of this size through. */
  ghost predicate Admits(w: World, total: nat) {
    forall n: nat :: n <= total ==>
      !w.tooBig(n) && (w.inMemory ==> n < INT32_MAX && w.allocates(n))
  }

  // ---- one line ----

  lemma {:induction false} TakesText(w: World, s: Slot, text: string)
    requires SlotOk(s) && InHeader(s) && LineText(text)
    requires |s.line| + |text| < HTS_LINE_BLOCK_SIZE - 2
    ensures TakeAll(w, s, text) == s.(line := s.line + text)
    decreases |text|
  {
    if text != "" {
      TakeByteOk(w, s, text[0]);
      var t := s.(line := s.line + [text[0]]);
      assert TakeByte(w, s, text[0]) == t;
      TakesText(w, t, text[1..]);
      assert t.line + text[1..] == s.line + text;
    } else {
      assert s.line + text == s.line;
    }
  }

  /** The CRLF that closes a size line, or the line past a chunk's data. */
  lemma TakesLine(w: World, s: Slot, text: string)
    requires SlotOk(s) && InHeader(s) && !InTrailers(s) && s.line == "" && LineText(text)
    requires |text| + 1 < HTS_LINE_BLOCK_SIZE - 2
    ensures TakeAll(w, s, text + CRLF) == TakeLine(w, s, text + [LF])
  {
    TakesText(w, s, text);
    TakeConcat(w, s, text, CRLF);
    var t := TakeAll(w, s, text);
    assert t.line == text;
    ClosesLine(w, t);
    TakeLineForgets(w, s, t, text + [LF]);
  }

  lemma ClosesLine(w: World, s: Slot)
    requires SlotOk(s) && InHeader(s) && |s.line| + 1 < HTS_LINE_BLOCK_SIZE - 2
    ensures TakeAll(w, s, CRLF) == TakeByte(w, s, LF)
  {
    TakeByteOk(w, s, CR);
    assert TakeByte(w, s, CR) == s;
    TakeByteOk(w, s, LF);
    assert CRLF[1..] == [LF] && [LF][1..] == "";
    assert TakeAll(w, s, CRLF) == TakeAll(w, s, [LF]);
    assert TakeAll(w, TakeByte(w, s, LF), "") == TakeByte(w, s, LF);
  }

  /** What a line does depends on the line alone, not on the buffer before it. */
  lemma TakeLineForgets(w: World, s: Slot, t: Slot, line: string)
    requires InHeader(s) && Complete(line, InTrailers(s)) && t == s.(line := t.line)
    ensures TakeLine(w, s, line) == TakeLine(w, t, line)
  {
  }

  // ---- the size line ----

  lemma HexBytes(hex: string)
    requires AllHex(hex)
    ensures forall i :: 0 <= i < |hex| ==>
              !IsSpace(hex[i]) && hex[i] != ';' && hex[i] != '\0' && hex[i] != CR && hex[i] != LF
              && hex[i] != '-' && hex[i] != '+' && hex[i] != 'x' && hex[i] != 'X'
  {
    forall i | 0 <= i < |hex|
      ensures !IsSpace(hex[i]) && hex[i] != ';' && hex[i] != '\0' && hex[i] != CR && hex[i] != LF
      ensures hex[i] != '-' && hex[i] != '+' && hex[i] != 'x' && hex[i] != 'X'
    {
      assert HexDigit(hex[i]) >= 0;
    }
  }

  lemma SizeText(hex: string, ext: string, n: nat)
    requires SizeLine(hex, ext, n)
    ensures AllHex(hex) && ChunkText(hex + ext + [LF]) == hex && ChunkSize(hex) == Some(n)
  {
    SpellsExactly(hex, n);
    HexBytes(hex);
    LineGives(hex + ext, "", hex, ext);
    assert "" + hex + ext == hex + ext;
    assert IsForm(hex, "", "", hex) && Gives("", n, n);
    SizeExactly(hex, n);
  }

  /** An extension as section 7.1.1 opens one: spaces and TABs, then a semicolon. */
  predicate IsExtension(ext: string) {
    ext != "" && (ext[0] == ';' || ((ext[0] == ' ' || ext[0] == '\t') && IsExtension(ext[1..])))
  }

  predicate Tabbed(ext: string) {
    ext != "" && ext[0] == '\t'
  }

  /** A size line of the grammar within the code's limits. */
  predicate GrammarLine(hex: string, ext: string, n: nat) {
    && Spells(hex, n) && n <= 0x7FFF_FFFF
    && LineText(ext) && (ext == "" || IsExtension(ext)) && |hex| + |ext| + 1 < CHUNK_LINE_MAX
  }

  /** A TAB before the extension makes the chunk illegal. */
  lemma TabText(hex: string, ext: string)
    requires hex != "" && AllHex(hex) && Tabbed(ext)
    ensures ChunkSize(ChunkText(hex + ext + [LF])) == None
  {
    var line := hex + ext + [LF];
    HexBytes(hex);
    assert line[..|line| - 1] == hex + ext;
    CutsAfter(hex, ext, '\0');
    var e1 := CutAt(ext, '\0');
    assert SkipSpace(hex + e1) == hex + e1;
    CutsAfter(hex, e1, ';');
    var e2 := CutAt(e1, ';');
    CutsAfter(hex, e2, ' ');
    var e3 := CutAt(e2, ' ');
    var text := hex + e3;
    assert e3[0] == '\t' && text[|hex|] == '\t' && HexDigit('\t') < 0;
    TabStays(text, |hex|);
  }

  /** The line ends the transfer in error, whatever came before it. */
  lemma TabRefused(w: World, s: Slot, hex: string, ext: string, n: nat)
    requires SlotOk(s) && s.status == ChunkWait && s.line == ""
    requires GrammarLine(hex, ext, n) && Tabbed(ext)
    ensures ChunkSize(ChunkText(hex + ext + [LF])) == None
    ensures var t := TakeAll(w, s, hex + ext + CRLF);
            SlotOk(t) && t.status == Ready && t.statuscode == STATUSCODE_INVALID
  {
    var text := hex + ext;
    SpellsExactly(hex, n);
    HexBytes(hex);
    assert LineText(text);
    TabText(hex, ext);
    TakesLine(w, s, text);
    assert |text + [LF]| < CHUNK_LINE_MAX;
    assert TakeLine(w, s, text + [LF]) == TakeText(w, s, ChunkText(text + [LF]));
  }

  lemma GrammarIsSizeLine(hex: string, ext: string, n: nat)
    requires GrammarLine(hex, ext, n)
    ensures SizeLine(hex, ext, n) <==> !Tabbed(ext)
  {
  }

  lemma TabStays(text: string, i: nat)
    requires 0 < i < |text| && HexDigit(text[i]) < 0 && text[0] != '-' && text[0] != '+'
    requires forall j :: 0 <= j <= i ==> text[j] != 'x' && text[j] != 'X'
    ensures StrToUll(text) == None
  {
    assert !AllHex(text);
  }

  // ---- a chunk, then the end ----

  /** The slot after a size line that declares n bytes, when the limits allow. */
  lemma TakesSize(w: World, s: Slot, hex: string, ext: string, n: nat)
    requires SlotOk(s) && s.status == ChunkWait && s.line == "" && SizeLine(hex, ext, n)
    requires Admits(w, Sum(s.sizes) + n)
    ensures TakeAll(w, s, hex + ext + CRLF)
         == s.(status := if n > 0 then Transfer else ChunkCr, blocksize := if n > 0 then n else -1,
               totalsize := Sum(s.sizes) + n, sizes := s.sizes + [n])
  {
    var text := hex + ext;
    SizeText(hex, ext, n);
    HexBytes(hex);
    assert LineText(text);
    TakesLine(w, s, text);
    assert TakeLine(w, s, text + [LF]) == TakeText(w, s, hex);
    SizeTaken(w, s, hex, n);
  }

  lemma SizeTaken(w: World, s: Slot, hex: string, n: nat)
    requires SlotOk(s) && s.status == ChunkWait && s.line == ""
    requires ChunkSize(hex) == Some(n) && Admits(w, Sum(s.sizes) + n)
    ensures TakeText(w, s, hex)
         == s.(status := if n > 0 then Transfer else ChunkCr, blocksize := if n > 0 then n else -1,
               totalsize := Sum(s.sizes) + n, sizes := s.sizes + [n])
  {
    assert s.sizes == [] ==> Sum(s.sizes) == 0;
    var total: nat := Sum(s.sizes) + n;
    assert !w.tooBig(total);
  }

  /** The slot after a whole chunk. */
  function After(s: Slot, c: Chunk): Slot {
    s.(blocksize := |c.data|, totalsize := Sum(s.sizes) + |c.data|, sizes := s.sizes + [|c.data|],
       size := s.size + |c.data|, body := s.body + c.data)
  }

  /** The CRLF past a chunk's data. */
  lemma TakesCrlf(w: World, s: Slot)
    requires SlotOk(s) && s.status == ChunkCr && s.blocksize > 0 && s.line == ""
    ensures TakeAll(w, s, CRLF) == s.(status := ChunkWait)
  {
    TakesLine(w, s, "");
    assert "" + CRLF == CRLF && "" + [LF] == [LF];
    NoText();
  }

  lemma NoText()
    ensures ChunkText([LF]) == ""
  {
    assert [LF][..0] == "";
  }

  lemma TakesChunk(w: World, s: Slot, c: Chunk)
    requires SlotOk(s) && s.status == ChunkWait && s.line == "" && ChunkOk(c)
    requires Admits(w, Sum(s.sizes) + |c.data|)
    ensures TakeAll(w, s, Encode(c)) == After(s, c)
  {
    var line, total := c.hex + c.ext + CRLF, Sum(s.sizes) + |c.data|;
    TakesSize(w, s, c.hex, c.ext, |c.data|);
    var t := s.(status := Transfer, blocksize := |c.data|, totalsize := total, sizes := s.sizes + [|c.data|]);
    TakesData(w, s, t, c);
    TakeThree(w, s, line, c.data, CRLF);
  }

  lemma TakesData(w: World, s: Slot, t: Slot, c: Chunk)
    requires s.status == ChunkWait && s.line == "" && s.size == Sum(s.sizes) && SlotOk(t) && |c.data| > 0
    requires t == s.(status := Transfer, blocksize := |c.data|, totalsize := Sum(s.sizes) + |c.data|,
                     sizes := s.sizes + [|c.data|])
    ensures TakeAll(w, TakeAll(w, t, c.data), CRLF) == After(s, c)
  {
    BodyInOneRead(w, t, c.data);
    var u := After(s, c).(status := ChunkCr);
    assert TakeAll(w, t, c.data) == u;
    TakesCrlf(w, u);
  }

  lemma TakeThree(w: World, s: Slot, a: string, b: string, c: string)
    requires SlotOk(s)
    ensures TakeAll(w, s, a + b + c) == TakeAll(w, TakeAll(w, TakeAll(w, s, a), b), c)
  {
    TakeConcat(w, s, a + b, c);
    TakeConcat(w, s, a, b);
  }

  lemma {:induction false} TakesTrailers(w: World, s: Slot, trailers: seq<string>)
    requires SlotOk(s) && InTrailers(s) && (s.line == "" || s.line[|s.line| - 1] == LF)
    requires forall i :: 0 <= i < |trailers| ==> trailers[i] != "" && LineText(trailers[i])
    requires |s.line| + KeptTrailers(trailers) < HTS_LINE_BLOCK_SIZE - 2
    ensures TakeAll(w, s, TrailerText(trailers) + CRLF) == Finished(w, s)
    decreases |trailers|
  {
    if trailers == [] {
      assert TrailerText(trailers) + CRLF == CRLF;
      ClosesSection(w, s);
    } else {
      var first, rest := trailers[0], TrailerText(trailers[1..]) + CRLF;
      assert TrailerText(trailers) + CRLF == (first + CRLF) + rest;
      TakesField(w, s, first);
      var t := s.(line := s.line + first + [LF]);
      TakeConcat(w, s, first + CRLF, rest);
      TakesTrailers(w, t, trailers[1..]);
      assert Finished(w, t) == Finished(w, s);
    }
  }

  lemma ClosesSection(w: World, s: Slot)
    requires SlotOk(s) && InTrailers(s) && (s.line == "" || s.line[|s.line| - 1] == LF)
    requires |s.line| < HTS_LINE_BLOCK_SIZE - 2
    ensures TakeAll(w, s, CRLF) == Finished(w, s)
  {
    TakeByteOk(w, s, CR);
    assert TakeByte(w, s, CR) == s;
    TakeByteOk(w, s, LF);
    assert Complete(s.line + [LF], true);
    assert CRLF[1..] == [LF] && [LF][1..] == "";
    assert TakeAll(w, s, CRLF) == TakeAll(w, s, [LF]);
    assert TakeAll(w, TakeByte(w, s, LF), "") == TakeByte(w, s, LF);
  }

  lemma TakesField(w: World, s: Slot, field: string)
    requires SlotOk(s) && InTrailers(s) && field != "" && LineText(field)
    requires |s.line| + |field| + 1 < HTS_LINE_BLOCK_SIZE - 2
    ensures var t := s.(line := s.line + field + [LF]);
            SlotOk(t) && TakeAll(w, s, field + CRLF) == t
  {
    TakesText(w, s, field);
    TakeConcat(w, s, field, CRLF);
    var u := s.(line := s.line + field);
    ClosesLine(w, u);
    var line := u.line + [LF];
    assert line[|line| - 2] == field[|field| - 1];
    assert !Complete(line, true);
  }

  /** The transfer is over and stored, with this body. */
  predicate Decoded(t: Slot, body: string, statuscode: int) {
    t.status == Ready && t.body == body && t.statuscode == statuscode && t.stored == (statuscode > 0) && ZeroSeen(t)
  }

  lemma TakesEnd(w: World, s: Slot, e: End)
    requires SlotOk(s) && s.status == ChunkWait && s.line == "" && EndOk(e) && Admits(w, Sum(s.sizes))
    ensures Decoded(TakeAll(w, s, EncodeEnd(e)), s.body, s.statuscode)
  {
    var line, rest := e.hex + e.ext + CRLF, TrailerText(e.trailers) + CRLF;
    TakesSize(w, s, e.hex, e.ext, 0);
    TakeConcat(w, s, line, rest);
    TakesTrailers(w, TakeAll(w, s, line), e.trailers);
    assert EncodeEnd(e) == line + rest;
  }

  /** A chunk leaves the slot ready for the rest. */
  lemma TakesOne(w: World, s: Slot, c: Chunk, rest: string) returns (t: Slot)
    requires SlotOk(s) && s.status == ChunkWait && s.line == "" && ChunkOk(c)
    requires Admits(w, Sum(s.sizes) + |c.data|)
    ensures SlotOk(t) && t.status == ChunkWait && t.line == "" && t.body == s.body + c.data
    ensures t.statuscode == s.statuscode && Sum(t.sizes) == Sum(s.sizes) + |c.data|
    ensures TakeAll(w, s, Encode(c) + rest) == TakeAll(w, t, rest)
  {
    TakesChunk(w, s, c);
    SumSnoc(s.sizes, |c.data|);
    TakeConcat(w, s, Encode(c), rest);
    t := TakeAll(w, s, Encode(c));
  }

  lemma {:induction false} TakesBody(w: World, s: Slot, chunks: seq<Chunk>, e: End)
    requires SlotOk(s) && s.status == ChunkWait && s.line == "" && EndOk(e)
    requires forall i :: 0 <= i < |chunks| ==> ChunkOk(chunks[i])
    requires Admits(w, Sum(s.sizes) + |Data(chunks)|)
    ensures Decoded(TakeAll(w, s, EncodeAll(chunks, e)), s.body + Data(chunks), s.statuscode)
    decreases |chunks|
  {
    if chunks == [] {
      TakesEnd(w, s, e);
      assert s.body + Data(chunks) == s.body;
    } else {
      var c, others := chunks[0], chunks[1..];
      DataNext(w, s, chunks);
      var t := TakesOne(w, s, c, EncodeAll(others, e));
      TakesBody(w, t, others, e);
      assert EncodeAll(chunks, e) == Encode(c) + EncodeAll(others, e);
    }
  }

  lemma DataNext(w: World, s: Slot, chunks: seq<Chunk>)
    requires chunks != [] && Admits(w, Sum(s.sizes) + |Data(chunks)|)
    ensures Admits(w, Sum(s.sizes) + |chunks[0].data|)
    ensures Sum(s.sizes) + |chunks[0].data| + |Data(chunks[1..])| == Sum(s.sizes) + |Data(chunks)|
    ensures s.body + chunks[0].data + Data(chunks[1..]) == s.body + Data(chunks)
  {
  }

  /** A well-formed chunked body within the limits ends Ready and stored, with its
      data intact. How the reads split it does not matter (BodyInOneRead and
      LinesInOneRead). */
  lemma WellFormedDecodes(w: World, statuscode: int, chunks: seq<Chunk>, e: End)
    requires statuscode > 0 && EndOk(e) && forall i :: 0 <= i < |chunks| ==> ChunkOk(chunks[i])
    requires Admits(w, |Data(chunks)|)
    ensures var t := TakeAll(w, Start(statuscode), EncodeAll(chunks, e));
            t.status == Ready && t.stored && t.body == Data(chunks) && t.statuscode == statuscode
  {
    TakesBody(w, Start(statuscode), chunks, e);
    assert "" + Data(chunks) == Data(chunks);
  }

  // ---- every body of the grammar ----

  predicate GrammarChunk(c: Chunk) {
    GrammarLine(c.hex, c.ext, |c.data|) && |c.data| > 0
  }

  predicate GrammarEnd(e: End) {
    && GrammarLine(e.hex, e.ext, 0)
    && (forall i :: 0 <= i < |e.trailers| ==> e.trailers[i] != "" && LineText(e.trailers[i]))
    && KeptTrailers(e.trailers) < HTS_LINE_BLOCK_SIZE - 2
  }

  /** Does any size line put a TAB in front of its extension? */
  predicate AnyTab(chunks: seq<Chunk>, e: End) {
    if chunks == [] then Tabbed(e.ext) else Tabbed(chunks[0].ext) || AnyTab(chunks[1..], e)
  }

  lemma TabEnds(w: World, s: Slot, hex: string, ext: string, n: nat, rest: string)
    requires SlotOk(s) && s.status == ChunkWait && s.line == "" && GrammarLine(hex, ext, n) && Tabbed(ext)
    ensures var t := TakeAll(w, s, hex + ext + CRLF + rest); t.status == Ready && t.statuscode == STATUSCODE_INVALID
  {
    TabRefused(w, s, hex, ext, n);
    TakeConcat(w, s, hex + ext + CRLF, rest);
    ReadyStays(w, TakeAll(w, s, hex + ext + CRLF), rest);
  }

  lemma TabInChunk(w: World, s: Slot, c: Chunk, after: string)
    requires SlotOk(s) && s.status == ChunkWait && s.line == "" && GrammarChunk(c) && Tabbed(c.ext)
    ensures var t := TakeAll(w, s, Encode(c) + after); t.status == Ready && t.statuscode == STATUSCODE_INVALID
  {
    var rest := c.data + CRLF + after;
    assert Encode(c) + after == c.hex + c.ext + CRLF + rest;
    TabEnds(w, s, c.hex, c.ext, |c.data|, rest);
  }

  lemma {:induction false} TabStops(w: World, s: Slot, chunks: seq<Chunk>, e: End)
    requires SlotOk(s) && s.status == ChunkWait && s.line == "" && AnyTab(chunks, e) && GrammarEnd(e)
    requires forall i :: 0 <= i < |chunks| ==> GrammarChunk(chunks[i])
    requires Admits(w, Sum(s.sizes) + |Data(chunks)|)
    ensures var t := TakeAll(w, s, EncodeAll(chunks, e)); t.status == Ready && t.statuscode == STATUSCODE_INVALID
    decreases |chunks|
  {
    if chunks == [] {
      var rest := TrailerText(e.trailers) + CRLF;
      assert EncodeEnd(e) == e.hex + e.ext + CRLF + rest;
      TabEnds(w, s, e.hex, e.ext, 0, rest);
    } else {
      var c, others := chunks[0], chunks[1..];
      assert EncodeAll(chunks, e) == Encode(c) + EncodeAll(others, e);
      if Tabbed(c.ext) {
        TabInChunk(w, s, c, EncodeAll(others, e));
      } else {
        GrammarIsSizeLine(c.hex, c.ext, |c.data|);
        DataNext(w, s, chunks);
        var t := TakesOne(w, s, c, EncodeAll(others, e));
        TabStops(w, t, others, e);
      }
    }
  }

  lemma {:induction false} NoTabs(chunks: seq<Chunk>, e: End)
    requires !AnyTab(chunks, e) && GrammarEnd(e) && forall i :: 0 <= i < |chunks| ==> GrammarChunk(chunks[i])
    ensures EndOk(e) && forall i :: 0 <= i < |chunks| ==> ChunkOk(chunks[i])
  {
    if chunks == [] {
      GrammarIsSizeLine(e.hex, e.ext, 0);
    } else {
      GrammarIsSizeLine(chunks[0].hex, chunks[0].ext, |chunks[0].data|);
      NoTabs(chunks[1..], e);
      forall i | 0 <= i < |chunks| ensures ChunkOk(chunks[i]) {
        assert i > 0 ==> chunks[i] == chunks[1..][i - 1];
      }
    }
  }

  /** A body of the grammar within the limits is stored with its data intact if and
      only if no size line has a TAB in front of its extension; otherwise the
      transfer ends in error. */
  lemma GrammarDecodesExactly(w: World, statuscode: int, chunks: seq<Chunk>, e: End)
    requires statuscode > 0 && GrammarEnd(e) && forall i :: 0 <= i < |chunks| ==> GrammarChunk(chunks[i])
    requires Admits(w, |Data(chunks)|)
    ensures var t := TakeAll(w, Start(statuscode), EncodeAll(chunks, e));
            && t.status == Ready
            && (t.stored && t.body == Data(chunks) && t.statuscode == statuscode <==> !AnyTab(chunks, e))
            && (AnyTab(chunks, e) ==> t.statuscode == STATUSCODE_INVALID)
  {
    if AnyTab(chunks, e) {
      TabStops(w, Start(statuscode), chunks, e);
    } else {
      NoTabs(chunks, e);
      WellFormedDecodes(w, statuscode, chunks, e);
    }
  }
}
