/** The pointer-and-buffer code that splits a pasted command. */
module CurlSplit {
  import opened Wrappers
  import opened Bytes
  import opened Curl
  import CurlLaws
  import Utf8

  /** The bytes of a code point, as the shifts and masks give them. */
  method PutUtf8(word: seq<Byte>, cp: nat) returns (out: seq<Byte>)
    requires cp < 0x11_0000
    ensures out == word + Utf8.Encode(cp)
  {
    if cp < 0x80 {
      out := word + [cp];
    } else if cp < 0x800 {
      out := word + [0xC0 + cp / 0x40, 0x80 + cp % 0x40];
    } else if cp < 0x1_0000 {
      out := word + [0xE0 + cp / 0x1000, 0x80 + cp / 0x40 % 0x40, 0x80 + cp % 0x40];
    } else {
      out := word + [0xF0 + cp / 0x4_0000, 0x80 + cp / 0x1000 % 0x40, 0x80 + cp / 0x40 % 0x40, 0x80 + cp % 0x40];
    }
  }

  method HexRunHere(s: seq<Byte>, p: nat, n: nat) returns (v: int)
    requires p <= |s|
    ensures match HexRun(s[p..], 0, n) case Ok(x) => v == x case Err(_) => v == -1
    ensures (n == 2 ==> v < 0x100) && (n == 4 ==> v < 0x1_0000)
  {
    v := 0;
    ghost var t := s[p..];
    assert t[..0] == [];
    for i := 0 to n
      invariant p + i <= |s| && i <= |t| && AllHex(t[..i]) && v == HexValue(t[..i])
    {
      var d := if p + i < |s| then HexDigit(s[p + i]) else -1;
      if d < 0 {
        if p + n <= |s| {
          assert HexDigit(t[0..n][i]) == d;
        }
        return -1;
      }
      assert t[..i + 1][..i] == t[..i];
      v := v * 16 + d;
    }
    assert t[0..n] == t[..n];
    HexBound(t[..n]);
  }

  // ---- one escape ----

  /** What one piece of a quote ends in: an error, or the piece decoded behind the
      word and the bytes after it. */
  ghost predicate Took(s: seq<Byte>, p: nat, word: seq<Byte>, why: Option<Error>, q: nat, out: seq<Byte>)
    requires p < |s|
  {
    match ReadItem(s[p..])
    case Err(e) => why == Some(e)
    case Ok(i) => why == None && q == p + |ItemText(i)| && ItemOk(i) && out == word + ItemValue(i)
  }

  lemma UnicodeItem(t: seq<Byte>)
    requires |t| > 1 && t[0] == BACKSLASH && t[1] == LETTER_U
    ensures ReadItem(t) == ReadUnit(t)
  {
  }

  /** The \u escape at p: one UTF-16 unit, or two that make a pair. */
  method Unicode(s: seq<Byte>, p: nat, word: seq<Byte>) returns (why: Option<Error>, q: nat, out: seq<Byte>)
    requires p + 1 < |s| && s[p] == BACKSLASH && s[p + 1] == LETTER_U
    ensures Took(s, p, word, why, q, out)
  {
    var cp;
    out := word;
    UnicodeItem(s[p..]);
    why, q, cp := CodePoint(s, p);
    if why == None {
      out := PutUtf8(word, cp);
    }
  }

  method CodePoint(s: seq<Byte>, p: nat) returns (why: Option<Error>, q: nat, cp: nat)
    requires p + 1 < |s| && s[p] == BACKSLASH && s[p + 1] == LETTER_U
    ensures match ReadUnit(s[p..])
            case Err(e) => why == Some(e)
            case Ok(i) =>
              why == None && q == p + |ItemText(i)| && cp < 0x11_0000 && ItemOk(i) &&
              ItemValue(i) == Utf8.Encode(cp)
  {
    q, cp := p + 2, 0;
    ghost var t := s[p..];
    if ReadUnit(t).Ok? {
      UnitSpelled(t);
    }
    RunMoves(s, p, 2, 4);
    var high := HexRunHere(s, q, 4);
    if high < 0 {
      return Some(NoHex), q, 0;
    }
    cp, q := high, q + 4;
    if 0xD800 <= cp <= 0xDBFF && q + 1 < |s| && s[q] == BACKSLASH && s[q + 1] == LETTER_U {
      RunMoves(s, p, 8, 4);
      var low := HexRunHere(s, q + 2, 4);
      if 0xDC00 <= low <= 0xDFFF {
        return None, q + 6, 0x1_0000 + (cp - 0xD800) * 0x400 + (low - 0xDC00);
      }
    }
    why := if cp == 0 then Some(HoldsNul) else if 0xD800 <= cp <= 0xDFFF then Some(OutOfRange) else None;
  }

  lemma RunMoves(s: seq<Byte>, p: nat, i: nat, n: nat)
    requires p + i <= |s|
    ensures HexRun(s[p + i..], 0, n) == HexRun(s[p..], i, n)
  {
    if p + i + n <= |s| {
      assert s[p + i..][0..0 + n] == s[p..][i..i + n];
    }
  }

  lemma UnitSpelled(t: seq<Byte>)
    requires ReadUnit(t).Ok?
    ensures ItemOk(ReadUnit(t).value) && |ItemText(ReadUnit(t).value)| == if ReadUnit(t).value.Pair? then 12 else 6
  {
  }

  /** The escape at p, or the byte there. */
  method OneItem(s: seq<Byte>, p: nat, word: seq<Byte>) returns (why: Option<Error>, q: nat, out: seq<Byte>)
    requires p < |s| && s[p] != QUOTE && 0 !in s
    ensures Took(s, p, word, why, q, out)
  {
    why, q, out := None, p + 1, word;
    if s[p] != BACKSLASH {
      out := out + [s[p]];
      return;
    }
    var c := if q < |s| then s[q] else 0;
    if c == BACKSLASH || c == QUOTE {
      q, out := q + 1, out + [c];
    } else if c == LETTER_N || c == LETTER_R || c == LETTER_T {
      q, out := q + 1, out + [if c == LETTER_N then LF else if c == LETTER_R then CR else TAB];
    } else if c == LETTER_X {
      RunMoves(s, p, 2, 2);
      var v := HexRunHere(s, q + 1, 2);
      if v < 0 {
        return Some(NoHex), q, out;
      }
      if v == 0 {
        return Some(HoldsNul), q, out;
      }
      q, out := q + 3, out + [v];
    } else if c == LETTER_U {
      why, q, out := Unicode(s, p, word);
    } else {
      why := Some(NoEscape);
    }
  }

  // ---- quotes ----

  /** curl_ansi_quote: the body of a $'...' quote from p, decoded behind the word. It
      never decodes to more bytes than it takes. */
  method AnsiQuote(s: seq<Byte>, start: nat, word: seq<Byte>) returns (why: Option<Error>, p: nat, out: seq<Byte>)
    requires start <= |s| && 0 !in s
    ensures match ReadItems(s[start..])
            case Err(e) => why == Some(e)
            case Ok(r) =>
              why == None && start <= p <= |s| && s[p..] == r.rest && ItemsOk(r.value) &&
              out == word + ItemsValue(r.value)
    ensures |out| <= |word| + p - start
  {
    p, out, why := start, word, None;
    ghost var done: seq<Item> := [];
    ghost var whole := s[start..];
    ItemsPrepended([], ReadItems(whole));
    assert word + [] == word;
    while p < |s| && s[p] != QUOTE
      invariant why == None && start <= p <= |s| && ItemsOk(done) && out == word + ItemsValue(done)
      invariant ItemsSoFar(whole, done, s[p..]) && |out| <= |word| + p - start
      decreases |s| - p
    {
      why, p, out, done := NextItem(s, p, out, word, whole, done);
      if why != None {
        return;
      }
    }
    if p == |s| {
      ItemsUnclosed(whole, done);
      return Some(Unclosed), p, out;
    }
    assert s[p..][1..] == s[p + 1..];
    ItemsClose(whole, done, s[p..]);
    p := p + 1;
  }

  method NextItem(s: seq<Byte>, p: nat, out: seq<Byte>, ghost word: seq<Byte>, ghost whole: seq<Byte>,
                  ghost done: seq<Item>)
    returns (why: Option<Error>, q: nat, longer: seq<Byte>, ghost more: seq<Item>)
    requires p < |s| && s[p] != QUOTE && 0 !in s
    requires ItemsSoFar(whole, done, s[p..]) && ItemsOk(done) && out == word + ItemsValue(done)
    ensures why.Some? ==> ReadItems(whole) == Err(why.value) && longer == out && q == p
    ensures why == None ==> p < q <= |s| && ItemsSoFar(whole, more, s[q..]) && |longer| <= |out| + q - p
    ensures why == None ==> ItemsOk(more) && longer == word + ItemsValue(more)
  {
    ghost var t := s[p..];
    more := done;
    why, q, longer := OneItem(s, p, out);
    if why != None {
      ItemFails(whole, done, t, why.value);
      q, longer := p, out;
    } else {
      ghost var i := ReadItem(t).value;
      TakesItem(whole, s, p, i, done);
      ItemsSnoc(done, i, word);
      more := done + [i];
    }
  }

  /** The pieces read so far, ahead of those still to read. */
  ghost predicate ItemsSoFar(whole: seq<Byte>, done: seq<Item>, t: seq<Byte>) {
    ReadItems(whole) == Prepended(done, ReadItems(t))
  }

  lemma ItemFails(whole: seq<Byte>, done: seq<Item>, t: seq<Byte>, e: Error)
    requires ItemsSoFar(whole, done, t) && t != [] && t[0] != QUOTE && ReadItem(t) == Err(e)
    ensures ReadItems(whole) == Err(e)
  {
  }

  lemma ItemsUnclosed(whole: seq<Byte>, done: seq<Item>)
    requires ItemsSoFar(whole, done, [])
    ensures ReadItems(whole) == Err(Unclosed)
  {
  }

  lemma ItemsClose(whole: seq<Byte>, done: seq<Item>, t: seq<Byte>)
    requires ItemsSoFar(whole, done, t) && t != [] && t[0] == QUOTE
    ensures ReadItems(whole) == Ok(Read(done, t[1..]))
  {
    ItemsPrepended(done, ReadItems(t));
  }

  lemma TakesItem(whole: seq<Byte>, s: seq<Byte>, p: nat, i: Item, done: seq<Item>)
    requires p < |s| && s[p] != QUOTE && ReadItem(s[p..]) == Ok(i) && ItemOk(i) && ItemsSoFar(whole, done, s[p..])
    ensures 0 < |ItemText(i)| && p + |ItemText(i)| <= |s| && |ItemValue(i)| <= |ItemText(i)|
    ensures ItemsSoFar(whole, done + [i], s[p + |ItemText(i)|..])
  {
    ItemTakes(s[p..], i);
    CurlLaws.ItemIsLonger(i);
    assert s[p..][|ItemText(i)|..] == s[p + |ItemText(i)|..];
    OneMore(done, i, ReadItems(s[p + |ItemText(i)|..]));
  }

  function Prepended<T>(done: seq<T>, r: Result<Read<T>>): Result<Read<T>> {
    match r
    case Ok(x) => Ok(Read(done + x.value, x.rest))
    case Err(e) => Err(e)
  }

  lemma ItemsPrepended<T>(done: seq<T>, r: Result<Read<T>>)
    ensures Prepended([], r) == r
    ensures r.Ok? && r.value.value == [] ==> Prepended(done, r) == Ok(Read(done, r.value.rest))
  {
    if r.Ok? {
      assert [] + r.value.value == r.value.value;
      assert done + [] == done;
    }
  }

  lemma OneMore<T>(done: seq<T>, x: T, r: Result<Read<T>>)
    ensures Prepended(done, Then(x, r)) == Prepended(done + [x], r)
  {
    if r.Ok? {
      assert done + ([x] + r.value.value) == done + [x] + r.value.value;
    }
  }

  lemma {:induction false} ItemsSnoc(items: seq<Item>, i: Item, word: seq<Byte>)
    requires ItemsOk(items) && ItemOk(i)
    ensures ItemsOk(items + [i]) && word + ItemsValue(items + [i]) == word + ItemsValue(items) + ItemValue(i)
  {
    if items == [] {
      assert (items + [i])[1..] == [];
    } else {
      ItemsSnoc(items[1..], i, ItemValue(items[0]));
      assert (items + [i])[1..] == items[1..] + [i];
    }
  }

  // ---- words ----

  method JoinHere(s: seq<Byte>, p: nat) returns (n: nat)
    requires p <= |s|
    ensures n == JoinLength(s[p..])
  {
    n := 0;
    if p < |s| && s[p] == BACKSLASH {
      if p + 1 < |s| && s[p + 1] == LF {
        n := 2;
      } else if p + 2 < |s| && s[p + 1] == CR && s[p + 2] == LF {
        n := 3;
      }
    }
  }

  method SkipBlanks(s: seq<Byte>, start: nat) returns (p: nat)
    requires start <= |s|
    ensures p == start + Blanks(s[start..]) && p <= |s|
  {
    p := start;
    while true
      invariant start <= p <= |s| && start + Blanks(s[start..]) == p + Blanks(s[p..])
      decreases |s| - p
    {
      ghost var t := s[p..];
      if p < |s| && IsBlank(s[p]) {
        assert t[1..] == s[p + 1..];
        p := p + 1;
      } else {
        var n := JoinHere(s, p);
        if n == 0 {
          break;
        }
        assert t[n..] == s[p + n..];
        p := p + n;
      }
    }
  }

  /** A '...' quote, as it stands. */
  method SingleQuote(s: seq<Byte>, start: nat, word: seq<Byte>) returns (why: Option<Error>, p: nat, out: seq<Byte>)
    requires start < |s| && s[start] == QUOTE
    ensures match ReadSegment(s[start..])
            case Err(e) => why == Some(e)
            case Ok(r) =>
              why == None && start < p <= |s| && s[p..] == r.rest && SegmentOk(r.segment) &&
              out == word + SegmentValue(r.segment)
    ensures why == None ==> |out| <= |word| + p - start
  {
    ghost var t := s[start..];
    p := FindFrom(s, start + 1);
    assert s[start + 1..] == t[1..];
    if p == |s| {
      return Some(Unclosed), p, word;
    }
    assert s[start + 1..p] == t[1..p - start];
    why, out := None, word + s[start + 1..p];
    p := p + 1;
  }

  /** One piece of a word, decoded behind it. */
  method Segment(s: seq<Byte>, start: nat, word: seq<Byte>) returns (why: Option<Error>, p: nat, out: seq<Byte>)
    requires start < |s| && !EndsWord(s[start..]) && 0 !in s
    ensures match ReadSegment(s[start..])
            case Err(e) => why == Some(e)
            case Ok(r) =>
              why == None && start < p <= |s| && s[p..] == r.rest && SegmentOk(r.segment) &&
              out == word + SegmentValue(r.segment)
    ensures why == None ==> |out| <= |word| + p - start
  {
    why, p, out := None, start, word;
    ghost var t := s[start..];
    if ReadSegment(t).Ok? {
      ReadSegmentOk(t);
      SuffixIs(s, start, ReadSegment(t).value.rest, SegmentText(ReadSegment(t).value.segment));
      CurlLaws.SegmentIsLonger(ReadSegment(t).value.segment);
    }
    if s[p] == QUOTE {
      why, p, out := SingleQuote(s, p, out);
    } else if s[p] == DOLLAR && p + 1 < |s| && s[p + 1] == QUOTE {
      assert s[p + 2..] == t[2..];
      why, p, out := AnsiQuote(s, p + 2, out);
    } else {
      var n := JoinHere(s, p);
      if n != 0 {
        p := p + n;
      } else if IsPlain(s[p]) {
        p, out := p + 1, out + [s[p]];
      } else {
        why := Some(Syntax);
      }
    }
  }

  /** strchr for a quote, from p. */
  method FindFrom(s: seq<Byte>, start: nat) returns (p: nat)
    requires start <= |s|
    ensures p == start + FindQuote(s[start..]) && p <= |s|
  {
    p := start;
    while p < |s| && s[p] != QUOTE
      invariant start <= p <= |s| && start + FindQuote(s[start..]) == p + FindQuote(s[p..])
    {
      assert s[p..][1..] == s[p + 1..];
      p := p + 1;
    }
  }

  lemma SuffixIs(s: seq<Byte>, start: nat, rest: seq<Byte>, text: seq<Byte>)
    requires start <= |s| && text + rest == s[start..]
    ensures |rest| <= |s| - start && rest == s[|s| - |rest|..] && |text| == |s| - start - |rest|
  {
    var p := |s| - |rest|;
    assert s[start..][|text|..] == rest;
    assert s[start..][|text|..] == s[start + |text|..];
  }

  lemma SegmentsOkSnoc(segments: seq<Segment>, s: Segment)
    requires SegmentsOk(segments) && SegmentOk(s)
    ensures SegmentsOk(segments + [s])
  {
  }

  lemma SegmentsFirst(segments: seq<Segment>)
    requires segments != [] && SegmentsOk(segments)
    ensures SegmentsOk(segments[1..])
    ensures SegmentsValue(segments) == SegmentValue(segments[0]) + SegmentsValue(segments[1..])
  {
  }

  lemma {:induction false} SegmentsSnoc(segments: seq<Segment>, s: Segment)
    requires SegmentsOk(segments) && SegmentOk(s)
    ensures SegmentsOk(segments + [s]) && SegmentsValue(segments + [s]) == SegmentsValue(segments) + SegmentValue(s)
  {
    SegmentsOkSnoc(segments, s);
    SegmentsFirst(segments + [s]);
    if segments == [] {
      assert (segments + [s])[1..] == [];
    } else {
      SegmentsFirst(segments);
      SegmentsSnoc(segments[1..], s);
      assert (segments + [s])[1..] == segments[1..] + [s];
    }
  }

  /** The word from start, decoded. It never holds more bytes than were taken for it,
      so a buffer as long as the command has room for it. */
  method WordHere(s: seq<Byte>, start: nat) returns (why: Option<Error>, p: nat, word: seq<Byte>)
    requires start <= |s| && 0 !in s
    ensures match ReadSegments(s[start..])
            case Err(e) => why == Some(e)
            case Ok(r) =>
              why == None && start <= p <= |s| && s[p..] == r.rest && SegmentsOk(r.value) &&
              word == SegmentsValue(r.value)
    ensures why == None ==> |word| <= p - start
  {
    why, p, word := None, start, [];
    ghost var done: seq<Curl.Segment> := [];
    ItemsPrepended([], ReadSegments(s[start..]));
    while p < |s| && !IsBlank(s[p])
      invariant why == None && start <= p <= |s| && SegmentsOk(done) && word == SegmentsValue(done)
      invariant ReadSegments(s[start..]) == Prepended(done, ReadSegments(s[p..]))
      invariant |word| <= p - start
      decreases |s| - p
    {
      ghost var t := s[p..];
      var q, longer;
      why, q, longer := Segment(s, p, word);
      if why != None {
        return;
      }
      ghost var piece := ReadSegment(t).value;
      OneMore(done, piece.segment, ReadSegments(s[q..]));
      SegmentsSnoc(done, piece.segment);
      done := done + [piece.segment];
      p, word := q, longer;
    }
    ItemsPrepended(done, ReadSegments(s[p..]));
  }

  /** The decoded words of a list that is not complete yet. */
  ghost predicate Values(words: seq<Word>, values: seq<seq<Byte>>) {
    && |values| == |words|
    && forall i :: 0 <= i < |words| ==> SegmentsOk(words[i].segments) && values[i] == SegmentsValue(words[i].segments)
  }

  lemma {:induction false} ValuesAre(words: seq<Word>, values: seq<seq<Byte>>)
    requires Values(words, values) && WordsOk(words)
    ensures values == WordsValue(words)
  {
    if words != [] {
      CurlLaws.WordsTail(words);
      ValuesAre(words[1..], values[1..]);
      assert values == [values[0]] + values[1..];
    }
  }

  /** curl_split. */
  method Split(s: seq<Byte>) returns (why: Option<Error>, words: seq<seq<Byte>>)
    requires 0 !in s
    ensures match ReadCommand(s)
            case Err(e) => why == Some(e)
            case Ok(c) => why == None && WordsOk(c.words) && words == WordsValue(c.words)
  {
    why, words := None, [];
    assert s[0..] == s;
    var p := SkipBlanks(s, 0);
    why, words := SplitFrom(s, p);
    if why == None {
      CurlLaws.ReadCommandOk(s);
      ValuesAre(ReadCommand(s).value.words, words);
    }
  }

  /** The words read so far, ahead of those still to read. */
  ghost predicate SoFar(whole: seq<Byte>, done: seq<Word>, t: seq<Byte>) {
    Starts(whole) && Starts(t) && ReadWords(whole, 0) == Prepended(done, ReadWords(t, |done|))
  }

  lemma SoFarStarts(t: seq<Byte>)
    requires Starts(t)
    ensures SoFar(t, [], t)
  {
    ItemsPrepended([], ReadWords(t, 0));
  }

  lemma SoFarNext(whole: seq<Byte>, done: seq<Word>, t: seq<Byte>, w: Word, rest: seq<Byte>)
    requires SoFar(whole, done, t) && Opens(t, |done|, None, w, rest)
    ensures SoFar(whole, done + [w], rest)
  {
    OneMore(done, w, ReadWords(rest, |done| + 1));
  }

  lemma SoFarFails(whole: seq<Byte>, done: seq<Word>, t: seq<Byte>, e: Error, w: Word, rest: seq<Byte>)
    requires SoFar(whole, done, t) && Opens(t, |done|, Some(e), w, rest)
    ensures ReadWords(whole, 0) == Err(e)
  {
  }

  lemma SoFarEnds(whole: seq<Byte>, done: seq<Word>)
    requires SoFar(whole, done, [])
    ensures ReadWords(whole, 0) == Ok(Read(done, []))
  {
    ItemsPrepended(done, ReadWords([], |done|));
  }

  method SplitFrom(s: seq<Byte>, start: nat) returns (why: Option<Error>, words: seq<seq<Byte>>)
    requires 0 !in s && start <= |s| && Starts(s[start..])
    ensures match ReadWords(s[start..], 0)
            case Err(e) => why == Some(e)
            case Ok(r) => why == None && Values(r.value, words)
  {
    why, words := None, [];
    var p := start;
    ghost var done: seq<Word> := [];
    ghost var whole := s[start..];
    SoFarStarts(whole);
    while p < |s|
      invariant why == None && start <= p <= |s| && Values(done, words) && SoFar(whole, done, s[p..])
      decreases |s| - p
    {
      var q, word;
      ghost var t := s[p..];
      ghost var e, w, rest := WordOpens(t, |words|);
      why, q, word := OneWord(s, p, |words|);
      if why != None {
        SoFarFails(whole, done, t, why.value, w, rest);
        return;
      }
      SoFarNext(whole, done, t, w, rest);
      done, words, p := done + [w], words + [word], q;
    }
    SoFarEnds(whole, done);
  }

  /** What ReadWords does with the first word. */
  ghost predicate Opens(t: seq<Byte>, count: nat, why: Option<Error>, w: Word, rest: seq<Byte>) {
    && Starts(t)
    && if why.Some? then ReadWords(t, count) == Err(why.value)
       else Starts(rest) && ReadWords(t, count) == Then(w, ReadWords(rest, count + 1))
  }

  /** Why a word that was read is refused. */
  function Refusal(value: seq<Byte>, count: nat): Option<Error> {
    if !IsClean(value) then Some(Control) else if count >= WORDS_MAX then Some(TooMany) else None
  }

  lemma FirstWordFails(t: seq<Byte>, count: nat, w: Word)
    requires Starts(t) && t != [] && ReadSegments(t).Err?
    ensures Opens(t, count, Some(ReadSegments(t).error), w, [])
  {
  }

  lemma FirstWordRead(t: seq<Byte>, count: nat, segments: seq<Curl.Segment>, after: seq<Byte>)
    requires Starts(t) && t != [] && ReadSegments(t) == Ok(Read(segments, after))
    ensures SegmentsOk(segments)
    ensures var n := Blanks(after);
            Opens(t, count, Refusal(SegmentsValue(segments), count), Word(segments, after[..n]), after[n..])
  {
    ReadSegmentsOk(t);
  }

  /** A word, its checks, and the blanks behind it. */
  method OneWord(s: seq<Byte>, p: nat, count: nat) returns (why: Option<Error>, q: nat, word: seq<Byte>)
    requires 0 !in s && p <= |s|
    ensures ReadSegments(s[p..]).Err? ==> why == Some(ReadSegments(s[p..]).error)
    ensures ReadSegments(s[p..]).Ok? ==>
              (var r := ReadSegments(s[p..]).value;
               && SegmentsOk(r.value) && why == Refusal(SegmentsValue(r.value), count)
               && (why == None ==>
                     p <= q <= |s| && word == SegmentsValue(r.value) && s[q..] == r.rest[Blanks(r.rest)..]))
  {
    why, q, word := WordHere(s, p);
    if why == None {
      why := if HasControl(word) then Some(Control) else if count >= WORDS_MAX then Some(TooMany) else None;
      if why == None {
        assert s[q..][Blanks(s[q..])..] == s[q + Blanks(s[q..])..];
        q := SkipBlanks(s, q);
      }
    }
  }

  /** What that comes to for the words of t. */
  lemma WordOpens(t: seq<Byte>, count: nat) returns (why: Option<Error>, w: Word, rest: seq<Byte>)
    requires Starts(t) && t != []
    ensures Opens(t, count, why, w, rest)
    ensures ReadSegments(t).Err? ==> why == Some(ReadSegments(t).error)
    ensures ReadSegments(t).Ok? ==>
              (var r := ReadSegments(t).value;
               && SegmentsOk(r.value) && why == Refusal(SegmentsValue(r.value), count)
               && w.segments == r.value && rest == r.rest[Blanks(r.rest)..] && |rest| < |t|)
  {
    if ReadSegments(t).Err? {
      FirstWordFails(t, count, Word([], []));
      return Some(ReadSegments(t).error), Word([], []), [];
    }
    var r := ReadSegments(t).value;
    var n := Blanks(r.rest);
    FirstWordRead(t, count, r.value, r.rest);
    why, w, rest := Refusal(SegmentsValue(r.value), count), Word(r.value, r.rest[..n]), r.rest[n..];
  }

  /** hts_bundle_has_control. */
  predicate HasControl(s: seq<Byte>)
    ensures HasControl(s) <==> !IsClean(s)
  {
    exists i | 0 <= i < |s| :: (s[i] < 0x20 && s[i] != TAB) || s[i] == 0x7F
  }
}
