/** The splitter of pasted commands accepts a command exactly when it can be spelled
    with the quotes it knows, and gives back what was spelled. */
module CurlLaws {
  import opened Bytes
  import opened Curl
  import Utf8

  // ---- every spelling is read ----

  lemma {:induction false} HexRunBack(digits: seq<Byte>, before: seq<Byte>, after: seq<Byte>)
    requires AllHex(digits)
    ensures HexRun(before + digits + after, |before|, |digits|) == Ok(HexValue(digits))
  {
    var t := before + digits + after;
    assert t[|before|..|before| + |digits|] == digits;
  }

  lemma UnitBack(digits: seq<Byte>, rest: seq<Byte>)
    requires ItemOk(Unit(digits))
    ensures ReadItem(ItemText(Unit(digits)) + rest) == Ok(Unit(digits))
  {
    var t := ItemText(Unit(digits)) + rest;
    HexRunBack(digits, [BACKSLASH, LETTER_U], rest);
    assert t == [BACKSLASH, LETTER_U] + digits + rest && t[2..6] == digits;
  }

  lemma PairBack(high: seq<Byte>, low: seq<Byte>, rest: seq<Byte>)
    requires ItemOk(Pair(high, low))
    ensures ReadItem(ItemText(Pair(high, low)) + rest) == Ok(Pair(high, low))
  {
    var escape := [BACKSLASH, LETTER_U];
    var t := ItemText(Pair(high, low)) + rest;
    assert t == escape + high + (escape + low + rest) && t == escape + high + escape + low + rest;
    HexRunBack(high, escape, escape + low + rest);
    HexRunBack(low, escape + high + escape, rest);
    assert t[2..6] == high && t[8..12] == low;
    assert t[6] == BACKSLASH && t[7] == LETTER_U;
  }

  lemma ItemBack(i: Item, rest: seq<Byte>)
    requires ItemOk(i)
    ensures ReadItem(ItemText(i) + rest) == Ok(i) && ItemText(i)[0] != QUOTE
  {
    var t := ItemText(i) + rest;
    match i
    case Raw(c) =>
    case Quoted(c) => assert t[1] == c;
    case Letter(c) => assert t[1] == c;
    case Hex(digits) =>
      HexRunBack(digits, [BACKSLASH, LETTER_X], rest);
      assert t == [BACKSLASH, LETTER_X] + digits + rest && t[2..4] == digits;
    case Unit(digits) => UnitBack(digits, rest);
    case Pair(high, low) => PairBack(high, low, rest);
  }

  lemma {:induction false} ItemsBack(items: seq<Item>, rest: seq<Byte>)
    requires ItemsOk(items)
    ensures ReadItems(ItemsText(items) + ([QUOTE] + rest)) == Ok(Read(items, rest))
  {
    var closing := [QUOTE] + rest;
    if items == [] {
      assert ItemsText(items) + closing == closing && closing[1..] == rest;
    } else {
      var after := ItemsText(items[1..]) + closing;
      ItemsTextNext(items, closing);
      ItemBack(items[0], after);
      ReadItemsNext(items[0], after);
      ItemsBack(items[1..], rest);
      assert items == [items[0]] + items[1..];
    }
  }

  lemma ItemsTextNext(items: seq<Item>, rest: seq<Byte>)
    requires items != []
    ensures ItemsText(items) + rest == ItemText(items[0]) + (ItemsText(items[1..]) + rest)
  {
  }

  lemma ReadItemsNext(i: Item, after: seq<Byte>)
    requires ReadItem(ItemText(i) + after) == Ok(i) && ItemText(i)[0] != QUOTE
    ensures ReadItems(ItemText(i) + after) == Then(i, ReadItems(after))
  {
    assert (ItemText(i) + after)[|ItemText(i)|..] == after;
  }

  lemma {:induction false} FindQuoteIs(text: seq<Byte>, rest: seq<Byte>)
    requires QUOTE !in text
    ensures FindQuote(text + ([QUOTE] + rest)) == |text|
  {
    if text == [] {
      assert text + ([QUOTE] + rest) == [QUOTE] + rest;
    } else {
      FindQuoteIs(text[1..], rest);
      assert (text + ([QUOTE] + rest))[1..] == text[1..] + ([QUOTE] + rest);
    }
  }

  lemma SingleBack(text: seq<Byte>, rest: seq<Byte>)
    requires QUOTE !in text
    ensures ReadSegment(SegmentText(Single(text)) + rest) == Ok(Piece(Single(text), rest))
  {
    var t := SegmentText(Single(text)) + rest;
    FindQuoteIs(text, rest);
    assert t[1..] == text + ([QUOTE] + rest);
    assert t[1..|text| + 1] == text && t[|text| + 2..] == rest;
  }

  lemma AnsiBack(items: seq<Item>, rest: seq<Byte>)
    requires ItemsOk(items)
    ensures ReadSegment(SegmentText(Ansi(items)) + rest) == Ok(Piece(Ansi(items), rest))
  {
    var body := ItemsText(items) + ([QUOTE] + rest);
    var t := [DOLLAR, QUOTE] + body;
    assert SegmentText(Ansi(items)) + rest == t;
    ItemsBack(items, rest);
    assert t[2..] == body && At(t, 1) == QUOTE;
    ItemsTake(body);
  }

  lemma SegmentBack(s: Segment, rest: seq<Byte>)
    requires SegmentOk(s)
    ensures !EndsWord(SegmentText(s) + rest) && ReadSegment(SegmentText(s) + rest) == Ok(Piece(s, rest))
  {
    match s
    case Plain(c) => assert (SegmentText(s) + rest)[1..] == rest;
    case Single(text) => SingleBack(text, rest);
    case Ansi(items) => AnsiBack(items, rest);
    case Join(crlf) => JoinBack(crlf, rest);
  }

  lemma JoinBack(crlf: bool, rest: seq<Byte>)
    ensures ReadSegment(SegmentText(Join(crlf)) + rest) == Ok(Piece(Join(crlf), rest))
  {
    var t := SegmentText(Join(crlf)) + rest;
    assert t[|SegmentText(Join(crlf))|..] == rest;
  }

  lemma {:induction false} SegmentsBack(segments: seq<Segment>, rest: seq<Byte>)
    requires SegmentsOk(segments) && EndsWord(rest)
    ensures ReadSegments(SegmentsText(segments) + rest) == Ok(Read(segments, rest))
  {
    if segments == [] {
      assert SegmentsText(segments) + rest == rest;
    } else {
      var after := SegmentsText(segments[1..]) + rest;
      SegmentsCons(segments[0], segments[1..], rest);
      SegmentBack(segments[0], after);
      ReadSegmentsNext(SegmentText(segments[0]) + after, segments[0], after);
      SegmentsBack(segments[1..], rest);
      assert segments == [segments[0]] + segments[1..];
    }
  }

  lemma ReadSegmentsNext(t: seq<Byte>, s: Segment, after: seq<Byte>)
    requires !EndsWord(t) && ReadSegment(t) == Ok(Piece(s, after))
    ensures ReadSegments(t) == Then(s, ReadSegments(after))
  {
  }

  /** Blanks are taken whole, up to where a word starts. */
  lemma {:induction false} BlanksBack(blanks: seq<Byte>, rest: seq<Byte>)
    requires Blanks(blanks) == |blanks| && Starts(rest)
    ensures Blanks(blanks + rest) == |blanks|
  {
    if blanks == [] {
      assert blanks + rest == rest;
    } else {
      var n := if IsBlank(blanks[0]) then 1 else JoinLength(blanks);
      BlanksBack(blanks[n..], rest);
      BlanksCons(blanks, rest, n);
      BlanksCons(blanks, [], n);
    }
  }

  lemma BlanksCons(blanks: seq<Byte>, rest: seq<Byte>, n: nat)
    requires blanks != [] && 0 < n <= |blanks| && n == if IsBlank(blanks[0]) then 1 else JoinLength(blanks)
    ensures Blanks(blanks + rest) == n + Blanks(blanks[n..] + rest)
    ensures Blanks(blanks) == n + Blanks(blanks[n..])
  {
    var t := blanks + rest;
    assert t[n..] == blanks[n..] + rest;
    assert !IsBlank(blanks[0]) ==> JoinLength(t) == n;
  }

  lemma WordStarts(segments: seq<Segment>, rest: seq<Byte>)
    requires segments != [] && SegmentsOk(segments) && !segments[0].Join?
    ensures Starts(SegmentsText(segments) + rest) && SegmentsText(segments) != []
  {
    var first := SegmentText(segments[0]);
    assert SegmentsText(segments)[0] == first[0];
  }

  lemma WordsTail(words: seq<Word>)
    requires words != [] && WordsOk(words)
    ensures WordOk(words[0], |words| == 1) && WordsOk(words[1..])
    ensures WordsValue(words)[1..] == WordsValue(words[1..])
  {
    assert WordOk(words[0], 0 == |words| - 1);
    forall i | 0 <= i < |words[1..]| ensures WordOk(words[1..][i], i == |words[1..]| - 1) {
      assert WordOk(words[i + 1], i + 1 == |words| - 1);
    }
  }

  lemma WordBack(w: Word, tail: seq<Byte>, others: seq<Word>, count: nat)
    requires WordOk(w, tail == []) && IsClean(SegmentsValue(w.segments)) && count < WORDS_MAX
    requires Starts(tail) && ReadWords(tail, count + 1) == Ok(Read(others, []))
    ensures var t := SegmentsText(w.segments) + (w.blanks + tail);
            Starts(t) && ReadWords(t, count) == Ok(Read([w] + others, []))
  {
    var after := w.blanks + tail;
    var t := SegmentsText(w.segments) + after;
    assert EndsWord(after);
    SegmentsBack(w.segments, after);
    BlanksBack(w.blanks, tail);
    WordStarts(w.segments, after);
    assert after[..|w.blanks|] == w.blanks && after[|w.blanks|..] == tail;
    assert Word(w.segments, w.blanks) == w;
  }

  lemma {:induction false} WordsBack(words: seq<Word>, count: nat)
    requires WordsOk(words) && AllClean(WordsValue(words)) && count + |words| <= WORDS_MAX
    ensures Starts(WordsText(words)) && ReadWords(WordsText(words), count) == Ok(Read(words, []))
  {
    if words != [] {
      var w, others := words[0], words[1..];
      WordsTail(words);
      CleanTail(WordsValue(words));
      WordsBack(others, count + 1);
      TextOfNone(others);
      WordBack(w, WordsText(others), others, count);
      assert words == [w] + others;
    }
  }

  lemma CleanTail(values: seq<seq<Byte>>)
    requires AllClean(values) && values != []
    ensures IsClean(values[0]) && AllClean(values[1..])
  {
  }

  lemma TextOfNone(words: seq<Word>)
    requires WordsOk(words)
    ensures WordsText(words) == [] <==> words == []
  {
    if words != [] {
      WordsTail(words);
      WordStarts(words[0].segments, []);
    }
  }

  /** Every command that can be spelled is read back as it was spelled. */
  lemma CommandBack(c: Command)
    requires CommandOk(c)
    ensures ReadCommand(CommandText(c)) == Ok(c)
  {
    var t := CommandText(c);
    WordsBack(c.words, 0);
    BlanksBack(c.lead, WordsText(c.words));
    assert t[..|c.lead|] == c.lead && t[|c.lead|..] == WordsText(c.words);
  }

  // ---- all that is read was spelled ----

  lemma {:induction false} BlanksTwice(t: seq<Byte>)
    ensures Blanks(t[..Blanks(t)]) == Blanks(t)
  {
    var n := Blanks(t);
    var j := if t != [] && IsBlank(t[0]) then 1 else JoinLength(t);
    if j > 0 {
      BlanksTwice(t[j..]);
      BlanksCut(t, n, j);
    }
  }

  lemma BlanksCut(t: seq<Byte>, n: nat, j: nat)
    requires t != [] && j == (if IsBlank(t[0]) then 1 else JoinLength(t)) && 0 < j <= n <= |t|
    ensures Blanks(t[..n]) == j + Blanks(t[j..][..n - j])
  {
    assert t[..n][j..] == t[j..][..n - j];
    assert !IsBlank(t[0]) ==> JoinLength(t[..n]) == j;
  }

  /** A word read from t, with the blanks behind it, is one that can be spelled. */
  lemma WordRead(t: seq<Byte>)
    requires Starts(t) && t != [] && ReadSegments(t).Ok?
    ensures var r := ReadSegments(t).value;
            WordOk(Word(r.value, r.rest[..Blanks(r.rest)]), r.rest[Blanks(r.rest)..] == [])
  {
    var r := ReadSegments(t).value;
    ReadSegmentsOk(t);
    BlanksTwice(r.rest);
    assert ReadSegment(t).Ok? && r.value[0] == ReadSegment(t).value.segment;
    FirstIsNoJoin(t);
  }

  lemma FirstIsNoJoin(t: seq<Byte>)
    requires Starts(t) && t != [] && ReadSegment(t).Ok?
    ensures !ReadSegment(t).value.segment.Join?
  {
  }

  ghost predicate IsSpelled(words: seq<Word>, t: seq<Byte>, count: nat) {
    && WordsOk(words) && WordsText(words) == t && AllClean(WordsValue(words))
    && (words != [] ==> count + |words| <= WORDS_MAX)
  }

  lemma WordsCons(w: Word, others: seq<Word>)
    requires WordOk(w, others == []) && WordsOk(others)
    ensures WordsOk([w] + others) && WordsValue([w] + others) == [SegmentsValue(w.segments)] + WordsValue(others)
    ensures WordsText([w] + others) == SegmentsText(w.segments) + (w.blanks + WordsText(others))
  {
    var words := [w] + others;
    assert words[1..] == others;
    forall i | 0 <= i < |words| ensures WordOk(words[i], i == |words| - 1) {
      if i > 0 {
        assert WordOk(others[i - 1], i - 1 == |others| - 1);
      }
    }
  }

  lemma SpelledMore(w: Word, others: seq<Word>, after: seq<Byte>, count: nat)
    requires WordOk(w, others == []) && IsClean(SegmentsValue(w.segments)) && IsSpelled(others, after, count + 1)
    requires count < WORDS_MAX
    ensures IsSpelled([w] + others, SegmentsText(w.segments) + (w.blanks + after), count)
  {
    WordsCons(w, others);
  }

  /** The first word, and the rest of the command. */
  lemma ReadWordsNext(t: seq<Byte>, count: nat)
    requires Starts(t) && t != [] && ReadWords(t, count).Ok?
    ensures var r := ReadSegments(t).value;
            && ReadSegments(t).Ok? && SegmentsOk(r.value) && IsClean(SegmentsValue(r.value)) && count < WORDS_MAX
            && var n := Blanks(r.rest); var others := ReadWords(r.rest[n..], count + 1);
               others.Ok? && ReadWords(t, count).value.value == [Word(r.value, r.rest[..n])] + others.value.value
  {
    ReadSegmentsOk(t);
  }

  lemma {:induction false} ReadWordsOk(t: seq<Byte>, count: nat)
    requires Starts(t) && ReadWords(t, count).Ok?
    ensures IsSpelled(ReadWords(t, count).value.value, t, count)
    ensures ReadWords(t, count).value.value == [] <==> t == []
    decreases |t|
  {
    if t != [] {
      ReadWordsNext(t, count);
      var r := ReadSegments(t).value;
      var n := Blanks(r.rest);
      var others := ReadWords(r.rest[n..], count + 1).value.value;
      ReadWordsOk(r.rest[n..], count + 1);
      WordRead(t);
      SpelledMore(Word(r.value, r.rest[..n]), others, r.rest[n..], count);
      TextIs(t, r.value, r.rest, n);
    }
  }

  lemma TextIs(t: seq<Byte>, segments: seq<Segment>, rest: seq<Byte>, n: nat)
    requires ReadSegments(t) == Ok(Read(segments, rest)) && n <= |rest|
    ensures SegmentsText(segments) + (rest[..n] + rest[n..]) == t
  {
    ReadSegmentsOk(t);
    assert rest[..n] + rest[n..] == rest;
  }

  /** A command that is read is the spelling of what it is read as. */
  lemma ReadCommandOk(t: seq<Byte>)
    requires ReadCommand(t).Ok?
    ensures CommandOk(ReadCommand(t).value) && CommandText(ReadCommand(t).value) == t
  {
    var lead, rest, words := CommandParts(t);
    LeadOk(lead, words, rest);
  }

  lemma CommandParts(t: seq<Byte>) returns (lead: seq<Byte>, rest: seq<Byte>, words: seq<Word>)
    requires ReadCommand(t).Ok?
    ensures ReadCommand(t) == Ok(Command(lead, words)) && lead + rest == t
    ensures Blanks(lead) == |lead| && IsSpelled(words, rest, 0)
  {
    lead, rest := Lead(t);
    words := CommandWords(t, lead, rest);
  }

  lemma Lead(t: seq<Byte>) returns (lead: seq<Byte>, rest: seq<Byte>)
    ensures lead == t[..Blanks(t)] && rest == t[Blanks(t)..] && lead + rest == t
    ensures Blanks(lead) == |lead| && Starts(rest)
  {
    lead, rest := t[..Blanks(t)], t[Blanks(t)..];
    BlanksTwice(t);
  }

  lemma CommandWords(t: seq<Byte>, lead: seq<Byte>, rest: seq<Byte>) returns (words: seq<Word>)
    requires ReadCommand(t).Ok? && lead == t[..Blanks(t)] && rest == t[Blanks(t)..] && Starts(rest)
    ensures ReadCommand(t) == Ok(Command(lead, words)) && IsSpelled(words, rest, 0)
  {
    var r := ReadWords(rest, 0);
    assert r.Ok? && ReadCommand(t) == Ok(Command(lead, r.value.value));
    ReadWordsOk(rest, 0);
    words := r.value.value;
  }

  lemma LeadOk(lead: seq<Byte>, words: seq<Word>, rest: seq<Byte>)
    requires Blanks(lead) == |lead| && IsSpelled(words, rest, 0)
    ensures CommandOk(Command(lead, words)) && CommandText(Command(lead, words)) == lead + rest
  {
  }

  /** So a command is accepted exactly when it can be spelled, in one way only. */
  lemma AcceptedExactly(t: seq<Byte>)
    ensures ReadCommand(t).Ok? <==> exists c :: CommandOk(c) && CommandText(c) == t
    ensures forall c, d :: CommandOk(c) && CommandOk(d) && CommandText(c) == t && CommandText(d) == t ==> c == d
  {
    if ReadCommand(t).Ok? {
      ReadCommandOk(t);
    }
    forall c | CommandOk(c) && CommandText(c) == t ensures ReadCommand(t) == Ok(c) {
      CommandBack(c);
    }
  }

  // ---- no spelling is shorter than what it says ----

  lemma ItemIsLonger(i: Item)
    requires ItemOk(i)
    ensures |ItemValue(i)| <= |ItemText(i)|
  {
    match i
    case Unit(digits) => HexBound(digits);
    case _ =>
  }

  lemma {:induction false} ItemsAreLonger(items: seq<Item>)
    requires ItemsOk(items)
    ensures |ItemsValue(items)| <= |ItemsText(items)|
  {
    if items != [] {
      ItemIsLonger(items[0]);
      ItemsAreLonger(items[1..]);
    }
  }

  lemma SegmentIsLonger(s: Segment)
    requires SegmentOk(s)
    ensures |SegmentValue(s)| <= |SegmentText(s)|
  {
    if s.Ansi? {
      ItemsAreLonger(s.items);
    }
  }

  // ---- quoting any list of words ----

  /** A byte, spelled inside $'...'. */
  function ItemFor(c: Byte): (i: Item)
    ensures ItemOk(i) && ItemValue(i) == [c]
  {
    if c == QUOTE || c == BACKSLASH then Quoted(c) else Raw(c)
  }

  function ItemsFor(value: seq<Byte>): seq<Item> {
    if value == [] then [] else [ItemFor(value[0])] + ItemsFor(value[1..])
  }

  lemma {:induction false} ItemsForValue(value: seq<Byte>)
    ensures ItemsOk(ItemsFor(value)) && ItemsValue(ItemsFor(value)) == value
  {
    if value != [] {
      ItemsForValue(value[1..]);
      assert ItemsFor(value)[1..] == ItemsFor(value[1..]);
    }
  }

  /** A word quoted with '...' when asked and when it can be, or with $'...'. */
  function QuotedWord(value: seq<Byte>, single: bool): Segment {
    if single && QUOTE !in value then Single(value) else Ansi(ItemsFor(value))
  }

  /** The words quoted one by one, a blank between them. */
  function QuotedWords(values: seq<seq<Byte>>, single: seq<bool>): seq<Word>
    requires |single| == |values|
  {
    if values == [] then [] else
    [Word([QuotedWord(values[0], single[0])], if |values| == 1 then [] else [SPACE])]
    + QuotedWords(values[1..], single[1..])
  }

  lemma OneBlank()
    ensures Blanks([SPACE]) == 1 && Blanks([]) == 0
  {
    assert [SPACE][1..] == [];
  }

  lemma QuotedWordOk(value: seq<Byte>, single: bool, last: bool)
    ensures var w := Word([QuotedWord(value, single)], if last then [] else [SPACE]);
            WordOk(w, last) && SegmentsValue(w.segments) == value
  {
    ItemsForValue(value);
    OneBlank();
    var q := QuotedWord(value, single);
    assert [q][1..] == [] && SegmentsValue([q]) == SegmentValue(q) + [];
  }

  lemma {:induction false} QuotedWordsOk(values: seq<seq<Byte>>, single: seq<bool>)
    requires |single| == |values|
    ensures WordsOk(QuotedWords(values, single)) && WordsValue(QuotedWords(values, single)) == values
    ensures |QuotedWords(values, single)| == |values|
  {
    if values != [] {
      QuotedWordOk(values[0], single[0], |values| == 1);
      QuotedWordsOk(values[1..], single[1..]);
      WordsCons(Word([QuotedWord(values[0], single[0])], if |values| == 1 then [] else [SPACE]),
                QuotedWords(values[1..], single[1..]));
    }
  }

  /** Any list of at most 1024 words without control bytes but TAB, quoted either way
      word by word and joined with blanks, is split back into the list. */
  lemma QuotedListBack(values: seq<seq<Byte>>, single: seq<bool>)
    requires |single| == |values| <= 1024 && AllClean(values)
    ensures var r := ReadCommand(WordsText(QuotedWords(values, single)));
            r.Ok? && WordsOk(r.value.words) && WordsValue(r.value.words) == values
  {
    var c := Command([], QuotedWords(values, single));
    QuotedWordsOk(values, single);
    OneBlank();
    CommandBack(c);
    assert [] + WordsText(c.words) == WordsText(c.words);
  }

  // ---- \u escapes are UTF-8 ----

  function HexFor(d: nat): (c: Byte)
    requires d < 16
    ensures HexDigit(c) == d
  {
    if d < 10 then 0x30 + d else 0x61 + d - 10
  }

  function FourDigits(v: nat): (s: seq<Byte>)
    requires v < 0x1_0000
    ensures |s| == 4 && AllHex(s)
  {
    [HexFor(v / 0x1000), HexFor(v / 0x100 % 16), HexFor(v / 0x10 % 16), HexFor(v % 16)]
  }

  lemma HexOfFour(s: seq<Byte>)
    requires |s| == 4 && AllHex(s)
    ensures HexValue(s) == ((HexDigit(s[0]) * 16 + HexDigit(s[1])) * 16 + HexDigit(s[2])) * 16 + HexDigit(s[3])
  {
    assert s[..3][..2] == s[..2] && s[..2][..1] == s[..1] && s[..1][..0] == [];
    assert HexValue(s[..1]) == HexDigit(s[0]);
    assert HexValue(s[..2]) == HexValue(s[..1]) * 16 + HexDigit(s[1]);
    assert HexValue(s[..3]) == HexValue(s[..2]) * 16 + HexDigit(s[2]);
  }

  lemma FourDigitsValue(v: nat)
    requires v < 0x1_0000
    ensures HexValue(FourDigits(v)) == v
  {
    HexOfFour(FourDigits(v));
    var w := v / 0x10;
    assert v / 0x100 == w / 0x10 && v / 0x1000 == w / 0x10 / 0x10;
  }

  /** The escape browsers write for a character: two halves past U+FFFF. */
  function EscapeFor(cp: nat): Item
    requires 0 < cp < 0x11_0000
  {
    if cp < 0x1_0000 then Unit(FourDigits(cp))
    else Pair(FourDigits(0xD800 + (cp - 0x1_0000) / 0x400), FourDigits(0xDC00 + (cp - 0x1_0000) % 0x400))
  }

  lemma PairIsUtf8(cp: nat, high: nat, low: nat)
    requires IsHigh(high) && IsLow(low) && cp == Joined(high, low)
    ensures var i := Pair(FourDigits(high), FourDigits(low)); ItemOk(i) && ItemValue(i) == Utf8.Encode(cp)
  {
    FourDigitsValue(high);
    FourDigitsValue(low);
  }

  /** Every character but NUL can be escaped, and its escape decodes to its UTF-8. */
  lemma EscapeIsUtf8(cp: nat)
    requires 0 < cp && Utf8.IsScalar(cp)
    ensures ItemOk(EscapeFor(cp)) && ItemValue(EscapeFor(cp)) == Utf8.Encode(cp)
  {
    if cp < 0x1_0000 {
      FourDigitsValue(cp);
    } else {
      PairIsUtf8(cp, 0xD800 + (cp - 0x1_0000) / 0x400, 0xDC00 + (cp - 0x1_0000) % 0x400);
    }
  }

  // ---- what the letters of an escape say ----

  const LOWER_DIGITS: seq<Byte> :=
    [0x30, 0x31, 0x32, 0x33, 0x34, 0x35, 0x36, 0x37, 0x38, 0x39, 0x61, 0x62, 0x63, 0x64, 0x65, 0x66]
  const UPPER_DIGITS: seq<Byte> :=
    [0x30, 0x31, 0x32, 0x33, 0x34, 0x35, 0x36, 0x37, 0x38, 0x39, 0x41, 0x42, 0x43, 0x44, 0x45, 0x46]

  /** \x with two digits of either case is the byte they are in base 16. */
  lemma HexEscape(high: nat, low: nat, a: Byte, b: Byte)
    requires high < 16 && low < 16 && high + low > 0
    requires (a == LOWER_DIGITS[high] || a == UPPER_DIGITS[high]) && (b == LOWER_DIGITS[low] || b == UPPER_DIGITS[low])
    ensures ItemOk(Hex([a, b])) && ItemValue(Hex([a, b])) == [16 * high + low]
  {
    DigitIs(a, high);
    DigitIs(b, low);
    assert [a, b][..1] == [a] && [a][..0] == [];
    assert HexValue([a]) == HexDigit(a);
  }

  lemma DigitIs(c: Byte, d: nat)
    requires d < 16 && (c == LOWER_DIGITS[d] || c == UPPER_DIGITS[d])
    ensures HexDigit(c) == d
  {
  }

  /** The word of a command that is $'\c' alone, for each letter c that stands for a byte:
      a TAB is given, and the line breaks are refused. */
  lemma LettersSay(c: Byte)
    requires c == 0x6E || c == 0x72 || c == 0x74
    ensures ItemValue(Letter(c)) == if c == 0x6E then [0x0A] else if c == 0x72 then [0x0D] else [0x09]
    ensures var r := ReadCommand([0x24, 0x27, 0x5C, c, 0x27]);
            if c == 0x74 then r.Ok? && WordsOk(r.value.words) && WordsValue(r.value.words) == [[0x09]]
            else r == Err(Control)
  {
    var t, s := [0x24, 0x27, 0x5C, c, 0x27], Ansi([Letter(c)]);
    var rest: seq<Byte> := [];
    LetterText(c);
    SegmentsBack([s], rest);
    assert SegmentsText([s]) + rest == t;
    OneSegment(s);
    assert ItemsValue([Letter(c)]) == ItemValue(Letter(c)) + [] == ItemValue(Letter(c));
    OneWord(t, s);
  }

  lemma LetterText(c: Byte)
    requires c == 0x6E || c == 0x72 || c == 0x74
    ensures SegmentsText([Ansi([Letter(c)])]) == [0x24, 0x27, 0x5C, c, 0x27]
  {
    var s := Ansi([Letter(c)]);
    assert ItemsText([Letter(c)]) == [0x5C, c] + ItemsText([]);
    assert SegmentText(s) == [0x24, 0x27] + [0x5C, c] + [0x27];
    assert [s][1..] == [] && SegmentsText([s]) == SegmentText(s) + [];
  }

  /** A command of one word, nothing around it. */
  lemma OneWord(t: seq<Byte>, s: Segment)
    requires t != [] && Blanks(t) == 0 && ReadSegments(t) == Ok(Read([s], []))
    requires SegmentOk(s) && !s.Join? && SegmentsOk([s]) && SegmentsValue([s]) == SegmentValue(s)
    ensures var r := ReadCommand(t);
            if IsClean(SegmentValue(s)) then
              r.Ok? && WordsOk(r.value.words) && WordsValue(r.value.words) == [SegmentValue(s)]
            else r == Err(Control)
  {
    var rest: seq<Byte> := [];
    assert t[0..] == t && rest[0..] == rest && Blanks(rest) == 0;
    assert ReadWords(rest, 1) == Ok(Read([], []));
    if IsClean(SegmentValue(s)) {
      var w := Word([s], []);
      assert [w][1..] == [] && ReadWords(t, 0) == Ok(Read([w] + [], []));
      assert WordOk(w, true);
    }
  }

  lemma OneSegment(s: Segment)
    requires SegmentOk(s)
    ensures SegmentsOk([s]) && SegmentsValue([s]) == SegmentValue(s)
  {
    assert [s][1..] == [];
    assert SegmentValue(s) + [] == SegmentValue(s);
  }

  /** A line that is continued inside a word says nothing there. */
  lemma JoinSaysNothing(before: seq<Segment>, crlf: bool, after: seq<Segment>)
    requires SegmentsOk(before) && SegmentsOk(after)
    ensures SegmentsOk(before + [Join(crlf)] + after)
    ensures SegmentsValue(before + [Join(crlf)] + after) == SegmentsValue(before) + SegmentsValue(after)
  {
    OneSegment(Join(crlf));
    ValueConcat(before, [Join(crlf)]);
    ValueConcat(before + [Join(crlf)], after);
    assert SegmentsValue(before) + [] == SegmentsValue(before);
  }

  lemma {:induction false} ValueConcat(a: seq<Segment>, b: seq<Segment>)
    requires SegmentsOk(a) && SegmentsOk(b)
    ensures SegmentsOk(a + b) && SegmentsValue(a + b) == SegmentsValue(a) + SegmentsValue(b)
  {
    if a == [] {
      assert a + b == b;
    } else {
      ValueConcat(a[1..], b);
      assert (a + b)[1..] == a[1..] + b;
    }
  }
}
