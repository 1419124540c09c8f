/** The bash command a browser copies as cURL: its words, and how each is spelled. */
module Curl {
  import opened Bytes
  import Utf8

  const QUOTE: Byte := 0x27
  const BACKSLASH: Byte := 0x5C
  const DOLLAR: Byte := 0x24
  const LETTER_N: Byte := 0x6E
  const LETTER_R: Byte := 0x72
  const LETTER_T: Byte := 0x74
  const LETTER_U: Byte := 0x75
  const LETTER_X: Byte := 0x78
  const LF: Byte := 0x0A
  const CR: Byte := 0x0D
  const TAB: Byte := 0x09
  const SPACE: Byte := 0x20
  const WORDS_MAX := 1024

  /** Why a command is refused. */
  datatype Error = Unclosed | NoHex | HoldsNul | NoEscape | OutOfRange | Syntax | Control | TooMany

  datatype Result<T> = Ok(value: T) | Err(error: Error)

  // ---- spellings ----

  /** A piece of a $'...' quote, as it is written. */
  datatype Item =
    | Raw(c: Byte)
    | Quoted(c: Byte)
    | Letter(c: Byte)
    | Hex(digits: seq<Byte>)
    | Unit(digits: seq<Byte>)
    | Pair(high: seq<Byte>, low: seq<Byte>)

  /** A piece of a word. */
  datatype Segment =
    | Plain(c: Byte)
    | Single(text: seq<Byte>)
    | Ansi(items: seq<Item>)
    | Join(crlf: bool)

  /** A word, and the blanks behind it. */
  datatype Word = Word(segments: seq<Segment>, blanks: seq<Byte>)

  datatype Command = Command(lead: seq<Byte>, words: seq<Word>)

  function HexDigit(c: Byte): (v: int)
    ensures -1 <= v < 16
  {
    if 0x30 <= c <= 0x39 then c - 0x30
    else if 0x61 <= c <= 0x66 then c - 0x61 + 10
    else if 0x41 <= c <= 0x46 then c - 0x41 + 10
    else -1
  }

  predicate AllHex(s: seq<Byte>) {
    forall i :: 0 <= i < |s| ==> HexDigit(s[i]) >= 0
  }

  function HexValue(s: seq<Byte>): (v: nat)
    requires AllHex(s)
  {
    if s == [] then 0 else HexValue(s[..|s| - 1]) * 16 + HexDigit(s[|s| - 1])
  }

  predicate IsHigh(v: nat) {
    0xD800 <= v <= 0xDBFF
  }

  predicate IsLow(v: nat) {
    0xDC00 <= v <= 0xDFFF
  }

  /** The code point of two UTF-16 halves. */
  function Joined(high: nat, low: nat): nat
    requires IsHigh(high) && IsLow(low)
  {
    0x1_0000 + (high - 0xD800) * 0x400 + (low - 0xDC00)
  }

  predicate ItemOk(i: Item) {
    match i
    case Raw(c) => c != QUOTE && c != BACKSLASH
    case Quoted(c) => c == QUOTE || c == BACKSLASH
    case Letter(c) => c == LETTER_N || c == LETTER_R || c == LETTER_T
    case Hex(digits) => |digits| == 2 && AllHex(digits) && HexValue(digits) != 0
    case Unit(digits) =>
      |digits| == 4 && AllHex(digits) && HexValue(digits) != 0 && !IsHigh(HexValue(digits)) && !IsLow(HexValue(digits))
    case Pair(high, low) =>
      && |high| == 4 && AllHex(high) && IsHigh(HexValue(high))
      && |low| == 4 && AllHex(low) && IsLow(HexValue(low))
  }

  function ItemText(i: Item): seq<Byte> {
    match i
    case Raw(c) => [c]
    case Quoted(c) => [BACKSLASH, c]
    case Letter(c) => [BACKSLASH, c]
    case Hex(digits) => [BACKSLASH, LETTER_X] + digits
    case Unit(digits) => [BACKSLASH, LETTER_U] + digits
    case Pair(high, low) => [BACKSLASH, LETTER_U] + high + [BACKSLASH, LETTER_U] + low
  }

  /** What it stands for. A \x escape is a raw byte, a \u escape a character. */
  function ItemValue(i: Item): seq<Byte>
    requires ItemOk(i)
  {
    match i
    case Raw(c) => [c]
    case Quoted(c) => [c]
    case Letter(c) => if c == LETTER_N then [LF] else if c == LETTER_R then [CR] else [TAB]
    case Hex(digits) =>
      HexBound(digits);
      [HexValue(digits)]
    case Unit(digits) =>
      HexBound(digits);
      Utf8.Encode(HexValue(digits))
    case Pair(high, low) => Utf8.Encode(Joined(HexValue(high), HexValue(low)))
  }

  lemma HexBound(s: seq<Byte>)
    requires AllHex(s)
    ensures |s| == 2 ==> HexValue(s) < 0x100
    ensures |s| == 4 ==> HexValue(s) < 0x1_0000
  {
    if |s| == 4 {
      HexBound(s[..2]);
      assert s[..3][..2] == s[..2];
      assert HexValue(s[..3]) == HexValue(s[..2]) * 16 + HexDigit(s[2]);
      assert HexValue(s) == HexValue(s[..3]) * 16 + HexDigit(s[3]);
    } else if |s| == 2 {
      assert HexValue(s[..1]) == HexValue(s[..1][..0]) * 16 + HexDigit(s[0]);
    }
  }

  ghost predicate ItemsOk(items: seq<Item>) {
    forall i :: 0 <= i < |items| ==> ItemOk(items[i])
  }

  function ItemsText(items: seq<Item>): seq<Byte> {
    if items == [] then [] else ItemText(items[0]) + ItemsText(items[1..])
  }

  function ItemsValue(items: seq<Item>): seq<Byte>
    requires ItemsOk(items)
  {
    if items == [] then [] else ItemValue(items[0]) + ItemsValue(items[1..])
  }

  /** A byte that stands for itself without quotes. */
  predicate IsPlain(c: Byte) {
    || 0x61 <= c <= 0x7A || 0x41 <= c <= 0x5A || 0x30 <= c <= 0x39 || c >= 0x80
    || c in [0x2D, 0x5F, 0x2E, 0x2F, 0x3A, 0x3D, 0x40, 0x2C, 0x2B, 0x25]  // -_./:=@,+%
  }

  ghost predicate SegmentOk(s: Segment) {
    match s
    case Plain(c) => IsPlain(c)
    case Single(text) => QUOTE !in text
    case Ansi(items) => ItemsOk(items)
    case Join(_) => true
  }

  function SegmentText(s: Segment): (t: seq<Byte>)
    ensures t != []
  {
    match s
    case Plain(c) => [c]
    case Single(text) => [QUOTE] + text + [QUOTE]
    case Ansi(items) => [DOLLAR, QUOTE] + ItemsText(items) + [QUOTE]
    case Join(crlf) => if crlf then [BACKSLASH, CR, LF] else [BACKSLASH, LF]
  }

  function SegmentValue(s: Segment): seq<Byte>
    requires SegmentOk(s)
  {
    match s
    case Plain(c) => [c]
    case Single(text) => text
    case Ansi(items) => ItemsValue(items)
    case Join(_) => []
  }

  ghost predicate SegmentsOk(segments: seq<Segment>) {
    forall i :: 0 <= i < |segments| ==> SegmentOk(segments[i])
  }

  function SegmentsText(segments: seq<Segment>): seq<Byte> {
    if segments == [] then [] else SegmentText(segments[0]) + SegmentsText(segments[1..])
  }

  function SegmentsValue(segments: seq<Segment>): seq<Byte>
    requires SegmentsOk(segments)
  {
    if segments == [] then [] else SegmentValue(segments[0]) + SegmentsValue(segments[1..])
  }

  predicate IsBlank(c: Byte) {
    c == SPACE || c == TAB || c == LF || c == CR
  }

  /** The length of the backslash-newline join that opens t, 0 for none. */
  function JoinLength(t: seq<Byte>): (n: nat)
    ensures n <= |t|
  {
    if |t| >= 2 && t[0] == BACKSLASH && t[1] == LF then 2
    else if |t| >= 3 && t[0] == BACKSLASH && t[1] == CR && t[2] == LF then 3
    else 0
  }

  /** Can a word start at t, or the command end there? */
  predicate Starts(t: seq<Byte>) {
    t == [] || (!IsBlank(t[0]) && JoinLength(t) == 0)
  }

  /** The length of the blanks and joins that open t. */
  function Blanks(t: seq<Byte>): (n: nat)
    ensures n <= |t| && Starts(t[n..])
  {
    if t != [] && IsBlank(t[0]) then
      assert t[1 + Blanks(t[1..])..] == t[1..][Blanks(t[1..])..];
      1 + Blanks(t[1..])
    else if JoinLength(t) > 0 then
      var n := JoinLength(t);
      assert t[n + Blanks(t[n..])..] == t[n..][Blanks(t[n..])..];
      n + Blanks(t[n..])
    else
      assert t[0..] == t;
      0
  }

  /** Does a word end before t? */
  predicate EndsWord(t: seq<Byte>) {
    t == [] || IsBlank(t[0])
  }

  ghost predicate WordOk(w: Word, last: bool) {
    && w.segments != [] && SegmentsOk(w.segments) && !w.segments[0].Join?
    && Blanks(w.blanks) == |w.blanks| && EndsWord(w.blanks) && (w.blanks == [] ==> last)
  }

  ghost predicate WordsOk(words: seq<Word>) {
    forall i :: 0 <= i < |words| ==> WordOk(words[i], i == |words| - 1)
  }

  function WordsText(words: seq<Word>): seq<Byte> {
    if words == [] then [] else SegmentsText(words[0].segments) + (words[0].blanks + WordsText(words[1..]))
  }

  function WordsValue(words: seq<Word>): (values: seq<seq<Byte>>)
    requires WordsOk(words)
    ensures |values| == |words|
  {
    if words == [] then [] else [SegmentsValue(words[0].segments)] + WordsValue(words[1..])
  }

  /** No control byte but TAB, once decoded. */
  predicate IsClean(value: seq<Byte>) {
    forall i :: 0 <= i < |value| ==> (value[i] >= 0x20 || value[i] == TAB) && value[i] != 0x7F
  }

  ghost predicate AllClean(values: seq<seq<Byte>>) {
    forall i :: 0 <= i < |values| ==> IsClean(values[i])
  }

  ghost predicate CommandOk(c: Command) {
    && Blanks(c.lead) == |c.lead| && WordsOk(c.words) && |c.words| <= WORDS_MAX
    && AllClean(WordsValue(c.words))
  }

  function CommandText(c: Command): seq<Byte> {
    c.lead + WordsText(c.words)
  }

  // ---- reading ----

  /** A byte of a C string, 0 at its end. */
  function At(t: seq<Byte>, i: nat): Byte {
    if i < |t| then t[i] else 0
  }

  /** curl_hex_run: the value of n hex digits at i. */
  function HexRun(t: seq<Byte>, i: nat, n: nat): Result<nat> {
    if i + n <= |t| && AllHex(t[i..i + n]) then Ok(HexValue(t[i..i + n])) else Err(NoHex)
  }

  /** The \u escape that opens t, with the low half behind a high one. */
  function ReadUnit(t: seq<Byte>): Result<Item> {
    match HexRun(t, 2, 4)
    case Err(e) => Err(e)
    case Ok(high) =>
      if IsHigh(high) && At(t, 6) == BACKSLASH && At(t, 7) == LETTER_U && HexRun(t, 8, 4).Ok? &&
        IsLow(HexRun(t, 8, 4).value)
      then Ok(Pair(t[2..6], t[8..12]))
      else if high == 0 then Err(HoldsNul)
      else if IsHigh(high) || IsLow(high) then Err(OutOfRange)
      else Ok(Unit(t[2..6]))
  }

  function ReadItem(t: seq<Byte>): Result<Item>
    requires t != []
  {
    if t[0] != BACKSLASH then Ok(Raw(t[0]))
    else if At(t, 1) == BACKSLASH || At(t, 1) == QUOTE then Ok(Quoted(t[1]))
    else if At(t, 1) == LETTER_N || At(t, 1) == LETTER_R || At(t, 1) == LETTER_T then Ok(Letter(t[1]))
    else if At(t, 1) == LETTER_X then
      match HexRun(t, 2, 2)
      case Err(e) => Err(e)
      case Ok(v) => if v == 0 then Err(HoldsNul) else Ok(Hex(t[2..4]))
    else if At(t, 1) == LETTER_U then ReadUnit(t)
    else Err(NoEscape)
  }

  /** What was read, and the bytes left. */
  datatype Read<T> = Read(value: seq<T>, rest: seq<Byte>)

  function Then<T>(first: T, others: Result<Read<T>>): Result<Read<T>> {
    match others
    case Ok(r) => Ok(Read([first] + r.value, r.rest))
    case Err(e) => Err(e)
  }

  /** The body of a $'...' quote, past the opening quote. */
  function ReadItems(t: seq<Byte>): Result<Read<Item>> {
    if t == [] then Err(Unclosed)
    else if t[0] == QUOTE then Ok(Read([], t[1..]))
    else match ReadItem(t)
      case Err(e) => Err(e)
      case Ok(i) =>
        ItemTakes(t, i);
        Then(i, ReadItems(t[|ItemText(i)|..]))
  }

  lemma ItemTakes(t: seq<Byte>, i: Item)
    requires t != [] && ReadItem(t) == Ok(i)
    ensures 0 < |ItemText(i)| <= |t|
  {
  }

  /** The offset of the first quote in t, or |t|. */
  function FindQuote(t: seq<Byte>): (n: nat)
    ensures n <= |t| && (n < |t| ==> t[n] == QUOTE) && QUOTE !in t[..n]
  {
    if t == [] || t[0] == QUOTE then 0 else 1 + FindQuote(t[1..])
  }

  /** The segment that opens t, and the rest. */
  datatype Piece = Piece(segment: Segment, rest: seq<Byte>)

  function ReadSegment(t: seq<Byte>): (r: Result<Piece>)
    requires !EndsWord(t)
    ensures r.Ok? ==> |r.value.rest| < |t|
  {
    if t[0] == QUOTE then
      var end := 1 + FindQuote(t[1..]);
      if end == |t| then Err(Unclosed) else Ok(Piece(Single(t[1..end]), t[end + 1..]))
    else if t[0] == DOLLAR && At(t, 1) == QUOTE then
      match ReadItems(t[2..])
      case Err(e) => Err(e)
      case Ok(r) =>
        ItemsTake(t[2..]);
        Ok(Piece(Ansi(r.value), r.rest))
    else if JoinLength(t) > 0 then Ok(Piece(Join(JoinLength(t) == 3), t[JoinLength(t)..]))
    else if IsPlain(t[0]) then Ok(Piece(Plain(t[0]), t[1..]))
    else Err(Syntax)
  }

  lemma {:induction false} ItemsTake(t: seq<Byte>)
    requires ReadItems(t).Ok?
    ensures |ReadItems(t).value.rest| < |t|
  {
    if t[0] != QUOTE {
      var i := ReadItem(t).value;
      ItemTakes(t, i);
      ItemsTake(t[|ItemText(i)|..]);
    }
  }

  /** The word that opens t. */
  function ReadSegments(t: seq<Byte>): (r: Result<Read<Segment>>)
    ensures r.Ok? ==> |r.value.rest| <= |t| && EndsWord(r.value.rest)
    ensures r.Ok? && !EndsWord(t) ==> |r.value.rest| < |t|
    decreases |t|
  {
    if EndsWord(t) then Ok(Read([], t)) else
    match ReadSegment(t)
    case Err(e) => Err(e)
    case Ok(p) => Then(p.segment, ReadSegments(p.rest))
  }

  /** curl_split past the first blanks, `count` words read before. */
  function ReadWords(t: seq<Byte>, count: nat): Result<Read<Word>>
    requires Starts(t)
    decreases |t|
  {
    if t == [] then Ok(Read([], [])) else
    match ReadSegments(t)
    case Err(e) => Err(e)
    case Ok(r) =>
      ReadSegmentsOk(t);
      if !IsClean(SegmentsValue(r.value)) then Err(Control)
      else if count >= WORDS_MAX then Err(TooMany)
      else
        var n := Blanks(r.rest);
        Then(Word(r.value, r.rest[..n]), ReadWords(r.rest[n..], count + 1))
  }

  function ReadCommand(t: seq<Byte>): Result<Command> {
    var n := Blanks(t);
    match ReadWords(t[n..], 0)
    case Err(e) => Err(e)
    case Ok(r) => Ok(Command(t[..n], r.value))
  }

  // ---- what is read was written ----

  lemma ReadItemOk(t: seq<Byte>, i: Item)
    requires t != [] && t[0] != QUOTE && ReadItem(t) == Ok(i)
    ensures ItemOk(i) && ItemText(i) == t[..|ItemText(i)|]
  {
  }

  lemma {:induction false} ReadItemsOk(t: seq<Byte>)
    requires ReadItems(t).Ok?
    ensures SpellsItems(ReadItems(t).value.value, ReadItems(t).value.rest, t)
  {
    if t[0] == QUOTE {
      assert ItemsText([]) + [QUOTE] + t[1..] == t;
    } else {
      var i := ReadItem(t).value;
      ReadItemOk(t, i);
      ItemTakes(t, i);
      var after := t[|ItemText(i)|..];
      ReadItemsOk(after);
      assert t == t[..|ItemText(i)|] + after;
      SpellsOneMore(i, ReadItems(after).value.value, ReadItems(after).value.rest, after);
    }
  }

  ghost predicate SpellsItems(items: seq<Item>, rest: seq<Byte>, t: seq<Byte>) {
    ItemsOk(items) && ItemsText(items) + [QUOTE] + rest == t
  }

  lemma SpellsOneMore(i: Item, others: seq<Item>, rest: seq<Byte>, after: seq<Byte>)
    requires ItemOk(i) && SpellsItems(others, rest, after)
    ensures SpellsItems([i] + others, rest, ItemText(i) + after)
  {
    assert ([i] + others)[1..] == others;
  }

  lemma ReadSegmentOk(t: seq<Byte>)
    requires !EndsWord(t) && ReadSegment(t).Ok?
    ensures var p := ReadSegment(t).value; SegmentOk(p.segment) && SegmentText(p.segment) + p.rest == t
  {
    if t[0] == QUOTE {
      SingleOk(t);
    } else if t[0] == DOLLAR && At(t, 1) == QUOTE {
      ReadItemsOk(t[2..]);
      AnsiOk(t, ReadItems(t[2..]).value.value, ReadItems(t[2..]).value.rest);
    }
  }

  lemma SingleOk(t: seq<Byte>)
    requires t != [] && t[0] == QUOTE && 1 + FindQuote(t[1..]) < |t|
    ensures var end := 1 + FindQuote(t[1..]);
            SegmentOk(Single(t[1..end])) && SegmentText(Single(t[1..end])) + t[end + 1..] == t
  {
    var end := 1 + FindQuote(t[1..]);
    assert t[1..][..end - 1] == t[1..end];
  }

  lemma AnsiOk(t: seq<Byte>, items: seq<Item>, rest: seq<Byte>)
    requires |t| >= 2 && t[0] == DOLLAR && t[1] == QUOTE && SpellsItems(items, rest, t[2..])
    ensures SegmentOk(Ansi(items)) && SegmentText(Ansi(items)) + rest == t
  {
    assert t == [DOLLAR, QUOTE] + t[2..];
  }

  lemma SegmentsCons(s: Segment, others: seq<Segment>, rest: seq<Byte>)
    ensures SegmentsText([s] + others) + rest == SegmentText(s) + (SegmentsText(others) + rest)
    ensures SegmentOk(s) && SegmentsOk(others) ==> SegmentsOk([s] + others)
  {
    assert ([s] + others)[1..] == others;
  }

  /** The segments spell the bytes they take. */
  ghost predicate Spells(segments: seq<Segment>, rest: seq<Byte>, t: seq<Byte>) {
    SegmentsOk(segments) && SegmentsText(segments) + rest == t
  }

  lemma {:induction false} ReadSegmentsOk(t: seq<Byte>)
    requires ReadSegments(t).Ok?
    ensures Spells(ReadSegments(t).value.value, ReadSegments(t).value.rest, t)
    decreases |t|
  {
    if EndsWord(t) {
      assert SegmentsText([]) + t == t;
    } else {
      var p := ReadSegment(t).value;
      ReadSegmentOk(t);
      ReadSegmentsOk(p.rest);
      var r := ReadSegments(p.rest).value;
      SpellsMore(p.segment, r.value, r.rest, p.rest, t);
    }
  }

  lemma SpellsMore(s: Segment, others: seq<Segment>, rest: seq<Byte>, after: seq<Byte>, t: seq<Byte>)
    requires Spells(others, rest, after) && SegmentOk(s) && SegmentText(s) + after == t
    ensures Spells([s] + others, rest, t)
  {
    SegmentsCons(s, others, rest);
  }
}
