/** The JSON strings of the change report, against section 7 of RFC 8259. */
module Json {
  import opened Wrappers
  import opened Bytes
  import opened Utf8

  const QUOTE: Byte := 0x22
  const BACKSLASH: Byte := 0x5C
  const LETTER_U: Byte := 0x75

  // ---- the writer ----

  function HexChar(d: nat): Byte
    requires d < 16
  {
    if d < 10 then 0x30 + d else 0x61 + d - 10
  }

  /** "\u" and four hex digits, for a value below 0x100. */
  function Escaped(c: Byte): seq<Byte> {
    [BACKSLASH, LETTER_U, 0x30, 0x30, HexChar(c / 16), HexChar(c % 16)]
  }

  const REPLACEMENT: seq<Byte> := [BACKSLASH, LETTER_U, 0x66, 0x66, 0x66, 0x64]  // "\ufffd"

  /** The bytes of s that one turn of the writer takes. */
  function Taken(s: seq<Byte>): (n: nat)
    requires s != []
    ensures 1 <= n <= |s|
  {
    var len := LeadLength(s[0]);
    if s[0] >= 0x80 && len != 0 && len <= |s| && IsUtf8(s[..len]) then len else 1
  }

  /** What it writes for them. */
  function Item(s: seq<Byte>): seq<Byte>
    requires s != []
  {
    var c := s[0];
    if c == QUOTE || c == BACKSLASH then [BACKSLASH, c]
    else if c < 0x20 || c == 0x7F then Escaped(c)
    else if c < 0x80 || Taken(s) > 1 then s[..Taken(s)]
    else REPLACEMENT
  }

  function Items(s: seq<Byte>): seq<Byte> {
    if s == [] then [] else Item(s) + Items(s[Taken(s)..])
  }

  function JsonString(s: seq<Byte>): seq<Byte> {
    [QUOTE] + Items(s) + [QUOTE]
  }

  /** hts_changes_json_string. */
  method Write(out: seq<Byte>, s: seq<Byte>) returns (result: seq<Byte>)
    ensures result == out + JsonString(s)
  {
    result := out + [QUOTE];
    var p := 0;
    ghost var all := out + [QUOTE] + Items(s);
    assert s[0..] == s;
    while p < |s|
      invariant p <= |s| && result + Items(s[p..]) == all
    {
      ItemsFrom(s, p, result);
      var n;
      result, n := WriteOne(result, s, p);
      p := p + n;
    }
    assert s[p..] == [];
    assert result == out + [QUOTE] + Items(s);
    result := result + [QUOTE];
    assert result == out + JsonString(s);
  }

  lemma ItemsFrom(s: seq<Byte>, p: nat, out: seq<Byte>)
    requires p < |s|
    ensures out + Items(s[p..]) == out + Item(s[p..]) + Items(s[p + Taken(s[p..])..])
  {
    assert s[p..][Taken(s[p..])..] == s[p + Taken(s[p..])..];
  }

  method WriteOne(out: seq<Byte>, s: seq<Byte>, p: nat) returns (result: seq<Byte>, n: nat)
    requires p < |s|
    ensures result == out + Item(s[p..]) && n == Taken(s[p..])
  {
    var c := s[p];
    ghost var rest := s[p..];
    n := 1;
    if c == QUOTE || c == BACKSLASH {
      result := out + [BACKSLASH, c];
    } else if c < 0x20 || c == 0x7F {
      result := out + Escaped(c);
    } else if c < 0x80 {
      assert [c] == rest[..1];
      result := out + [c];
    } else {
      var len := LeadLength(c);
      assert len <= |rest| ==> s[p..p + len] == rest[..len];
      if len != 0 && len <= |s| - p && IsUtf8(s[p..p + len]) {
        result, n := out + s[p..p + len], len;
      } else {
        result := out + REPLACEMENT;
      }
    }
  }

  // ---- a reader of JSON strings ----

  function HexValue(c: Byte): Option<nat> {
    if 0x30 <= c <= 0x39 then Some(c - 0x30)
    else if 0x61 <= c <= 0x66 then Some(c - 0x61 + 10)
    else if 0x41 <= c <= 0x46 then Some(c - 0x41 + 10)
    else None
  }

  /** Four hex digits. */
  function Unit(t: seq<Byte>): Option<nat> {
    if |t| < 4 then None else
    match (HexValue(t[0]), HexValue(t[1]), HexValue(t[2]), HexValue(t[3]))
    case (Some(a), Some(b), Some(c), Some(d)) => Some(((a * 16 + b) * 16 + c) * 16 + d)
    case _ => None
  }

  /** A code point, and the bytes it took. */
  datatype Point = Point(cp: nat, taken: nat)

  /** After "\u": one code unit, or two that make a pair. */
  function UnicodeEscape(t: seq<Byte>): Option<Point> {
    match Unit(t)
    case None => None
    case Some(high) =>
      if high < 0xD800 || high > 0xDFFF then Some(Point(high, 4))
      else if high > 0xDBFF || |t| < 10 || t[4] != BACKSLASH || t[5] != LETTER_U then None
      else match Unit(t[6..])
        case None => None
        case Some(low) =>
          if 0xDC00 <= low <= 0xDFFF then Some(Point(0x1_0000 + (high - 0xD800) * 0x400 + (low - 0xDC00), 10)) else None
  }

  function Escape(t: seq<Byte>): Option<Point> {
    if t == [] then None
    else if t[0] == QUOTE || t[0] == BACKSLASH || t[0] == 0x2F then Some(Point(t[0], 1))
    else if t[0] == 0x62 then Some(Point(8, 1))
    else if t[0] == 0x66 then Some(Point(12, 1))
    else if t[0] == 0x6E then Some(Point(10, 1))
    else if t[0] == 0x72 then Some(Point(13, 1))
    else if t[0] == 0x74 then Some(Point(9, 1))
    else if t[0] == LETTER_U then
      match UnicodeEscape(t[1..])
      case Some(p) => Some(Point(p.cp, p.taken + 1))
      case None => None
    else None
  }

  /** One character of a string, escaped or not. */
  function Character(t: seq<Byte>): (p: Option<Point>)
    ensures p.Some? ==> p.value.taken > 0
  {
    if t == [] || t[0] < 0x20 || t[0] == QUOTE then None
    else if t[0] == BACKSLASH then
      match Escape(t[1..])
      case Some(p) => Some(Point(p.cp, p.taken + 1))
      case None => None
    else if SequenceLength(t) > 0 then Some(Point(CodePoint(t), SequenceLength(t)))
    else None
  }

  datatype Parsed = Parsed(text: seq<nat>, rest: seq<Byte>)

  /** The characters up to the closing quote. */
  function Characters(t: seq<Byte>): Option<Parsed> {
    if t == [] then None
    else if t[0] == QUOTE then Some(Parsed([], t[1..]))
    else
      match Character(t)
      case None => None
      case Some(p) =>
        if p.taken > |t| then None else
        match Characters(t[p.taken..])
        case None => None
        case Some(others) => Some(Parsed([p.cp] + others.text, others.rest))
  }

  /** The text of the JSON string that opens t; None when none does. */
  function Parse(t: seq<Byte>): Option<Parsed> {
    if t == [] || t[0] != QUOTE then None else Characters(t[1..])
  }

  // ---- what is written reads back ----

  lemma {:induction false} GatherPrefix(s: seq<Byte>, len: nat, n: nat)
    requires 1 <= n <= len <= |s|
    ensures Gather(s[..len], n) == Gather(s, n)
  {
    if n > 1 {
      GatherPrefix(s, len, n - 1);
    }
  }

  /** The writer's check of len bytes finds the sequences that there are. */
  lemma TakenIsSequence(s: seq<Byte>)
    requires s != [] && s[0] >= 0x80
    ensures Taken(s) > 1 <==> SequenceLength(s) > 0
    ensures Taken(s) > 1 ==> Taken(s) == SequenceLength(s)
  {
    var len := LeadLength(s[0]);
    if len != 0 && len <= |s| {
      var t := s[..len];
      GatherPrefix(s, len, len);
      assert forall k :: 1 <= k < len ==> (IsTail(t[k]) <==> IsTail(s[k]));
      assert SequenceLength(t) == SequenceLength(s);
      if SequenceLength(t) > 0 {
        assert t[len..] == [] && IsUtf8([]);
        assert IsUtf8(t);
      }
    }
  }

  /** A step of the writer, read back: the character it took, or U+FFFD for a byte
      that is no part of one. */
  lemma ItemReadsBack(s: seq<Byte>, tail: seq<Byte>)
    requires s != []
    ensures var t := Item(s) + tail;
            && t[0] != QUOTE && Taken(s) == (if SequenceLength(s) > 0 then SequenceLength(s) else 1)
            && Character(t) == Some(Point(if SequenceLength(s) > 0 then CodePoint(s) else 0xFFFD, |Item(s)|))
  {
    var c := s[0];
    var t := Item(s) + tail;
    if c >= 0x80 {
      TakenIsSequence(s);
      if SequenceLength(s) > 0 {
        AcceptedIsEncoded(s);
        EncodedIsAccepted(CodePoint(s), tail);
      } else {
        EscapeReadsBack(0xFFFD, REPLACEMENT, tail);
      }
    } else if c == QUOTE || c == BACKSLASH {
      assert t[1..][0] == c;
    } else if c < 0x20 || c == 0x7F {
      EscapeReadsBack(c, Escaped(c), tail);
    } else {
      assert s[..1] == [c];
    }
  }

  lemma EscapeReadsBack(cp: nat, item: seq<Byte>, tail: seq<Byte>)
    requires |item| == 6 && item[0] == BACKSLASH && item[1] == LETTER_U && (cp < 0xD800 || cp > 0xDFFF)
    requires Unit(item[2..]) == Some(cp)
    ensures Character(item + tail) == Some(Point(cp, 6))
  {
    var t := item + tail;
    var u := t[1..][1..];
    assert t[1..][0] == LETTER_U;
    assert u[0] == item[2..][0] && u[1] == item[2..][1] && u[2] == item[2..][2] && u[3] == item[2..][3];
    assert Unit(u) == Some(cp);
    assert UnicodeEscape(u) == Some(Point(cp, 4));
    assert Escape(t[1..]) == Some(Point(cp, 5));
  }

  lemma {:induction false} ItemsReadBack(s: seq<Byte>, tail: seq<Byte>)
    ensures Characters(Items(s) + ([QUOTE] + tail)) == Some(Parsed(Repaired(s), tail))
  {
    var closing := [QUOTE] + tail;
    if s == [] {
      assert Items(s) + closing == closing && closing[1..] == tail;
    } else {
      var rest := s[Taken(s)..];
      var t := Item(s) + (Items(rest) + closing);
      assert Items(s) + closing == t;
      ItemReadsBack(s, Items(rest) + closing);
      assert t[|Item(s)|..] == Items(rest) + closing;
      ItemsReadBack(rest, tail);
    }
  }

  /** What is written is one JSON string, and it reads as the text of s, every byte
      outside a well-formed UTF-8 sequence replaced by U+FFFD. */
  lemma ReadsBack(s: seq<Byte>, tail: seq<Byte>)
    ensures Parse(JsonString(s) + tail) == Some(Parsed(Repaired(s), tail))
  {
    ItemsReadBack(s, tail);
    assert (JsonString(s) + tail)[1..] == Items(s) + ([QUOTE] + tail);
  }

  /** UTF-8 comes back byte for byte. */
  lemma Utf8ReadsBack(s: seq<Byte>, tail: seq<Byte>)
    requires IsUtf8(s)
    ensures var p := Parse(JsonString(s) + tail);
            p.Some? && AllScalar(p.value.text) && EncodeAll(p.value.text) == s && p.value.rest == tail
  {
    ReadsBack(s, tail);
    AcceptedTextIsEncoded(s);
  }

  lemma {:induction false} AsciiIsUtf8(s: seq<Byte>)
    requires forall i :: 0 <= i < |s| ==> s[i] < 0x80
    ensures IsUtf8(s)
  {
    if s != [] {
      AsciiIsUtf8(s[1..]);
    }
  }

  lemma {:induction false} ItemsAreUtf8(s: seq<Byte>)
    ensures IsUtf8(Items(s))
  {
    if s != [] {
      if s[0] < 0x80 || Taken(s) == 1 {
        AsciiIsUtf8(Item(s));
      }
      ItemsAreUtf8(s[Taken(s)..]);
      Utf8Concat(Item(s), Items(s[Taken(s)..]));
    }
  }

  /** Whatever the bytes, the report stays UTF-8. */
  lemma OutputIsUtf8(s: seq<Byte>)
    ensures IsUtf8(JsonString(s))
  {
    ItemsAreUtf8(s);
    AsciiIsUtf8([QUOTE]);
    Utf8Concat([QUOTE], Items(s));
    Utf8Concat([QUOTE] + Items(s), [QUOTE]);
  }

  predicate NoControl(s: seq<Byte>) {
    forall i :: 0 <= i < |s| ==> s[i] >= 0x20 && s[i] != 0x7F
  }

  /** One turn writes no control byte: what it copies is a plain byte, or a sequence of
      bytes from 0x80 up. */
  lemma ItemHasNoControl(s: seq<Byte>)
    requires s != []
    ensures NoControl(Item(s))
  {
    if s[0] >= 0x80 && Taken(s) > 1 {
      HighBytes(s[..Taken(s)]);
    }
  }

  lemma HighBytes(s: seq<Byte>)
    requires |s| > 1 && s[0] >= 0x80 && LeadLength(s[0]) == |s| && IsUtf8(s)
    ensures NoControl(s)
  {
  }

  /** Nor does the report. */
  lemma {:induction false} ItemsHaveNoControl(s: seq<Byte>)
    ensures NoControl(Items(s))
    decreases |s|
  {
    if s != [] {
      ItemHasNoControl(s);
      ItemsHaveNoControl(s[Taken(s)..]);
    }
  }

  lemma OutputHasNoControl(s: seq<Byte>)
    ensures NoControl(JsonString(s))
  {
    ItemsHaveNoControl(s);
  }
}
