/** What a chunk-size line says, told by the digits it is spelled with. */
module ChunkedSize {
  import opened Wrappers
  import opened CText
  import opened Chunked

  const LOWER_DIGITS := "0123456789abcdef"
  const UPPER_DIGITS := "0123456789ABCDEF"

  predicate IsDigitOf(c: char, d: nat)
    requires d < 16
  {
    c == LOWER_DIGITS[d] || c == UPPER_DIGITS[d]
  }

  /** Is hex a way to write n in base 16? Either case will do, and leading zeros. */
  predicate Spells(hex: string, n: nat) {
    && hex != ""
    && IsDigitOf(hex[|hex| - 1], n % 16)
    && (if |hex| == 1 then n < 16 else Spells(hex[..|hex| - 1], n / 16))
  }

  lemma DigitValue(c: char, d: nat)
    requires d < 16
    ensures IsDigitOf(c, d) <==> HexDigit(c) == d
  {
    if d < 8 {
      if d < 4 {} else {}
    } else {
      if d < 12 {} else {}
    }
  }

  /** Digits read as the number they spell, and as no other. */
  lemma {:induction false} SpellsExactly(hex: string, n: nat)
    ensures Spells(hex, n) <==> hex != "" && AllHex(hex) && HexValue(hex) == n
    decreases |hex|
  {
    if hex != "" {
      var last, front := hex[|hex| - 1], hex[..|hex| - 1];
      DigitValue(last, n % 16);
      assert hex == front + [last];
      if |hex| > 1 {
        SpellsExactly(front, n / 16);
      }
    }
  }

  /** A text with its sign and its prefix apart. */
  predicate IsForm(text: string, sign: string, prefix: string, digits: string) {
    && (sign == "" || sign == "+" || sign == "-") && (prefix == "" || prefix == "0x" || prefix == "0X")
    && text == sign + (prefix + digits)
  }

  /** The size that digits spelling v give. A minus counts back from 2^64. */
  predicate Gives(sign: string, v: nat, n: nat) {
    n <= 0x7FFF_FFFF && if sign == "-" && v > 0 then n > 0 && v + n == 0x1_0000_0000_0000_0000 else v == n
  }

  ghost predicate Declares(text: string, n: nat) {
    exists sign, prefix, digits, v: nat :: IsForm(text, sign, prefix, digits) && Spells(digits, v) && Gives(sign, v, n)
  }

  lemma PrefixSkipped(prefix: string, digits: string)
    requires prefix == "" || prefix == "0x" || prefix == "0X"
    requires digits != "" && AllHex(digits)
    ensures SkipPrefix(prefix + digits) == digits
    ensures prefix + digits != "" && (prefix + digits)[0] != '-' && (prefix + digits)[0] != '+'
  {
    var rest := prefix + digits;
    assert HexDigit(digits[0]) >= 0;
    if prefix == "" {
      assert rest == digits;
      assert |rest| > 1 ==> HexDigit(digits[1]) >= 0;
    } else {
      assert rest[0] == '0' && rest[1] == prefix[1] && rest[2] == digits[0] && rest[2..] == digits;
    }
  }

  lemma FormReads(text: string, sign: string, prefix: string, digits: string, v: nat)
    requires IsForm(text, sign, prefix, digits) && Spells(digits, v)
    ensures StrToUll(text) == Some(Unsigned(v, sign == "-"))
  {
    SpellsExactly(digits, v);
    PrefixSkipped(prefix, digits);
    SignSkipped(text, sign, prefix + digits);
  }

  lemma SignSkipped(text: string, sign: string, rest: string)
    requires sign == "" || sign == "+" || sign == "-"
    requires text == sign + rest && rest != "" && rest[0] != '-' && rest[0] != '+'
    ensures (text[0] == '-') == (sign == "-")
    ensures (if text[0] == '-' || text[0] == '+' then text[1..] else text) == rest
  {
    assert text[0] == if sign == "" then rest[0] else sign[0];
  }

  lemma ReadsForm(text: string) returns (sign: string, prefix: string, digits: string)
    requires StrToUll(text).Some?
    ensures IsForm(text, sign, prefix, digits) && digits != "" && AllHex(digits)
    ensures StrToUll(text) == Some(Unsigned(HexValue(digits), sign == "-"))
  {
    sign := if text != "" && (text[0] == '-' || text[0] == '+') then text[..1] else "";
    var rest := text[|sign|..];
    assert text == sign + rest;
    prefix := if |rest| > 2 && rest[0] == '0' && (rest[1] == 'x' || rest[1] == 'X') && HexDigit(rest[2]) >= 0
              then rest[..2] else "";
    digits := rest[|prefix|..];
    assert rest == prefix + digits;
  }

  /** A text is a chunk size exactly when it spells one. */
  lemma SizeExactly(text: string, n: nat)
    ensures ChunkSize(text) == Some(n) <==> Declares(text, n)
  {
    if Declares(text, n) {
      var sign, prefix, digits, v: nat :|
        IsForm(text, sign, prefix, digits) && Spells(digits, v) && Gives(sign, v, n);
      FormReads(text, sign, prefix, digits, v);
    }
    if ChunkSize(text) == Some(n) {
      var sign, prefix, digits := ReadsForm(text);
      var v := HexValue(digits);
      SpellsExactly(digits, v);
      assert Gives(sign, v, n);
    }
  }

  // ---- the line around it ----

  /** A size line: blanks, the size without blanks, then nothing, a space, a semicolon
      or a NUL, and anything. */
  predicate IsLine(line: string, blanks: string, core: string, rest: string) {
    && line == blanks + core + rest
    && (forall i :: 0 <= i < |blanks| ==> IsSpace(blanks[i]))
    && (forall i :: 0 <= i < |core| ==> core[i] != '\0' && core[i] != ';' && core[i] != ' ')
    && (core != "" ==> !IsSpace(core[0]))
    && (rest == "" || rest[0] == ';' || rest[0] == '\0' || (rest[0] == ' ' && core != ""))
  }

  lemma CutsAfter(hex: string, rest: string, c: char)
    requires forall i :: 0 <= i < |hex| ==> hex[i] != c
    ensures CutAt(hex + rest, c) == hex + CutAt(rest, c)
  {
    FindIs(hex + rest, c, |hex| + Find(rest, c));
  }

  lemma {:induction false} SkipsBlanks(blanks: string, text: string)
    requires forall i :: 0 <= i < |blanks| ==> IsSpace(blanks[i])
    requires text != "" ==> !IsSpace(text[0])
    ensures SkipSpace(blanks + text) == text
  {
    if blanks == "" {
      assert blanks + text == text;
    } else {
      SkipsBlanks(blanks[1..], text);
      assert (blanks + text)[1..] == blanks[1..] + text;
    }
  }

  lemma CutsRest(core: string, rest: string)
    requires forall i :: 0 <= i < |core| ==> core[i] != ';' && core[i] != ' '
    requires rest == "" || rest[0] == ';' || rest[0] == ' '
    ensures CutAt(CutAt(core + rest, ';'), ' ') == core
  {
    CutsAfter(core, rest, ';');
    var e := CutAt(rest, ';');
    assert e == "" || e[0] == ' ';
    CutsAfter(core, e, ' ');
    assert CutAt(e, ' ') == "";
    assert core + "" == core;
  }

  /** Only the size is left of the line. */
  lemma LineGives(line: string, blanks: string, core: string, rest: string)
    requires IsLine(line, blanks, core, rest)
    ensures ChunkText(line + [LF]) == core
  {
    assert (line + [LF])[..|line|] == line;
    assert forall i :: 0 <= i < |blanks + core| ==> (blanks + core)[i] != '\0';
    CutsAfter(blanks + core, rest, '\0');
    var e := CutAt(rest, '\0');
    assert e == "" || e[0] == rest[0];
    assert blanks + core + e == blanks + (core + e);
    SkipsBlanks(blanks, core + e);
    CutsRest(core, e);
  }

  /** The slot once a size is counted: over a limit, or open for its data or, after a
      zero, for the trailers. */
  predicate Counted(w: World, s: Slot, n: nat, t: Slot) {
    var total := n + if s.totalsize < 0 then 0 else s.totalsize;
    && t.totalsize == total && t.sizes == s.sizes + [n] && t.body == s.body
    && (if w.tooBig(total) then t.status == Ready && t.statuscode == STATUSCODE_TOO_BIG && !t.stored
        else if w.inMemory && (total >= 0x7FFF_FFFF || !w.allocates(total)) then Illegal(t)
        else t.statuscode == s.statuscode && if n == 0 then InTrailers(t) else t.status == Transfer)
  }

  predicate Illegal(t: Slot) {
    t.status == Ready && t.statuscode == STATUSCODE_INVALID
  }

  lemma SizeCounts(w: World, s: Slot, n: nat)
    requires s.totalsize >= 0
    ensures Counted(w, s, n, TakeSize(w, s, n))
  {
  }

  lemma TextCounts(w: World, s: Slot, core: string)
    requires s.status == ChunkWait
    ensures match ChunkSize(core)
            case Some(n) => Counted(w, s, n, TakeText(w, s, core))
            case None => Illegal(TakeText(w, s, core))
  {
    match ChunkSize(core)
    case Some(n) => SizeCounts(w, s.(totalsize := if s.totalsize < 0 then 0 else s.totalsize, line := ""), n);
    case None =>
  }

  /** What a line read while a size is awaited does. A size that is spelled is added up and
      held against the limits, and opens its data or the trailers; any other line, and
      one of 32 bytes with its LF, ends the transfer in error. */
  lemma SizeLineExactly(w: World, s: Slot, line: string, blanks: string, core: string, rest: string)
    requires s.status == ChunkWait && IsLine(line, blanks, core, rest)
    requires Complete(line + [LF], false)
    ensures var t := TakeLine(w, s, line + [LF]);
            && (forall n: nat :: Declares(core, n) && |line| < 31 ==> Counted(w, s, n, t))
            && (|line| >= 31 || !(exists n: nat :: Declares(core, n)) ==> Illegal(t))
  {
    LineGives(line, blanks, core, rest);
    TextCounts(w, s, core);
    forall n: nat ensures ChunkSize(core) == Some(n) <==> Declares(core, n) {
      SizeExactly(core, n);
    }
    assert ChunkSize(core).Some? ==> Declares(core, ChunkSize(core).value);
  }

  /** What a line read past a chunk's data does: a blank one lets the next size come, any
      other ends the transfer in error. */
  lemma DataEndExactly(w: World, s: Slot, line: string, blanks: string, core: string, rest: string)
    requires s.status == ChunkCr && s.blocksize > 0 && s.totalsize >= 0 && IsLine(line, blanks, core, rest)
    requires Complete(line + [LF], false)
    ensures var t := TakeLine(w, s, line + [LF]);
            if |line| < 31 && core == "" then t == s.(status := ChunkWait, line := "") else Illegal(t)
  {
    LineGives(line, blanks, core, rest);
  }
}
