/** The chunked transfer coding (section 7.1 of RFC 9112), as the slot engine
    decodes it: one state machine over the bytes of the stream. */
module Chunked {
  import opened Wrappers
  import opened CText

  const LF := '\n'
  const CR := '\r'
  const HTS_LINE_BLOCK_SIZE := 8192
  const CHUNK_LINE_MAX := 32
  const INT32_MAX := 0x7FFF_FFFF

  const STATUSCODE_INVALID := -1
  const STATUSCODE_CONNERROR := -4
  const STATUSCODE_TOO_BIG := -7

  /** Where the transfer is. ChunkCr with the zero-size chunk behind it is the
      trailer section. */
  datatype Status = ChunkWait | ChunkCr | Transfer | Ready

  /** A slot's part in a chunked transfer. `line` is chunk_adr, the line being
      read; `sizes` lists the chunk sizes read so far, for the proofs. */
  datatype Slot = Slot(status: Status, line: string, blocksize: int, totalsize: int, size: nat, body: string,
                       statuscode: int, stored: bool, sizes: seq<nat>)

  /** What surrounds the transfer: the size limits, memory, and -%B. */
  datatype World = World(tooBig: nat -> bool, inMemory: bool, allocates: nat -> bool, tolerant: bool)

  function Start(statuscode: int): Slot {
    Slot(ChunkWait, "", 0, -1, 0, "", statuscode, false, [])
  }

  // ---- lines ----

  predicate InTrailers(s: Slot) {
    s.status == ChunkCr && s.blocksize == -1
  }

  predicate InHeader(s: Slot) {
    s.status == ChunkWait || s.status == ChunkCr
  }

  /** The line reader drops every CR. */
  function Kept(line: string, c: char): string {
    if c == CR then line else line + [c]
  }

  function KeptAll(line: string, bytes: string): string
    decreases |bytes|
  {
    if bytes == "" then line else KeptAll(Kept(line, bytes[0]), bytes[1..])
  }

  /** A size or CRLF line closes on its LF, the trailer section on a blank line. */
  predicate Complete(line: string, trailers: bool) {
    && line != "" && line[|line| - 1] == LF
    && (trailers ==> |line| == 1 || line[|line| - 2] == LF)
  }

  predicate IsSpace(c: char) {
    c == ' ' || '\t' <= c <= '\r'
  }

  function SkipSpace(s: string): string {
    if s != "" && IsSpace(s[0]) then SkipSpace(s[1..]) else s
  }

  function CutAt(s: string, c: char): string {
    s[..Find(s, c)]
  }

  /** The line without its LF, leading blanks and extension. */
  function ChunkText(line: string): string
    requires line != ""
  {
    CutAt(CutAt(SkipSpace(CutAt(line[..|line| - 1], '\0')), ';'), ' ')
  }

  function HexDigit(c: char): (v: int)
    ensures -1 <= v < 16
  {
    if '0' <= c <= '9' then c as int - '0' as int
    else if 'a' <= c <= 'f' then c as int - 'a' as int + 10
    else if 'A' <= c <= 'F' then c as int - 'A' as int + 10
    else -1
  }

  predicate AllHex(s: string) {
    forall i :: 0 <= i < |s| ==> HexDigit(s[i]) >= 0
  }

  function HexValue(s: string): nat
    requires AllHex(s)
  {
    if s == "" then 0 else 16 * HexValue(s[..|s| - 1]) + HexDigit(s[|s| - 1])
  }

  function Unsigned(value: nat, minus: bool): nat {
    if value >= SIZE_MOD then SIZE_MOD - 1
    else if minus && value > 0 then SIZE_MOD - value else value
  }

  /** Past the 0x that may come before a digit. */
  function SkipPrefix(s: string): string {
    if |s| > 2 && s[0] == '0' && (s[1] == 'x' || s[1] == 'X') && HexDigit(s[2]) >= 0 then s[2..] else s
  }

  /** What strtoull(text, &end, 16) reads when it reads the whole text; a text it
      stops short of, or finds no digit in, is None. A sign and 0x are allowed. */
  function StrToUll(text: string): Option<nat> {
    var minus := text != "" && text[0] == '-';
    var rest := if text != "" && (text[0] == '-' || text[0] == '+') then text[1..] else text;
    var digits := SkipPrefix(rest);
    if digits != "" && AllHex(digits) then Some(Unsigned(HexValue(digits), minus)) else None
  }

  /** The size a chunk-size line declares; None is an illegal chunk. */
  function ChunkSize(text: string): Option<nat> {
    match StrToUll(text)
    case Some(v) => if v <= INT32_MAX then Some(v) else None
    case None => None
  }

  // ---- what back_finalize makes of the slot ----

  predicate Unterminated(s: Slot) {
    s.blocksize != -1
  }

  predicate ShortBody(s: Slot) {
    s.totalsize >= 0 && s.size != s.totalsize
  }

  /** back_finalize stores the transfer, unless it is cut, short or in error. */
  predicate FinalizeStores(w: World, s: Slot) {
    s.statuscode > 0 && (w.tolerant || !(ShortBody(s) || Unterminated(s)))
  }

  function Finalize(w: World, s: Slot): Slot {
    s.(status := Ready, line := "", stored := FinalizeStores(w, s))
  }

  /** An invalid chunk: finalized as it stands, then classed as an error. */
  function Invalid(w: World, s: Slot): Slot {
    Finalize(w, s).(statuscode := STATUSCODE_INVALID)
  }

  /** The end of the trailers. A body of the wrong length is then an error. */
  function Finished(w: World, s: Slot): Slot {
    var t := Finalize(w, s);
    if ShortBody(s) && !w.tolerant then t.(statuscode := STATUSCODE_INVALID) else t
  }

  // ---- one event ----

  /** A chunk-size line that declares n more bytes. */
  function TakeSize(w: World, s: Slot, n: nat): Slot
    requires s.totalsize >= 0
  {
    var total: nat := s.totalsize + n;
    var t := s.(blocksize := if n > 0 then n else -1, totalsize := total, sizes := s.sizes + [n], line := "");
    if w.tooBig(total) then Finalize(w, t.(statuscode := STATUSCODE_TOO_BIG))
    else if w.inMemory && (total >= INT32_MAX || !w.allocates(total)) then Invalid(w, t)
    else t.(status := if n > 0 then Transfer else ChunkCr)
  }

  /** What a size or CRLF line says, its text stripped. */
  function TakeText(w: World, s: Slot, text: string): Slot
    requires InHeader(s)
  {
    var t := s.(totalsize := if s.totalsize < 0 then 0 else s.totalsize, line := "");
    if s.status == ChunkWait then
      match ChunkSize(text)
      case Some(n) => TakeSize(w, t, n)
      case None => Invalid(w, t)
    else if text == "" then t.(status := ChunkWait)
    else Invalid(w, t)
  }

  /** A complete line, or the complete trailer section. */
  function TakeLine(w: World, s: Slot, line: string): Slot
    requires InHeader(s) && Complete(line, InTrailers(s))
  {
    if InTrailers(s) then Finished(w, s)
    else if |line| >= CHUNK_LINE_MAX then Invalid(w, s)
    else TakeText(w, s, ChunkText(line))
  }

  /** The connection ends, cleanly or with a read error. */
  function Cut(w: World, s: Slot, error: bool): Slot {
    if s.status == Ready then s
    else
      var t := if error then s.(statuscode := STATUSCODE_CONNERROR) else s;
      var u := Finalize(w, t);
      if u.statuscode > 0 && (Unterminated(u) || ShortBody(u)) && !w.tolerant
      then u.(statuscode := STATUSCODE_CONNERROR) else u
  }

  /** Body bytes, never more than the chunk still holds. */
  function TakeBody(s: Slot, bytes: string): Slot
    requires s.status == Transfer && s.size + |bytes| <= s.totalsize
  {
    var t := s.(body := s.body + bytes, size := s.size + |bytes|);
    if t.size == t.totalsize then t.(status := ChunkCr, line := "") else t
  }

  /** Does the slot's line buffer have room for another byte? */
  predicate LineRoom(s: Slot) {
    |s.line| < HTS_LINE_BLOCK_SIZE - 2
  }

  function TakeByte(w: World, s: Slot, c: char): Slot
    requires s.status == Transfer ==> s.size < s.totalsize
  {
    match s.status
    case Ready => s
    case Transfer => TakeBody(s, [c])
    case _ =>
      if !LineRoom(s) then Cut(w, s, true)
      else
        var line := Kept(s.line, c);
        if Complete(line, InTrailers(s)) then TakeLine(w, s, line) else s.(line := line)
  }

  // ---- what every state satisfies ----

  function Sum(sizes: seq<nat>): nat {
    if sizes == [] then 0 else Sum(sizes[..|sizes| - 1]) + sizes[|sizes| - 1]
  }

  predicate ZeroSeen(s: Slot) {
    s.sizes != [] && s.sizes[|s.sizes| - 1] == 0
  }

  ghost predicate SlotOk(s: Slot) {
    && s.size == |s.body|
    && (if s.sizes == [] then s.blocksize == 0 && -1 <= s.totalsize <= 0
        else s.totalsize == Sum(s.sizes) && s.blocksize == if ZeroSeen(s) then -1 else s.sizes[|s.sizes| - 1])
    && (forall i :: 0 <= i < |s.sizes| - 1 ==> s.sizes[i] > 0)
    && s.size <= (if s.totalsize < 0 then 0 else s.totalsize)
    && (s.status == Transfer ==> s.size < s.totalsize && !ZeroSeen(s))
    && (s.status == ChunkWait ==> s.size == Sum(s.sizes) && !ZeroSeen(s))
    && (s.status == ChunkCr ==> s.sizes != [] && s.size == s.totalsize)
    && (InHeader(s) ==> !Complete(s.line, InTrailers(s)))
    && (InHeader(s) && !InTrailers(s) ==> LF !in s.line)
    && (s.stored ==> s.status == Ready)
  }
}
