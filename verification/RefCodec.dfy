/** The .ref record a broken transfer resumes from: a magic, a version and a
    fixed list of fields, little-endian, each string or body behind its length. */
module RefCodec {
  import opened Wrappers
  import opened Bytes

  const MAGIC: seq<Byte> := [72, 84, 83, 82, 69, 70, 49, 10]  // "HTSREF1\n"
  const VERSION := 1
  const MAX_STR := 0x10_0000
  const MAX_BLOB := 0x4000_0000
  const URL_CAP := 2048
  const LOCATION_CAP := 2048
  const MIME_CAP := 128

  const U16_MOD: nat := 0x1_0000
  const U32_MOD: nat := 0x1_0000_0000
  const U64_MOD: nat := 0x1_0000_0000_0000_0000

  /** What a reference keeps of a slot. Strings are C strings, without their NUL. */
  datatype Ref = Ref(
    urlAdr: seq<Byte>, urlFil: seq<Byte>, urlSav: seq<Byte>, refererAdr: seq<Byte>, refererFil: seq<Byte>,
    location: seq<Byte>,
    statuscode: int, notmodified: int, compressed: int, empty: int,
    size: int, totalsize: int, crange: int, crangeStart: int, crangeEnd: int,
    msg: seq<Byte>, contenttype: seq<Byte>, charset: seq<Byte>, contentencoding: seq<Byte>,
    lastmodified: seq<Byte>, etag: seq<Byte>, cdispo: seq<Byte>,
    adr: Option<seq<Byte>>, headers: Option<seq<Byte>>)

  // ---- the fields before the body ----

  /** Is v a two's complement number of m values? */
  predicate IsSigned(v: int, m: nat) {
    -(m / 2) <= v < m / 2
  }

  /** How a field is written: a string read into a buffer of `cap` bytes, a C int,
      a short written as an int, or an LLint. */
  datatype Kind = Str(cap: nat) | Int | Short | Llint

  datatype Value = Text(text: seq<Byte>) | Num(num: int)

  const KINDS: seq<Kind> := [
    Str(URL_CAP), Str(URL_CAP), Str(URL_CAP), Str(URL_CAP), Str(URL_CAP), Str(LOCATION_CAP),
    Int, Short, Short, Short, Llint, Llint, Llint, Llint, Llint,
    Str(80), Str(MIME_CAP), Str(MIME_CAP), Str(MIME_CAP), Str(64), Str(256), Str(256)]

  function Values(r: Ref): seq<Value> {
    [Text(r.urlAdr), Text(r.urlFil), Text(r.urlSav), Text(r.refererAdr), Text(r.refererFil), Text(r.location),
     Num(r.statuscode), Num(r.notmodified), Num(r.compressed), Num(r.empty),
     Num(r.size), Num(r.totalsize), Num(r.crange), Num(r.crangeStart), Num(r.crangeEnd),
     Text(r.msg), Text(r.contenttype), Text(r.charset), Text(r.contentencoding),
     Text(r.lastmodified), Text(r.etag), Text(r.cdispo)]
  }

  /** Can a field of this kind hold the value? A string need not fit its buffer. */
  predicate Holds(k: Kind, v: Value) {
    match k
    case Str(cap) => v.Text? && cap > 0 && 0 !in v.text
    case Int => v.Num? && IsSigned(v.num, U32_MOD)
    case Short => v.Num? && IsSigned(v.num, U16_MOD)
    case Llint => v.Num? && IsSigned(v.num, U64_MOD)
  }

  ghost predicate AllHold(ks: seq<Kind>, vs: seq<Value>) {
    |ks| == |vs| && forall i :: 0 <= i < |ks| ==> Holds(ks[i], vs[i])
  }

  /** A C slot: its numbers have their widths, its strings end at their NUL, and a
      body buffer holds `size` bytes at least. */
  ghost predicate IsSlot(r: Ref) {
    && AllHold(KINDS, Values(r))
    && (r.headers.Some? ==> 0 !in r.headers.value)
    && (r.adr.Some? ==> r.size <= |r.adr.value|)
  }

  // ---- numbers ----

  function LittleEndian(v: nat, n: nat): (bytes: seq<Byte>)
    ensures |bytes| == n
  {
    if n == 0 then [] else [v % 256] + LittleEndian(v / 256, n - 1)
  }

  function FromLittleEndian(bytes: seq<Byte>): nat {
    if bytes == [] then 0 else bytes[0] + 256 * FromLittleEndian(bytes[1..])
  }

  function Power256(n: nat): nat {
    if n == 0 then 1 else 256 * Power256(n - 1)
  }

  lemma {:induction false} LittleEndianBack(v: nat, n: nat)
    requires v < Power256(n)
    ensures FromLittleEndian(LittleEndian(v, n)) == v
  {
    if n > 0 {
      LittleEndianBack(v / 256, n - 1);
      assert LittleEndian(v, n)[1..] == LittleEndian(v / 256, n - 1);
    }
  }

  lemma {:induction false} FromLittleEndianBound(bytes: seq<Byte>)
    ensures FromLittleEndian(bytes) < Power256(|bytes|)
  {
    if bytes != [] {
      FromLittleEndianBound(bytes[1..]);
    }
  }

  lemma Widths()
    ensures Power256(4) == U32_MOD && Power256(8) == U64_MOD
  {
    assert Power256(4) == U32_MOD;
    assert Power256(8) == 256 * (256 * (256 * (256 * Power256(4))));
  }

  /** A signed value cast to the unsigned type of the same width. */
  function ToUnsigned(v: int, m: nat): nat
    requires IsSigned(v, m) && m % 2 == 0
  {
    if v < 0 then v + m else v
  }

  /** The readers' cast back: u, or -(UMAX - u) - 1 above the signed maximum. */
  function ToSigned(u: nat, m: nat): (v: int)
    requires u < m && m % 2 == 0
    ensures IsSigned(v, m) && ToUnsigned(v, m) == u
  {
    if u <= m / 2 - 1 then u else -(m - 1 - u) - 1
  }

  // ---- one field ----

  function PutStr(s: seq<Byte>): seq<Byte> {
    LittleEndian(|s|, 4) + s
  }

  function PutField(k: Kind, v: Value): seq<Byte>
    requires Holds(k, v)
  {
    match k
    case Str(_) => PutStr(v.text)
    case Llint => LittleEndian(ToUnsigned(v.num, U64_MOD), 8)
    case _ => LittleEndian(ToUnsigned(v.num, U32_MOD), 4)
  }

  /** What a reader got, and what is left to read. */
  datatype Got<T> = Got(value: T, rest: seq<Byte>)

  function Take(data: seq<Byte>, n: nat): Option<Got<seq<Byte>>> {
    if n <= |data| then Some(Got(data[..n], data[n..])) else None
  }

  function GetUnsigned(data: seq<Byte>, n: nat): Option<Got<nat>> {
    match Take(data, n)
    case Some(g) => Some(Got(FromLittleEndian(g.value), g.rest))
    case None => None
  }

  function GetSigned(data: seq<Byte>, n: nat): Option<Got<int>> {
    match Take(data, n)
    case Some(g) =>
      FromLittleEndianBound(g.value);
      Pow256Even(n);
      if n == 0 then None else Some(Got(ToSigned(FromLittleEndian(g.value), Power256(n)), g.rest))
    case None => None
  }

  lemma Pow256Even(n: nat)
    ensures n > 0 ==> Power256(n) % 2 == 0
  {
  }

  /** The length in front of a string, and the string's bytes. */
  function GetBytes(data: seq<Byte>): Option<Got<seq<Byte>>> {
    match GetUnsigned(data, 4)
    case Some(g) => if g.value > MAX_STR then None else Take(g.rest, g.value)
    case None => None
  }

  /** The C string in a buffer: what comes before its first NUL. */
  function CString(s: seq<Byte>): (c: seq<Byte>)
    ensures 0 !in c && (0 !in s ==> c == s)
  {
    if s == [] || s[0] == 0 then [] else [s[0]] + CString(s[1..])
  }

  function Clipped(s: seq<Byte>, cap: nat): seq<Byte>
    requires cap > 0
  {
    if |s| < cap then s else s[..cap - 1]
  }

  /** A value outside its field's range is malformed. */
  predicate InKind(k: Kind, num: int) {
    k.Short? ==> IsSigned(num, U16_MOD)
  }

  function GetField(k: Kind, data: seq<Byte>): (g: Option<Got<Value>>)
    ensures g.Some? ==> Holds(k, g.value.value)
  {
    Widths();
    match k
    case Str(cap) => (
      match GetBytes(data)
      case Some(g) => if cap == 0 then None else Some(Got(Text(CString(Clipped(g.value, cap))), g.rest))
      case None => None)
    case Llint => (
      match GetSigned(data, 8)
      case Some(g) => Some(Got(Num(g.value), g.rest))
      case None => None)
    case _ =>
      match GetSigned(data, 4)
      case Some(g) => if InKind(k, g.value) then Some(Got(Num(g.value), g.rest)) else None
      case None => None
  }

  // ---- a list of fields ----

  function PutFields(ks: seq<Kind>, vs: seq<Value>): seq<Byte>
    requires AllHold(ks, vs)
  {
    if ks == [] then [] else PutField(ks[0], vs[0]) + PutFields(ks[1..], vs[1..])
  }

  /** Values read before, in front of what is read next. */
  function Prepend(vs: seq<Value>, g: Option<Got<seq<Value>>>): Option<Got<seq<Value>>> {
    if g == None then None else Some(Got(vs + g.value.value, g.value.rest))
  }

  function GetFields(ks: seq<Kind>, data: seq<Byte>): (g: Option<Got<seq<Value>>>)
    ensures g.Some? ==> AllHold(ks, g.value.value)
  {
    if ks == [] then Some(Got([], data)) else
    match GetField(ks[0], data)
    case None => None
    case Some(first) => Prepend([first.value], GetFields(ks[1..], first.rest))
  }

  // ---- the record ----

  predicate Contains(s: seq<Byte>, part: seq<Byte>) {
    |part| <= |s| && (s[..|part|] == part || Contains(s[1..], part))
  }

  /** hts_location_is_safe: no "?>post" in it. */
  predicate LocationIsSafe(location: seq<Byte>) {
    !Contains(location, [63, 62, 112, 111, 115, 116])
  }

  function SafeLocation(location: seq<Byte>): seq<Byte> {
    if LocationIsSafe(location) then location else []
  }

  /** The body bytes a record carries. */
  function Body(r: Ref): seq<Byte>
    requires r.adr.Some? ==> r.size <= |r.adr.value|
  {
    if r.adr.Some? && r.size > 0 then r.adr.value[..r.size] else []
  }

  /** Is the string short enough for the writer? */
  predicate FitsFrame(v: Value) {
    v.Text? ==> |v.text| <= MAX_STR
  }

  ghost predicate FirstFit(vs: seq<Value>, n: nat)
    requires n <= |vs|
  {
    forall i :: 0 <= i < n ==> FitsFrame(vs[i])
  }

  ghost predicate Writable(r: Ref)
    requires IsSlot(r)
  {
    FirstFit(Values(r), |Values(r)|) && |Body(r)| <= MAX_BLOB && |r.headers.GetOr([])| <= MAX_STR
  }

  function PutBlob(blob: seq<Byte>): seq<Byte> {
    LittleEndian(|blob|, 8) + blob
  }

  /** The frame around a list of fields, for any list. */
  function Frame(fields: seq<Byte>, body: seq<Byte>, headers: seq<Byte>): seq<Byte> {
    MAGIC + (LittleEndian(VERSION, 4) + (fields + (PutBlob(body) + PutStr(headers))))
  }

  function Encode(r: Ref): seq<Byte>
    requires IsSlot(r)
  {
    Frame(PutFields(KINDS, Values(r)), Body(r), r.headers.GetOr([]))
  }

  /** A length and a heap buffer of it, None for no bytes; `mem` says which
      allocations succeed. */
  function GetHeap(size: nat, max: nat, data: seq<Byte>, mem: nat -> bool): Option<Got<Option<seq<Byte>>>> {
    if size == 0 then Some(Got(None, data))
    else if size > max || !mem(size + 1) then None
    else match Take(data, size)
      case Some(g) => Some(Got(Some(g.value), g.rest))
      case None => None
  }

  function GetHeapBytes(width: nat, max: nat, data: seq<Byte>, mem: nat -> bool): Option<Got<Option<seq<Byte>>>> {
    match GetUnsigned(data, width)
    case Some(g) => GetHeap(g.value, max, g.rest, mem)
    case None => None
  }

  function MakeRef(vs: seq<Value>, adr: Option<seq<Byte>>, headers: Option<seq<Byte>>): Ref
    requires AllHold(KINDS, vs)
  {
    Ref(vs[0].text, vs[1].text, vs[2].text, vs[3].text, vs[4].text, SafeLocation(vs[5].text),
        vs[6].num, vs[7].num, vs[8].num, vs[9].num,
        if adr.Some? then |adr.value| else vs[10].num, vs[11].num, vs[12].num, vs[13].num, vs[14].num,
        vs[15].text, vs[16].text, vs[17].text, vs[18].text, vs[19].text, vs[20].text, vs[21].text, adr, headers)
  }

  /** What a record holds, before it is put into a slot. */
  datatype Raw = Raw(values: seq<Value>, adr: Option<seq<Byte>>, headers: Option<seq<Byte>>)

  function GetRaw(ks: seq<Kind>, data: seq<Byte>, mem: nat -> bool): (g: Option<Got<Raw>>)
    ensures g.Some? ==> AllHold(ks, g.value.value.values)
  {
    match Take(data, |MAGIC|)
    case None => None
    case Some(magic) =>
      if magic.value != MAGIC then None else
      match GetUnsigned(magic.rest, 4)
      case None => None
      case Some(version) => if version.value != VERSION then None else GetContents(ks, version.rest, mem)
  }

  function GetContents(ks: seq<Kind>, data: seq<Byte>, mem: nat -> bool): (g: Option<Got<Raw>>)
    ensures g.Some? ==> AllHold(ks, g.value.value.values)
  {
    match GetFields(ks, data)
    case None => None
    case Some(fields) =>
      match GetHeapBytes(8, MAX_BLOB, fields.rest, mem)
      case None => None
      case Some(adr) =>
        match GetHeapBytes(4, MAX_STR, adr.rest, mem)
        case None => None
        case Some(headers) => Some(Got(Raw(fields.value, adr.value, headers.value), headers.rest))
  }

  /** ref_get_record: None for what is malformed, cut, or too big for memory. What
      follows the record is not looked at. */
  function Decode(data: seq<Byte>, mem: nat -> bool): Option<Got<Ref>> {
    match GetRaw(KINDS, data, mem)
    case None => None
    case Some(g) => Some(Got(MakeRef(g.value.values, g.value.adr, g.value.headers), g.rest))
  }
}
