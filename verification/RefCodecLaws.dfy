/** What a .ref record keeps: reading undoes writing up to the reader's
    normalisations, and no cut record is taken for a whole one. */
module RefCodecLaws {
  import opened Wrappers
  import opened Bytes
  import opened RefCodec

  // ---- reading what was written ----

  lemma TakeBack(s: seq<Byte>, tail: seq<Byte>)
    ensures Take(s + tail, |s|) == Some(Got(s, tail))
  {
    assert (s + tail)[..|s|] == s && (s + tail)[|s|..] == tail;
  }

  lemma UnsignedBack(v: nat, n: nat, tail: seq<Byte>)
    requires v < Power256(n)
    ensures GetUnsigned(LittleEndian(v, n) + tail, n) == Some(Got(v, tail))
  {
    TakeBack(LittleEndian(v, n), tail);
    LittleEndianBack(v, n);
  }

  lemma SignedBack(v: int, n: nat, tail: seq<Byte>)
    requires n > 0 && IsSigned(v, Power256(n)) && Power256(n) % 2 == 0
    ensures GetSigned(LittleEndian(ToUnsigned(v, Power256(n)), n) + tail, n) == Some(Got(v, tail))
  {
    TakeBack(LittleEndian(ToUnsigned(v, Power256(n)), n), tail);
    LittleEndianBack(ToUnsigned(v, Power256(n)), n);
  }

  lemma BytesBack(s: seq<Byte>, tail: seq<Byte>)
    requires |s| <= MAX_STR
    ensures GetBytes(PutStr(s) + tail) == Some(Got(s, tail))
  {
    Widths();
    assert PutStr(s) + tail == LittleEndian(|s|, 4) + (s + tail);
    UnsignedBack(|s|, 4, s + tail);
    TakeBack(s, tail);
  }

  /** What a field's buffer keeps of a value. */
  function Kept(k: Kind, v: Value): Value
    requires Holds(k, v)
  {
    if k.Str? then Text(Clipped(v.text, k.cap)) else v
  }

  lemma FieldBack(k: Kind, v: Value, tail: seq<Byte>)
    requires Holds(k, v) && FitsFrame(v)
    ensures GetField(k, PutField(k, v) + tail) == Some(Got(Kept(k, v), tail))
  {
    Widths();
    match k
    case Str(cap) =>
      BytesBack(v.text, tail);
      assert 0 !in Clipped(v.text, cap);
    case Llint => SignedBack(v.num, 8, tail);
    case _ => SignedBack(v.num, 4, tail);
  }

  ghost predicate AllKept(ks: seq<Kind>, vs: seq<Value>, got: seq<Value>)
    requires AllHold(ks, vs)
  {
    |got| == |vs| && forall i :: 0 <= i < |vs| ==> got[i] == Kept(ks[i], vs[i])
  }

  lemma {:induction false} FieldsBack(ks: seq<Kind>, vs: seq<Value>, tail: seq<Byte>)
    requires AllHold(ks, vs) && FirstFit(vs, |vs|)
    ensures var g := GetFields(ks, PutFields(ks, vs) + tail);
            g.Some? && g.value.rest == tail && AllKept(ks, vs, g.value.value)
  {
    if ks == [] {
      assert PutFields(ks, vs) + tail == tail;
    } else {
      var others := PutFields(ks[1..], vs[1..]);
      assert PutFields(ks, vs) + tail == PutField(ks[0], vs[0]) + (others + tail);
      FieldBack(ks[0], vs[0], others + tail);
      FieldsBack(ks[1..], vs[1..], tail);
    }
  }

  /** Is there memory to read s into? None is asked for no bytes. */
  predicate HasMemory(s: seq<Byte>, mem: nat -> bool) {
    s == [] || mem(|s| + 1)
  }

  lemma HeapBack(s: seq<Byte>, width: nat, max: nat, tail: seq<Byte>, mem: nat -> bool)
    requires |s| <= max
    requires (width == 4 && max < U32_MOD) || (width == 8 && max < U64_MOD)
    ensures GetHeapBytes(width, max, LittleEndian(|s|, width) + s + tail, mem)
         == if HasMemory(s, mem) then Some(Got(if s == [] then None else Some(s), tail)) else None
  {
    Widths();
    assert LittleEndian(|s|, width) + s + tail == LittleEndian(|s|, width) + (s + tail);
    UnsignedBack(|s|, width, s + tail);
    TakeBack(s, tail);
    if s == [] {
      assert s + tail == tail;
    }
  }

  /** The frame reads back around any list of fields that does, when there is memory
      for both buffers. */
  lemma FrameBack(ks: seq<Kind>, vs: seq<Value>, body: seq<Byte>, headers: seq<Byte>, tail: seq<Byte>, mem: nat -> bool)
    requires AllHold(ks, vs) && FirstFit(vs, |vs|)
    requires |body| <= MAX_BLOB && |headers| <= MAX_STR
    ensures var g := GetRaw(ks, Frame(PutFields(ks, vs), body, headers) + tail, mem);
            && (g.Some? <==> HasMemory(body, mem) && HasMemory(headers, mem))
            && (g.Some? ==> && g.value.rest == tail && AllKept(ks, vs, g.value.value.values)
                            && g.value.value.adr == (if body == [] then None else Some(body))
                            && g.value.value.headers == (if headers == [] then None else Some(headers)))
  {
    var afterFields := PutBlob(body) + (PutStr(headers) + tail);
    FrameOpens(PutFields(ks, vs), body, headers, tail);
    HeaderBack(ks, PutFields(ks, vs) + afterFields, mem);
    FieldsBack(ks, vs, afterFields);
    HeapBack(body, 8, MAX_BLOB, PutStr(headers) + tail, mem);
    HeapBack(headers, 4, MAX_STR, tail, mem);
  }

  lemma HeaderBack(ks: seq<Kind>, contents: seq<Byte>, mem: nat -> bool)
    ensures GetRaw(ks, MAGIC + (LittleEndian(VERSION, 4) + contents), mem) == GetContents(ks, contents, mem)
  {
    Widths();
    TakeBack(MAGIC, LittleEndian(VERSION, 4) + contents);
    UnsignedBack(VERSION, 4, contents);
  }

  lemma FrameOpens(fields: seq<Byte>, body: seq<Byte>, headers: seq<Byte>, tail: seq<Byte>)
    ensures Frame(fields, body, headers) + tail
         == MAGIC + (LittleEndian(VERSION, 4) + (fields + (PutBlob(body) + (PutStr(headers) + tail))))
  {
  }

  /** What a reader makes of a slot: strings clipped to their buffers, an unsafe
      location blanked, no body and no headers for empty ones. */
  function Normalised(r: Ref): Ref
    requires r.adr.Some? ==> r.size <= |r.adr.value|
  {
    r.(urlAdr := Clipped(r.urlAdr, URL_CAP), urlFil := Clipped(r.urlFil, URL_CAP), urlSav := Clipped(r.urlSav, URL_CAP),
       refererAdr := Clipped(r.refererAdr, URL_CAP), refererFil := Clipped(r.refererFil, URL_CAP),
       location := SafeLocation(Clipped(r.location, LOCATION_CAP)),
       msg := Clipped(r.msg, 80), contenttype := Clipped(r.contenttype, MIME_CAP),
       charset := Clipped(r.charset, MIME_CAP), contentencoding := Clipped(r.contentencoding, MIME_CAP),
       lastmodified := Clipped(r.lastmodified, 64), etag := Clipped(r.etag, 256), cdispo := Clipped(r.cdispo, 256),
       adr := if Body(r) == [] then None else Some(Body(r)),
       headers := if r.headers.GetOr([]) == [] then None else r.headers)
  }

  /** Reading a written record gives the slot back, normalised, for the whole range
      of every field, exactly when there is memory for its body and its headers; what
      follows the record is left alone. */
  lemma ReadsBack(r: Ref, tail: seq<Byte>, mem: nat -> bool)
    requires IsSlot(r) && Writable(r)
    ensures Decode(Encode(r) + tail, mem)
         == if HasMemory(Body(r), mem) && HasMemory(r.headers.GetOr([]), mem) then Some(Got(Normalised(r), tail))
            else None
  {
    var ks, vs := KINDS, Values(r);
    FrameBack(ks, vs, Body(r), r.headers.GetOr([]), tail, mem);
    var raw := GetRaw(ks, Encode(r) + tail, mem);
    if raw.Some? {
      KeptIsNormalised(r, raw.value.value);
    }
  }

  lemma KeptAt(r: Ref, got: seq<Value>, i: nat)
    requires IsSlot(r) && AllHold(KINDS, got) && AllKept(KINDS, Values(r), got) && i < 22
    ensures got[i] == Kept(KINDS[i], Values(r)[i])
  {
  }

  lemma KeptNames(r: Ref, got: seq<Value>)
    requires IsSlot(r) && AllHold(KINDS, got) && AllKept(KINDS, Values(r), got)
    ensures got[0].text == Clipped(r.urlAdr, URL_CAP) && got[1].text == Clipped(r.urlFil, URL_CAP)
    ensures got[2].text == Clipped(r.urlSav, URL_CAP) && got[3].text == Clipped(r.refererAdr, URL_CAP)
    ensures got[4].text == Clipped(r.refererFil, URL_CAP) && got[5].text == Clipped(r.location, LOCATION_CAP)
  {
    KeptAt(r, got, 0);
    KeptAt(r, got, 1);
    KeptAt(r, got, 2);
    KeptAt(r, got, 3);
    KeptAt(r, got, 4);
    KeptAt(r, got, 5);
  }

  lemma KeptNumbers(r: Ref, got: seq<Value>)
    requires IsSlot(r) && AllHold(KINDS, got) && AllKept(KINDS, Values(r), got)
    ensures got[6].num == r.statuscode && got[7].num == r.notmodified && got[8].num == r.compressed
    ensures got[9].num == r.empty && got[10].num == r.size && got[11].num == r.totalsize
    ensures got[12].num == r.crange && got[13].num == r.crangeStart && got[14].num == r.crangeEnd
  {
    forall i | 6 <= i < 15 ensures got[i] == Kept(KINDS[i], Values(r)[i]) {
    }
  }

  lemma KeptTexts(r: Ref, got: seq<Value>)
    requires IsSlot(r) && AllHold(KINDS, got) && AllKept(KINDS, Values(r), got)
    ensures got[15].text == Clipped(r.msg, 80) && got[16].text == Clipped(r.contenttype, MIME_CAP)
    ensures got[17].text == Clipped(r.charset, MIME_CAP) && got[18].text == Clipped(r.contentencoding, MIME_CAP)
    ensures got[19].text == Clipped(r.lastmodified, 64) && got[20].text == Clipped(r.etag, 256)
    ensures got[21].text == Clipped(r.cdispo, 256)
  {
    KeptAt(r, got, 15);
    KeptAt(r, got, 16);
    KeptAt(r, got, 17);
    KeptAt(r, got, 18);
    KeptAt(r, got, 19);
    KeptAt(r, got, 20);
    KeptAt(r, got, 21);
  }

  lemma KeptIsNormalised(r: Ref, raw: Raw)
    requires IsSlot(r) && AllHold(KINDS, raw.values) && AllKept(KINDS, Values(r), raw.values)
    requires raw.adr == if Body(r) == [] then None else Some(Body(r))
    requires raw.headers == if r.headers.GetOr([]) == [] then None else Some(r.headers.GetOr([]))
    ensures MakeRef(raw.values, raw.adr, raw.headers) == Normalised(r)
  {
    KeptNames(r, raw.values);
    KeptNumbers(r, raw.values);
    KeptTexts(r, raw.values);
  }

  /** A second round trip changes nothing more. */
  lemma NormalisedIsStable(r: Ref)
    requires r.adr.Some? ==> r.size <= |r.adr.value|
    ensures Normalised(Normalised(r)) == Normalised(r)
  {
    var n := Normalised(r);
    assert Body(n) == Body(r);
    assert !Contains([], [63, 62, 112, 111, 115, 116]);
  }

  // ---- cut records ----

  /** A reader that was satisfied is still satisfied when more bytes follow. */
  lemma TakeMore(data: seq<Byte>, n: nat, more: seq<Byte>)
    requires n <= |data|
    ensures Take(data + more, n) == Some(Got(data[..n], data[n..] + more))
  {
    assert (data + more)[..n] == data[..n] && (data + more)[n..] == data[n..] + more;
  }

  lemma FieldMore(k: Kind, data: seq<Byte>, more: seq<Byte>)
    requires GetField(k, data).Some?
    ensures GetField(k, data + more) == Some(Got(GetField(k, data).value.value, GetField(k, data).value.rest + more))
  {
    TakeMore(data, if k.Llint? then 8 else 4, more);
    if k.Str? {
      var g := GetUnsigned(data, 4).value;
      TakeMore(g.rest, g.value, more);
    }
  }

  lemma {:induction false} FieldsMore(ks: seq<Kind>, data: seq<Byte>, more: seq<Byte>)
    requires GetFields(ks, data).Some?
    ensures GetFields(ks, data + more)
         == Some(Got(GetFields(ks, data).value.value, GetFields(ks, data).value.rest + more))
  {
    if ks != [] {
      FieldMore(ks[0], data, more);
      FieldsMore(ks[1..], GetField(ks[0], data).value.rest, more);
    }
  }

  lemma HeapMore(width: nat, max: nat, data: seq<Byte>, mem: nat -> bool, more: seq<Byte>)
    requires GetHeapBytes(width, max, data, mem).Some?
    ensures var g := GetHeapBytes(width, max, data, mem).value;
            GetHeapBytes(width, max, data + more, mem) == Some(Got(g.value, g.rest + more))
  {
    TakeMore(data, width, more);
    var g := GetUnsigned(data, width).value;
    if g.value > 0 {
      TakeMore(g.rest, g.value, more);
    }
  }

  lemma ContentsMore(ks: seq<Kind>, data: seq<Byte>, mem: nat -> bool, more: seq<Byte>)
    requires GetContents(ks, data, mem).Some?
    ensures var g := GetContents(ks, data, mem).value;
            GetContents(ks, data + more, mem) == Some(Got(g.value, g.rest + more))
  {
    FieldsMore(ks, data, more);
    var fields := GetFields(ks, data).value;
    HeapMore(8, MAX_BLOB, fields.rest, mem, more);
    HeapMore(4, MAX_STR, GetHeapBytes(8, MAX_BLOB, fields.rest, mem).value.rest, mem, more);
  }

  lemma RawMore(ks: seq<Kind>, data: seq<Byte>, mem: nat -> bool, more: seq<Byte>)
    requires GetRaw(ks, data, mem).Some?
    ensures var g := GetRaw(ks, data, mem).value; GetRaw(ks, data + more, mem) == Some(Got(g.value, g.rest + more))
  {
    TakeMore(data, |MAGIC|, more);
    var magic := Take(data, |MAGIC|).value;
    TakeMore(magic.rest, 4, more);
    ContentsMore(ks, GetUnsigned(magic.rest, 4).value.rest, mem, more);
  }

  function Plenty(n: nat): bool {
    true
  }

  /** What little memory can read, plenty reads alike. */
  lemma MemoryOnlyRefuses(ks: seq<Kind>, data: seq<Byte>, mem: nat -> bool)
    requires GetRaw(ks, data, mem).Some?
    ensures GetRaw(ks, data, Plenty) == GetRaw(ks, data, mem)
  {
  }

  lemma CutFrame(ks: seq<Kind>, vs: seq<Value>, body: seq<Byte>, headers: seq<Byte>, n: nat, mem: nat -> bool)
    requires AllHold(ks, vs) && FirstFit(vs, |vs|)
    requires |body| <= MAX_BLOB && |headers| <= MAX_STR && n < |Frame(PutFields(ks, vs), body, headers)|
    ensures GetRaw(ks, Frame(PutFields(ks, vs), body, headers)[..n], mem) == None
  {
    var whole := Frame(PutFields(ks, vs), body, headers);
    FrameBack(ks, vs, body, headers, [], Plenty);
    assert whole + [] == whole;
    CutIsNone(ks, whole, n, mem);
  }

  lemma CutIsNone(ks: seq<Kind>, whole: seq<Byte>, n: nat, mem: nat -> bool)
    requires n < |whole| && GetRaw(ks, whole, Plenty).Some? && GetRaw(ks, whole, Plenty).value.rest == []
    ensures GetRaw(ks, whole[..n], mem) == None
  {
    assert whole[..n] + whole[n..] == whole;
    if GetRaw(ks, whole[..n], mem).Some? {
      MemoryOnlyRefuses(ks, whole[..n], mem);
      RawMore(ks, whole[..n], Plenty, whole[n..]);
    }
  }

  /** Every proper prefix of a written record is refused, whatever memory there is. */
  lemma CutIsRefused(r: Ref, n: nat, mem: nat -> bool)
    requires IsSlot(r) && Writable(r) && n < |Encode(r)|
    ensures Decode(Encode(r)[..n], mem) == None
  {
    var vs := Values(r);
    CutFrame(KINDS, vs, Body(r), r.headers.GetOr([]), n, mem);
  }

  // ---- one field more ----

  /** The bytes of the first n fields. */
  function PutFirst(ks: seq<Kind>, vs: seq<Value>, n: nat): seq<Byte>
    requires AllHold(ks, vs) && n <= |ks|
  {
    if n == 0 then [] else PutFirst(ks, vs, n - 1) + PutField(ks[n - 1], vs[n - 1])
  }

  lemma {:induction false} PutFirstThenRest(ks: seq<Kind>, vs: seq<Value>, n: nat)
    requires AllHold(ks, vs) && n <= |ks|
    ensures PutFirst(ks, vs, n) + PutFields(ks[n..], vs[n..]) == PutFields(ks, vs)
  {
    if n == 0 {
      assert ks[0..] == ks && vs[0..] == vs;
    } else {
      PutFirstThenRest(ks, vs, n - 1);
      assert ks[n - 1..][1..] == ks[n..] && vs[n - 1..][1..] == vs[n..];
    }
  }

  lemma PutFirstAll(ks: seq<Kind>, vs: seq<Value>)
    requires AllHold(ks, vs)
    ensures PutFirst(ks, vs, |ks|) == PutFields(ks, vs)
  {
    PutFirstThenRest(ks, vs, |ks|);
  }

  /** What the first n fields read as, with what they leave. */
  function GetFirst(ks: seq<Kind>, data: seq<Byte>, n: nat): Option<Got<seq<Value>>>
    requires n <= |ks|
  {
    if n == 0 then Some(Got([], data)) else
    match GetFirst(ks, data, n - 1)
    case None => None
    case Some(g) => GetOne(g.value, ks[n - 1], g.rest)
  }

  function GetOne(before: seq<Value>, k: Kind, data: seq<Byte>): Option<Got<seq<Value>>> {
    match GetField(k, data)
    case None => None
    case Some(last) => Some(Got(before + [last.value], last.rest))
  }

  function GetAfter(g: Option<Got<seq<Value>>>, ks: seq<Kind>): Option<Got<seq<Value>>> {
    if g == None then None else Prepend(g.value.value, GetFields(ks, g.value.rest))
  }

  lemma GetOneMore(before: seq<Value>, ks: seq<Kind>, data: seq<Byte>)
    requires ks != []
    ensures Prepend(before, GetFields(ks, data)) == GetAfter(GetOne(before, ks[0], data), ks[1..])
  {
    var first := GetField(ks[0], data);
    if first.Some? {
      var others := GetFields(ks[1..], first.value.rest);
      if others.Some? {
        assert before + ([first.value.value] + others.value.value) == before + [first.value.value] + others.value.value;
      }
    }
  }

  lemma {:induction false} GetFirstThenRest(ks: seq<Kind>, data: seq<Byte>, n: nat)
    requires n <= |ks|
    ensures GetFields(ks, data) == GetAfter(GetFirst(ks, data, n), ks[n..])
  {
    if n == 0 {
      assert ks[0..] == ks;
      GetAfterNothing(ks, data);
    } else {
      GetFirstThenRest(ks, data, n - 1);
      assert ks[n - 1..][1..] == ks[n..];
      var g := GetFirst(ks, data, n - 1);
      if g.Some? {
        GetOneMore(g.value.value, ks[n - 1..], g.value.rest);
      }
    }
  }

  lemma GetAfterNothing(ks: seq<Kind>, data: seq<Byte>)
    ensures GetAfter(Some(Got([], data)), ks) == GetFields(ks, data)
  {
    var g := GetFields(ks, data);
    if g.Some? {
      assert [] + g.value.value == g.value.value;
    }
  }

  lemma GetFirstAll(ks: seq<Kind>, data: seq<Byte>)
    ensures GetFirst(ks, data, |ks|) == GetFields(ks, data)
  {
    GetFirstThenRest(ks, data, |ks|);
    var g := GetFirst(ks, data, |ks|);
    if g.Some? {
      assert ks[|ks|..] == [] && GetFields([], g.value.rest) == Some(Got([], g.value.rest));
      assert g.value.value + [] == g.value.value;
    }
  }

  /** A field that fails fails the list. */
  lemma GetFirstFails(ks: seq<Kind>, data: seq<Byte>, n: nat)
    requires n <= |ks| && GetFirst(ks, data, n) == None
    ensures GetFields(ks, data) == None
  {
    GetFirstThenRest(ks, data, n);
  }

  /** The values are what the first fields of the data read as, up to the rest. */
  ghost predicate HasRead(ks: seq<Kind>, data: seq<Byte>, vs: seq<Value>, rest: seq<Byte>) {
    |vs| <= |ks| && GetFirst(ks, data, |vs|) == Some(Got(vs, rest))
  }

  /** If the fields read at all, field i reads as v. */
  ghost predicate Reads(ks: seq<Kind>, data: seq<Byte>, i: nat, v: Value) {
    match GetFields(ks, data)
    case None => true
    case Some(g) => i < |g.value| && g.value[i] == v
  }

  lemma NextField(ks: seq<Kind>, data: seq<Byte>, vs: seq<Value>, rest: seq<Byte>)
    requires HasRead(ks, data, vs, rest) && |vs| < |ks|
    ensures match GetField(ks[|vs|], rest)
            case None => GetFields(ks, data) == None
            case Some(g) => HasRead(ks, data, vs + [g.value], g.rest) && Reads(ks, data, |vs|, g.value)
  {
    var n := |vs| + 1;
    assert GetFirst(ks, data, n) == GetOne(vs, ks[|vs|], rest);
    if GetField(ks[|vs|], rest) == None {
      GetFirstFails(ks, data, n);
    } else {
      assert |vs + [GetField(ks[|vs|], rest).value.value]| == n;
      GetFirstThenRest(ks, data, n);
    }
  }

  // ---- locations ----

  /** Part is somewhere in s. */
  ghost predicate IsIn(s: seq<Byte>, part: seq<Byte>) {
    exists before, after :: s == before + part + after
  }

  lemma InAtStart(s: seq<Byte>, part: seq<Byte>)
    requires |part| <= |s| && s[..|part|] == part
    ensures IsIn(s, part)
  {
    assert s == [] + part + s[|part|..];
  }

  lemma InLater(s: seq<Byte>, part: seq<Byte>)
    requires s != [] && IsIn(s[1..], part)
    ensures IsIn(s, part)
  {
    var before, after :| s[1..] == before + part + after;
    assert s == ([s[0]] + before) + part + after;
  }

  lemma InStartsOrLater(s: seq<Byte>, part: seq<Byte>)
    requires IsIn(s, part)
    ensures |part| <= |s| && (s[..|part|] == part || (|part| < |s| && IsIn(s[1..], part)))
  {
    var before, after :| s == before + part + after;
    if before == [] {
      assert s[..|part|] == part;
    } else {
      assert s[1..] == before[1..] + part + after;
    }
  }

  lemma {:induction false} ContainsExactly(s: seq<Byte>, part: seq<Byte>)
    ensures Contains(s, part) <==> IsIn(s, part)
    decreases |s|
  {
    if |part| < |s| {
      ContainsExactly(s[1..], part);
    }
    if IsIn(s, part) {
      InStartsOrLater(s, part);
    }
    if |part| <= |s| {
      if s[..|part|] == part {
        InAtStart(s, part);
      } else if Contains(s, part) && |part| < |s| {
        InLater(s, part);
      }
    }
  }

  /** A location with ?>post anywhere in it is blanked, and no other. */
  lemma LocationExactly(location: seq<Byte>)
    ensures SafeLocation(location) == if IsIn(location, [0x3F, 0x3E, 0x70, 0x6F, 0x73, 0x74]) then [] else location
  {
    ContainsExactly(location, [0x3F, 0x3E, 0x70, 0x6F, 0x73, 0x74]);
  }

  /** A string longer than its buffer loses its end, and what is left fills the buffer but
      for the NUL. */
  lemma ClippedExactly(s: seq<Byte>, cap: nat)
    requires cap > 0
    ensures var t := Clipped(s, cap);
            t <= s && |t| < cap && (|s| < cap ==> t == s) && (|s| >= cap ==> |t| == cap - 1)
  {
  }
}
