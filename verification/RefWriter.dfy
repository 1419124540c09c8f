/** The .ref record written to and read from a file, field by field. */
module RefWriter {
  import opened Wrappers
  import opened Bytes
  import opened RefCodec
  import RefCodecLaws

  // ---- writing ----

  /** A file open for writing. The disk has room for `room` more bytes; a write
      that does not fit leaves a part of its bytes and fails. */
  class Writer {
    var data: seq<Byte>
    var room: nat

    // the record being written: its fields, how many are out, what was there before
    ghost var kinds: seq<Kind>
    ghost var values: seq<Value>
    ghost var done: nat
    ghost var base: seq<Byte>
    ghost var budget: nat

    constructor (room: nat)
      ensures data == [] && this.room == room
    {
      data, this.room := [], room;
    }

    ghost predicate Trails()
      reads this
    {
      && done <= |kinds| && AllHold(kinds, values)
      && FirstFit(values, done)
      && IsTrail(base, RefCodecLaws.PutFirst(kinds, values, done), budget, data, room)
    }

    static ghost predicate IsTrail(base: seq<Byte>, written: seq<Byte>, budget: nat, data: seq<Byte>, room: nat) {
      data == base + written && room + |written| == budget
    }

    static lemma TrailGrows(base: seq<Byte>, written: seq<Byte>, budget: nat, data: seq<Byte>, room: nat,
                            bytes: seq<Byte>)
      requires IsTrail(base, written, budget, data, room) && |bytes| <= room
      ensures IsTrail(base, written + bytes, budget, data + bytes, room - |bytes|)
    {
    }

    /** Do the fields of the record fit, each in its frame and all on the disk? */
    ghost predicate CanWrite()
      requires AllHold(kinds, values)
      reads this`kinds, this`values, this`budget
    {
      FirstFit(values, |values|) && |PutFields(kinds, values)| <= budget
    }

    /** hts_fwrite_exact. */
    method Write(bytes: seq<Byte>) returns (ok: bool)
      modifies this`data, this`room
      ensures ok == (|bytes| <= old(room))
      ensures ok ==> data == old(data) + bytes && room == old(room) - |bytes|
    {
      ok := |bytes| <= room;
      var n := if ok then |bytes| else room;
      data, room := data + bytes[..n], room - n;
      assert ok ==> bytes[..n] == bytes;
    }

    /** Nothing is written for no bytes. */
    method WriteSome(bytes: seq<Byte>) returns (ok: bool)
      modifies this`data, this`room
      ensures ok == (|bytes| <= old(room))
      ensures ok ==> data == old(data) + bytes && room == old(room) - |bytes|
    {
      ok := true;
      if bytes != [] {
        ok := Write(bytes);
      }
    }

    method PutU32(v: nat) returns (ok: bool)
      requires v < U32_MOD
      modifies this`data, this`room
      ensures ok == (4 <= old(room))
      ensures ok ==> data == old(data) + LittleEndian(v, 4) && room == old(room) - 4
    {
      var b := [v % 0x100, v / 0x100 % 0x100, v / 0x1_0000 % 0x100, v / 0x100_0000 % 0x100];
      FourBytes(v);
      ok := Write(b);
    }

    method PutU64(v: nat) returns (ok: bool)
      requires v < U64_MOD
      modifies this`data, this`room
      ensures ok == (8 <= old(room))
      ensures ok ==> data == old(data) + LittleEndian(v, 8) && room == old(room) - 8
    {
      var b: seq<Byte>, high: nat := [], v;
      for i := 0 to 8
        invariant |b| == i && b + LittleEndian(high, 8 - i) == LittleEndian(v, 8)
      {
        var low := high % 256;
        b, high := b + [low], high / 256;
      }
      ok := Write(b);
    }

    method PutStr(s: seq<Byte>) returns (ok: bool)
      modifies this`data, this`room
      ensures ok == (|s| <= MAX_STR && 4 + |s| <= old(room))
      ensures ok ==> data == old(data) + RefCodec.PutStr(s) && room == old(room) - 4 - |s|
    {
      if |s| > MAX_STR {
        return false;
      }
      var size: nat := |s|;
      ok := PutU32(size);
      if ok {
        ok := WriteSome(s);
      }
    }

    method PutBlob(blob: seq<Byte>) returns (ok: bool)
      modifies this`data, this`room
      ensures ok == (|blob| <= MAX_BLOB && 8 + |blob| <= old(room))
      ensures ok ==> data == old(data) + RefCodec.PutBlob(blob) && room == old(room) - 8 - |blob|
    {
      if |blob| > MAX_BLOB {
        return false;
      }
      var size: nat := |blob|;
      ok := PutU64(size);
      if ok {
        ok := WriteSome(blob);
      }
    }

    // ---- one field of the record ----

    twostate lemma FieldDone()
      requires old(Trails()) && old(done) < |kinds| && done == old(done) + 1
      requires kinds == old(kinds) && values == old(values) && base == old(base) && budget == old(budget)
      requires FitsFrame(values[old(done)])
      requires var bytes := PutField(kinds[old(done)], values[old(done)]);
               data == old(data) + bytes && room == old(room) - |bytes|
      ensures Trails()
    {
      var n := old(done);
      TrailGrows(base, RefCodecLaws.PutFirst(kinds, values, n), budget, old(data), old(room),
                 PutField(kinds[n], values[n]));
    }

    lemma FieldFails()
      requires Trails() && done < |kinds|
      requires !FitsFrame(values[done]) || room < |PutField(kinds[done], values[done])|
      ensures !CanWrite()
    {
      if FitsFrame(values[done]) {
        RefCodecLaws.PutFirstThenRest(kinds, values, done + 1);
      }
    }

    method PutText(s: seq<Byte>) returns (ok: bool)
      requires Trails() && done < |kinds| && kinds[done].Str? && values[done] == Text(s)
      modifies this`data, this`room, this`done
      ensures ok ==> Trails() && done == old(done) + 1
      ensures !ok ==> !CanWrite()
    {
      if |s| > MAX_STR || room < 4 + |s| {
        FieldFails();
      }
      ok := PutStr(s);
      done := done + 1;
      if ok {
        FieldDone();
      }
    }

    /** ref_put_int: two's complement. */
    method PutInt(v: int) returns (ok: bool)
      requires Trails() && done < |kinds| && (kinds[done].Int? || kinds[done].Short?) && values[done] == Num(v)
      modifies this`data, this`room, this`done
      ensures ok ==> Trails() && done == old(done) + 1
      ensures !ok ==> !CanWrite()
    {
      if room < 4 {
        FieldFails();
      }
      ok := PutU32(if v < 0 then v + U32_MOD else v);
      done := done + 1;
      if ok {
        FieldDone();
      }
    }

    method PutLlint(v: int) returns (ok: bool)
      requires Trails() && done < |kinds| && kinds[done].Llint? && values[done] == Num(v)
      modifies this`data, this`room, this`done
      ensures ok ==> Trails() && done == old(done) + 1
      ensures !ok ==> !CanWrite()
    {
      if room < 8 {
        FieldFails();
      }
      ok := PutU64(if v < 0 then v + U64_MOD else v);
      done := done + 1;
      if ok {
        FieldDone();
      }
    }

    // ---- the record ----

    /** Field i of the record is this one. */
    ghost predicate Plans(i: nat, k: Kind, v: Value)
      reads this`kinds, this`values
    {
      i < |kinds| && i < |values| && kinds[i] == k && values[i] == v
    }

    ghost predicate PlansUrls(r: Ref)
      reads this`kinds, this`values
    {
      && Plans(0, Str(URL_CAP), Text(r.urlAdr)) && Plans(1, Str(URL_CAP), Text(r.urlFil))
      && Plans(2, Str(URL_CAP), Text(r.urlSav)) && Plans(3, Str(URL_CAP), Text(r.refererAdr))
      && Plans(4, Str(URL_CAP), Text(r.refererFil)) && Plans(5, Str(LOCATION_CAP), Text(r.location))
    }

    method PutUrls(r: Ref) returns (ok: bool)
      requires Trails() && done == 0
      requires PlansUrls(r)
      modifies this`data, this`room, this`done
      ensures ok ==> Trails() && done == 6
      ensures !ok ==> !CanWrite()
    {
      ok := PutText(r.urlAdr);
      if !ok { return; }
      ok := PutText(r.urlFil);
      if !ok { return; }
      ok := PutText(r.urlSav);
      if !ok { return; }
      ok := PutText(r.refererAdr);
      if !ok { return; }
      ok := PutText(r.refererFil);
      if !ok { return; }
      ok := PutText(r.location);
    }

    ghost predicate PlansNumbers(r: Ref)
      reads this`kinds, this`values
    {
      && Plans(6, Int, Num(r.statuscode)) && Plans(7, Short, Num(r.notmodified))
      && Plans(8, Short, Num(r.compressed)) && Plans(9, Short, Num(r.empty))
      && Plans(10, Llint, Num(r.size)) && Plans(11, Llint, Num(r.totalsize))
      && Plans(12, Llint, Num(r.crange)) && Plans(13, Llint, Num(r.crangeStart))
      && Plans(14, Llint, Num(r.crangeEnd))
    }

    method PutNumbers(r: Ref) returns (ok: bool)
      requires Trails() && done == 6
      requires PlansNumbers(r)
      modifies this`data, this`room, this`done
      ensures ok ==> Trails() && done == 15
      ensures !ok ==> !CanWrite()
    {
      ok := PutInt(r.statuscode);
      if !ok { return; }
      ok := PutInt(r.notmodified);
      if !ok { return; }
      ok := PutInt(r.compressed);
      if !ok { return; }
      ok := PutInt(r.empty);
      if !ok { return; }
      ok := PutLlint(r.size);
      if !ok { return; }
      ok := PutLlint(r.totalsize);
      if !ok { return; }
      ok := PutLlint(r.crange);
      if !ok { return; }
      ok := PutLlint(r.crangeStart);
      if !ok { return; }
      ok := PutLlint(r.crangeEnd);
    }

    ghost predicate PlansTexts(r: Ref)
      reads this`kinds, this`values
    {
      && Plans(15, Str(80), Text(r.msg)) && Plans(16, Str(MIME_CAP), Text(r.contenttype))
      && Plans(17, Str(MIME_CAP), Text(r.charset)) && Plans(18, Str(MIME_CAP), Text(r.contentencoding))
      && Plans(19, Str(64), Text(r.lastmodified)) && Plans(20, Str(256), Text(r.etag))
      && Plans(21, Str(256), Text(r.cdispo))
    }

    method PutTexts(r: Ref) returns (ok: bool)
      requires Trails() && done == 15
      requires PlansTexts(r)
      modifies this`data, this`room, this`done
      ensures ok ==> Trails() && done == 22
      ensures !ok ==> !CanWrite()
    {
      ok := PutText(r.msg);
      if !ok { return; }
      ok := PutText(r.contenttype);
      if !ok { return; }
      ok := PutText(r.charset);
      if !ok { return; }
      ok := PutText(r.contentencoding);
      if !ok { return; }
      ok := PutText(r.lastmodified);
      if !ok { return; }
      ok := PutText(r.etag);
      if !ok { return; }
      ok := PutText(r.cdispo);
    }

    ghost predicate PlansRecord(r: Ref)
      reads this`kinds, this`values
    {
      |kinds| == 22 && PlansUrls(r) && PlansNumbers(r) && PlansTexts(r)
    }

    lemma UrlsArePlanned(r: Ref)
      requires kinds == KINDS && values == Values(r)
      ensures PlansUrls(r)
    {
    }

    lemma NumbersArePlanned(r: Ref)
      requires kinds == KINDS && values == Values(r)
      ensures PlansNumbers(r)
    {
    }

    lemma TextsArePlanned(r: Ref)
      requires kinds == KINDS && values == Values(r)
      ensures PlansTexts(r)
    {
    }

    lemma RecordIsPlanned(r: Ref)
      requires kinds == KINDS && values == Values(r)
      ensures PlansRecord(r)
    {
      UrlsArePlanned(r);
      NumbersArePlanned(r);
      TextsArePlanned(r);
    }

    /** The string and number fields, in order. */
    method PutAll(r: Ref) returns (ok: bool)
      requires Trails() && done == 0 && PlansRecord(r)
      modifies this`data, this`room, this`done
      ensures ok == old(CanWrite())
      ensures ok ==> data == old(base) + PutFields(kinds, values) && room == budget - |PutFields(kinds, values)|
    {
      ok := PutUrls(r);
      if ok { ok := PutNumbers(r); }
      if ok { ok := PutTexts(r); }
      if ok {
        RefCodecLaws.PutFirstAll(kinds, values);
      }
    }

    method PutFrame(r: Ref, body: seq<Byte>, headers: seq<Byte>) returns (ok: bool)
      requires AllHold(kinds, values) && PlansRecord(r)
      modifies this`data, this`room, this`done, this`base, this`budget
      ensures var frame := Frame(PutFields(kinds, values), body, headers);
              && ok == (FirstFit(values, |values|) && |body| <= MAX_BLOB && |headers| <= MAX_STR
                     && |frame| <= old(room))
              && (ok ==> data == old(data) + frame)
    {
      ok := Write(MAGIC);
      if ok { ok := PutU32(VERSION); }
      done, base, budget := 0, data, room;
      if ok { ok := PutAll(r); }
      if ok { ok := PutBlob(body); }
      if ok { ok := PutStr(headers); }
      if ok {
        FrameIs(old(data), PutFields(kinds, values), body, headers);
      }
    }

    static lemma FrameIs(start: seq<Byte>, fields: seq<Byte>, body: seq<Byte>, headers: seq<Byte>)
      ensures start + MAGIC + LittleEndian(VERSION, 4) + fields + RefCodec.PutBlob(body) + RefCodec.PutStr(headers)
           == start + Frame(fields, body, headers)
    {
    }

    method PutRecord(r: Ref) returns (ok: bool)
      requires IsSlot(r)
      modifies this
      ensures ok == (Writable(r) && |Encode(r)| <= old(room))
      ensures ok ==> data == old(data) + Encode(r)
    {
      var body := if r.adr.Some? && r.size > 0 then r.adr.value[..r.size] else [];
      kinds, values := KINDS, Values(r);
      RecordIsPlanned(r);
      ok := PutFrame(r, body, r.headers.GetOr([]));
    }

    static lemma FourBytes(v: nat)
      requires v < U32_MOD
      ensures [v % 0x100, v / 0x100 % 0x100, v / 0x1_0000 % 0x100, v / 0x100_0000 % 0x100] == LittleEndian(v, 4)
    {
      var b := LittleEndian(v, 4);
      assert b[1..] == LittleEndian(v / 0x100, 3);
      assert b[1..][1..] == LittleEndian(v / 0x1_0000, 2);
      assert b[1..][1..][1..] == LittleEndian(v / 0x100_0000, 1);
      assert v / 0x100_0000 / 0x100 == 0;
    }
  }
}
