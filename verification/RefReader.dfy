/** The .ref record read back from a file, field by field. */
module RefReader {
  import opened Wrappers
  import opened Bytes
  import opened RefCodec
  import RefCodecLaws

  class Reader {
    const data: seq<Byte>
    const mem: nat -> bool
    var pos: nat
    // the record being read: its fields, where they start, and those read so far
    ghost var kinds: seq<Kind>
    ghost var start: seq<Byte>
    ghost var values: seq<Value>

    constructor (data: seq<Byte>, mem: nat -> bool)
      ensures this.data == data && this.mem == mem && pos == 0 && Valid() && Rest() == data
    {
      this.data, this.mem, pos := data, mem, 0;
      kinds, start, values := [], [], [];
    }

    ghost predicate Valid()
      reads this`pos
    {
      pos <= |data|
    }

    ghost function Rest(): seq<Byte>
      requires Valid()
      reads this`pos
    {
      data[pos..]
    }

    // ---- the file ----

    /** hts_fread_exact. */
    method Read(n: nat) returns (ok: bool, bytes: seq<Byte>)
      requires Valid()
      modifies this`pos
      ensures Valid() && Take(old(Rest()), n) == if ok then Some(Got(bytes, Rest())) else None
    {
      ok := n <= |data| - pos;
      var next := if ok then pos + n else |data|;
      bytes := data[pos..next];
      if ok {
        assert data[pos..][..n] == bytes && data[pos..][n..] == data[next..];
      }
      pos := next;
    }

    method GetU32() returns (ok: bool, v: nat)
      requires Valid()
      modifies this`pos
      ensures Valid() && GetUnsigned(old(Rest()), 4) == if ok then Some(Got(v, Rest())) else None
      ensures v < U32_MOD
    {
      var b;
      ok, b := Read(4);
      v := 0;
      if ok {
        FourBytes(b);
        v := b[0] + 0x100 * (b[1] as int) + 0x1_0000 * (b[2] as int) + 0x100_0000 * (b[3] as int);
      }
    }

    static lemma FourBytes(b: seq<Byte>)
      requires |b| == 4
      ensures FromLittleEndian(b)
           == b[0] + 0x100 * (b[1] as int) + 0x1_0000 * (b[2] as int) + 0x100_0000 * (b[3] as int)
    {
      assert b[1..][1..] == b[2..] && b[2..][1..] == b[3..] && b[3..][1..] == [];
      assert FromLittleEndian(b[3..]) == b[3];
      assert FromLittleEndian(b[2..]) == b[2] + 0x100 * (b[3] as int);
      assert FromLittleEndian(b[1..]) == b[1] + 0x100 * FromLittleEndian(b[2..]);
    }

    method GetU64() returns (ok: bool, v: nat)
      requires Valid()
      modifies this`pos
      ensures Valid() && GetUnsigned(old(Rest()), 8) == if ok then Some(Got(v, Rest())) else None
      ensures v < U64_MOD
    {
      var b;
      ok, b := Read(8);
      v := 0;
      if ok {
        v := EightBytes(b);
      }
    }

    static method EightBytes(b: seq<Byte>) returns (v: nat)
      requires |b| == 8
      ensures v == FromLittleEndian(b) && v < U64_MOD
    {
      v := 0;
      var unit: nat := 1;
      assert b[..0] == [];
      for i := 0 to 8
        invariant unit == Power256(i) && v == FromLittleEndian(b[..i])
      {
        FromSnoc(b[..i], b[i]);
        assert b[..i + 1] == b[..i] + [b[i]];
        v, unit := v + b[i] * unit, 256 * unit;
      }
      assert b[..8] == b;
      FromLittleEndianBound(b);
      Widths();
    }

    static lemma {:induction false} FromSnoc(b: seq<Byte>, c: Byte)
      ensures FromLittleEndian(b + [c]) == FromLittleEndian(b) + c * Power256(|b|)
    {
      if b == [] {
        assert [c][1..] == [];
      } else {
        FromSnoc(b[1..], c);
        assert (b + [c])[1..] == b[1..] + [c];
      }
    }

    /** ref_get_int: two's complement, without a cast that C leaves open. */
    method GetInt() returns (ok: bool, v: int)
      requires Valid()
      modifies this`pos
      ensures Valid() && GetSigned(old(Rest()), 4) == if ok then Some(Got(v, Rest())) else None
    {
      var u;
      Widths();
      ok, u := GetU32();
      v := if u <= 0x7FFF_FFFF then u else -(0xFFFF_FFFF - u as int) - 1;
    }

    method GetLlint() returns (ok: bool, v: int)
      requires Valid()
      modifies this`pos
      ensures Valid() && GetSigned(old(Rest()), 8) == if ok then Some(Got(v, Rest())) else None
    {
      var u;
      Widths();
      ok, u := GetU64();
      v := if u <= 0x7FFF_FFFF_FFFF_FFFF then u else -(0xFFFF_FFFF_FFFF_FFFF - u as int) - 1;
    }

    /** ref_get_str: the part of a string that its buffer has room for. */
    method GetStr(cap: nat) returns (ok: bool, dst: seq<Byte>)
      requires Valid() && cap > 0
      modifies this`pos
      ensures Valid() && match GetBytes(old(Rest()))
                         case None => !ok
                         case Some(g) => ok && dst == Clipped(g.value, cap) && Rest() == g.rest
    {
      var len;
      dst := [];
      ok, len := GetU32();
      if !ok || len > MAX_STR {
        return false, dst;
      }
      ok, dst := GetPieces(len, cap);
    }

    /** Pieces of at most 1024 bytes, what does not fit the buffer dropped. */
    method GetPieces(all: nat, cap: nat) returns (ok: bool, dst: seq<Byte>)
      requires Valid() && cap > 0
      modifies this`pos
      ensures Valid() && match Take(old(Rest()), all)
                         case None => !ok
                         case Some(g) => ok && dst == Clipped(g.value, cap) && Rest() == g.rest
    {
      ok, dst := true, [];
      var len: nat := all;
      ghost var read: seq<Byte> := [];
      assert [] + Rest() == Rest();
      while len != 0
        invariant Valid() && ok && |read| + len == all
        invariant old(Rest()) == read + Rest() && dst == Clipped(read, cap)
      {
        var n: nat := if len < 1024 then len else 1024;
        var chunk;
        ghost var before := Rest();
        ok, chunk := Read(n);
        if !ok {
          return;
        }
        len := len - n;
        ClipMore(read, chunk, cap);
        assert old(Rest()) == read + chunk + Rest() by { Assoc(read, chunk, Rest(), before); }
        read := read + chunk;
        if |dst| < cap - 1 {
          var room := cap - 1 - |dst|;
          dst := dst + chunk[..if n < room then n else room];
        }
      }
      assert Take(old(Rest()), all) == Some(Got(read, Rest()));
    }

    static lemma Assoc(read: seq<Byte>, chunk: seq<Byte>, rest: seq<Byte>, before: seq<Byte>)
      requires Take(before, |chunk|) == Some(Got(chunk, rest))
      ensures read + before == read + chunk + rest
    {
    }

    static lemma ClipMore(read: seq<Byte>, chunk: seq<Byte>, cap: nat)
      requires cap > 0
      ensures Clipped(read + chunk, cap)
           == if |Clipped(read, cap)| < cap - 1
              then var room := cap - 1 - |Clipped(read, cap)|;
                    Clipped(read, cap) + chunk[..if |chunk| < room then |chunk| else room]
              else Clipped(read, cap)
    {
    }

    /** A heap buffer of the length read before it: ref_get_heapstr and ref_get_blob
        differ in the width of the length and in its cap. */
    method GetBuffer(size: nat, max: nat) returns (ok: bool, buf: Option<seq<Byte>>)
      requires Valid()
      modifies this`pos
      ensures Valid() && GetHeap(size, max, old(Rest()), mem) == if ok then Some(Got(buf, Rest())) else None
    {
      buf := None;
      if size == 0 {
        return true, None;
      }
      if size > max || !mem(size + 1) {
        return false, None;
      }
      var bytes;
      ok, bytes := Read(size);
      if ok {
        buf := Some(bytes);
      }
    }

    method GetHeapStr() returns (ok: bool, buf: Option<seq<Byte>>)
      requires Valid()
      modifies this`pos
      ensures Valid() && GetHeapBytes(4, MAX_STR, old(Rest()), mem) == if ok then Some(Got(buf, Rest())) else None
    {
      var size;
      buf := None;
      ok, size := GetU32();
      if ok {
        ok, buf := GetBuffer(size, MAX_STR);
      }
    }

    method GetBlob() returns (ok: bool, buf: Option<seq<Byte>>)
      requires Valid()
      modifies this`pos
      ensures Valid() && GetHeapBytes(8, MAX_BLOB, old(Rest()), mem) == if ok then Some(Got(buf, Rest())) else None
    {
      var size;
      buf := None;
      ok, size := GetU64();
      if ok {
        ok, buf := GetBuffer(size, MAX_BLOB);
      }
    }

    // ---- one field of the record ----

    ghost predicate Trails()
      reads this
    {
      Valid() && RefCodecLaws.HasRead(kinds, start, values, Rest())
    }

    ghost predicate Next(k: Kind)
      reads this
    {
      Trails() && |values| < |kinds| && kinds[|values|] == k
    }

    /** Field i of the record, if there is one, is v. */
    ghost predicate Holds(i: nat, v: Value)
      reads this`kinds, this`start
    {
      RefCodecLaws.Reads(kinds, start, i, v)
    }

    method Text(cap: nat) returns (ok: bool, s: seq<Byte>)
      requires Next(Str(cap)) && cap > 0
      modifies this`pos, this`values
      ensures Valid() && (ok ==> Trails() && |values| == |old(values)| + 1 && Holds(|old(values)|, RefCodec.Text(s)))
      ensures !ok ==> GetFields(kinds, start) == None
    {
      RefCodecLaws.NextField(kinds, start, values, Rest());
      ok, s := GetStr(cap);
      s := CString(s);
      if ok {
        values := values + [RefCodec.Text(s)];
      }
    }

    method Number() returns (ok: bool, v: int)
      requires Next(Int)
      modifies this`pos, this`values
      ensures Valid() && (ok ==> Trails() && |values| == |old(values)| + 1 && Holds(|old(values)|, Num(v)))
      ensures !ok ==> GetFields(kinds, start) == None
    {
      RefCodecLaws.NextField(kinds, start, values, Rest());
      ok, v := GetInt();
      if ok {
        values := values + [Num(v)];
      }
    }

    /** ref_get_short: out of range is malformed. */
    method ShortNumber() returns (ok: bool, v: int)
      requires Next(Short)
      modifies this`pos, this`values
      ensures Valid() && (ok ==> Trails() && |values| == |old(values)| + 1 && Holds(|old(values)|, Num(v)))
      ensures !ok ==> GetFields(kinds, start) == None
    {
      RefCodecLaws.NextField(kinds, start, values, Rest());
      ok, v := GetInt();
      ok := ok && -0x8000 <= v <= 0x7FFF;
      if ok {
        values := values + [Num(v)];
      }
    }

    method LongNumber() returns (ok: bool, v: int)
      requires Next(Llint)
      modifies this`pos, this`values
      ensures Valid() && (ok ==> Trails() && |values| == |old(values)| + 1 && Holds(|old(values)|, Num(v)))
      ensures !ok ==> GetFields(kinds, start) == None
    {
      RefCodecLaws.NextField(kinds, start, values, Rest());
      ok, v := GetLlint();
      if ok {
        values := values + [Num(v)];
      }
    }

    // ---- the record ----

    ghost predicate Expects(i: nat, k: Kind)
      reads this`kinds
    {
      i < |kinds| && kinds[i] == k
    }

    method GetUrls()
      returns (ok: bool, urlAdr: seq<Byte>, urlFil: seq<Byte>, urlSav: seq<Byte>)
      requires Trails() && |values| == 0
      requires Expects(0, Str(URL_CAP)) && Expects(1, Str(URL_CAP)) && Expects(2, Str(URL_CAP))
      modifies this`pos, this`values
      ensures Valid() && (ok ==> Trails() && |values| == 3)
      ensures ok ==> && Holds(0, RefCodec.Text(urlAdr)) && Holds(1, RefCodec.Text(urlFil))
                     && Holds(2, RefCodec.Text(urlSav))
      ensures !ok ==> GetFields(kinds, start) == None
    {
      urlAdr, urlFil, urlSav := [], [], [];
      ok, urlAdr := Text(URL_CAP);
      if !ok { return; }
      ok, urlFil := Text(URL_CAP);
      if !ok { return; }
      ok, urlSav := Text(URL_CAP);
    }

    method GetReferer()
      returns (ok: bool, refererAdr: seq<Byte>, refererFil: seq<Byte>, location: seq<Byte>)
      requires Trails() && |values| == 3
      requires Expects(3, Str(URL_CAP)) && Expects(4, Str(URL_CAP)) && Expects(5, Str(LOCATION_CAP))
      modifies this`pos, this`values
      ensures Valid() && (ok ==> Trails() && |values| == 6)
      ensures ok ==> && Holds(3, RefCodec.Text(refererAdr)) && Holds(4, RefCodec.Text(refererFil))
                     && Holds(5, RefCodec.Text(location))
      ensures !ok ==> GetFields(kinds, start) == None
    {
      refererAdr, refererFil, location := [], [], [];
      ok, refererAdr := Text(URL_CAP);
      if !ok { return; }
      ok, refererFil := Text(URL_CAP);
      if !ok { return; }
      ok, location := Text(LOCATION_CAP);
    }

    method GetNumbers()
      returns (ok: bool, statuscode: int, notmodified: int, compressed: int, empty: int)
      requires Trails() && |values| == 6
      requires Expects(6, Int) && Expects(7, Short) && Expects(8, Short)
      requires Expects(9, Short)
      modifies this`pos, this`values
      ensures Valid() && (ok ==> Trails() && |values| == 10)
      ensures ok ==> Holds(6, Num(statuscode)) && Holds(7, Num(notmodified)) && Holds(8, Num(compressed))
      ensures ok ==> Holds(9, Num(empty))
      ensures !ok ==> GetFields(kinds, start) == None
    {
      statuscode, notmodified, compressed, empty := 0, 0, 0, 0;
      ok, statuscode := Number();
      if !ok { return; }
      ok, notmodified := ShortNumber();
      if !ok { return; }
      ok, compressed := ShortNumber();
      if !ok { return; }
      ok, empty := ShortNumber();
    }

    method GetLongs()
      returns (ok: bool, size: int, totalsize: int, crange: int, crangeStart: int, crangeEnd: int)
      requires Trails() && |values| == 10
      requires Expects(10, Llint) && Expects(11, Llint) && Expects(12, Llint)
      requires Expects(13, Llint) && Expects(14, Llint)
      modifies this`pos, this`values
      ensures Valid() && (ok ==> Trails() && |values| == 15)
      ensures ok ==> Holds(10, Num(size)) && Holds(11, Num(totalsize)) && Holds(12, Num(crange))
      ensures ok ==> Holds(13, Num(crangeStart)) && Holds(14, Num(crangeEnd))
      ensures !ok ==> GetFields(kinds, start) == None
    {
      size, totalsize, crange, crangeStart, crangeEnd := 0, 0, 0, 0, 0;
      ok, size := LongNumber();
      if !ok { return; }
      ok, totalsize := LongNumber();
      if !ok { return; }
      ok, crange := LongNumber();
      if !ok { return; }
      ok, crangeStart := LongNumber();
      if !ok { return; }
      ok, crangeEnd := LongNumber();
    }

    method GetTypes()
      returns (ok: bool, msg: seq<Byte>, contenttype: seq<Byte>, charset: seq<Byte>, contentencoding: seq<Byte>)
      requires Trails() && |values| == 15
      requires Expects(15, Str(80)) && Expects(16, Str(MIME_CAP)) && Expects(17, Str(MIME_CAP))
      requires Expects(18, Str(MIME_CAP))
      modifies this`pos, this`values
      ensures Valid() && (ok ==> Trails() && |values| == 19)
      ensures ok ==> && Holds(15, RefCodec.Text(msg)) && Holds(16, RefCodec.Text(contenttype))
                     && Holds(17, RefCodec.Text(charset))
      ensures ok ==> Holds(18, RefCodec.Text(contentencoding))
      ensures !ok ==> GetFields(kinds, start) == None
    {
      msg, contenttype, charset, contentencoding := [], [], [], [];
      ok, msg := Text(80);
      if !ok { return; }
      ok, contenttype := Text(MIME_CAP);
      if !ok { return; }
      ok, charset := Text(MIME_CAP);
      if !ok { return; }
      ok, contentencoding := Text(MIME_CAP);
    }

    method GetTags()
      returns (ok: bool, lastmodified: seq<Byte>, etag: seq<Byte>, cdispo: seq<Byte>)
      requires Trails() && |values| == 19
      requires Expects(19, Str(64)) && Expects(20, Str(256)) && Expects(21, Str(256))
      modifies this`pos, this`values
      ensures Valid() && (ok ==> Trails() && |values| == 22)
      ensures ok ==> && Holds(19, RefCodec.Text(lastmodified)) && Holds(20, RefCodec.Text(etag))
                     && Holds(21, RefCodec.Text(cdispo))
      ensures !ok ==> GetFields(kinds, start) == None
    {
      lastmodified, etag, cdispo := [], [], [];
      ok, lastmodified := Text(64);
      if !ok { return; }
      ok, etag := Text(256);
      if !ok { return; }
      ok, cdispo := Text(256);
    }

    ghost predicate ExpectsRecord()
      reads this`kinds
    {
      && |kinds| == 22
      && Expects(0, Str(URL_CAP)) && Expects(1, Str(URL_CAP)) && Expects(2, Str(URL_CAP))
      && Expects(3, Str(URL_CAP)) && Expects(4, Str(URL_CAP)) && Expects(5, Str(LOCATION_CAP))
      && Expects(6, Int) && Expects(7, Short) && Expects(8, Short) && Expects(9, Short)
      && Expects(10, Llint) && Expects(11, Llint) && Expects(12, Llint) && Expects(13, Llint) && Expects(14, Llint)
      && Expects(15, Str(80)) && Expects(16, Str(MIME_CAP)) && Expects(17, Str(MIME_CAP))
      && Expects(18, Str(MIME_CAP)) && Expects(19, Str(64)) && Expects(20, Str(256)) && Expects(21, Str(256))
    }

    lemma RecordIsExpected()
      requires kinds == KINDS
      ensures ExpectsRecord()
    {
    }

    /** The fields of the record, read into a slot without body and headers. */
    method GetAll() returns (ok: bool, r: Ref)
      requires Trails() && values == [] && ExpectsRecord()
      modifies this`pos, this`values
      ensures Valid() && match GetFields(kinds, start)
                         case None => !ok
                         case Some(g) => ok && Rest() == g.rest && HoldsValues(r, g.value)
    {
      var urlAdr, urlFil, urlSav, refererAdr, refererFil, location;
      var statuscode, notmodified, compressed, empty, size, totalsize, crange, crangeStart, crangeEnd;
      var msg, contenttype, charset, contentencoding, lastmodified, etag, cdispo;
      r := Ref([], [], [], [], [], [], 0, 0, 0, 0, 0, 0, 0, 0, 0, [], [], [], [], [], [], [], None, None);
      ok, urlAdr, urlFil, urlSav := GetUrls();
      if !ok { return; }
      ok, refererAdr, refererFil, location := GetReferer();
      if !ok { return; }
      ok, statuscode, notmodified, compressed, empty := GetNumbers();
      if !ok { return; }
      ok, size, totalsize, crange, crangeStart, crangeEnd := GetLongs();
      if !ok { return; }
      ok, msg, contenttype, charset, contentencoding := GetTypes();
      if !ok { return; }
      ok, lastmodified, etag, cdispo := GetTags();
      if !ok { return; }
      r := Ref(urlAdr, urlFil, urlSav, refererAdr, refererFil, location,
               statuscode, notmodified, compressed, empty, size, totalsize, crange, crangeStart, crangeEnd,
               msg, contenttype, charset, contentencoding, lastmodified, etag, cdispo, None, None);
      AllRead(r);
    }

    ghost predicate HoldsAll(r: Ref)
      reads this`kinds, this`start
    {
      && Holds(0, RefCodec.Text(r.urlAdr)) && Holds(1, RefCodec.Text(r.urlFil)) && Holds(2, RefCodec.Text(r.urlSav))
      && Holds(3, RefCodec.Text(r.refererAdr)) && Holds(4, RefCodec.Text(r.refererFil))
      && Holds(5, RefCodec.Text(r.location)) && Holds(6, Num(r.statuscode)) && Holds(7, Num(r.notmodified))
      && Holds(8, Num(r.compressed)) && Holds(9, Num(r.empty)) && Holds(10, Num(r.size)) && Holds(11, Num(r.totalsize))
      && Holds(12, Num(r.crange)) && Holds(13, Num(r.crangeStart)) && Holds(14, Num(r.crangeEnd))
      && Holds(15, RefCodec.Text(r.msg)) && Holds(16, RefCodec.Text(r.contenttype))
      && Holds(17, RefCodec.Text(r.charset)) && Holds(18, RefCodec.Text(r.contentencoding))
      && Holds(19, RefCodec.Text(r.lastmodified)) && Holds(20, RefCodec.Text(r.etag))
      && Holds(21, RefCodec.Text(r.cdispo))
    }

    /** What was read is the whole list of fields. */
    lemma AllRead(r: Ref)
      requires Trails() && |kinds| == 22 && |values| == 22 && HoldsAll(r)
      ensures GetFields(kinds, start) == Some(Got(values, Rest())) && HoldsValues(r, values)
    {
      RefCodecLaws.GetFirstAll(kinds, start);
    }

    static ghost predicate HoldsValues(r: Ref, vs: seq<Value>)
      requires |vs| == 22
    {
      && vs[0] == RefCodec.Text(r.urlAdr) && vs[1] == RefCodec.Text(r.urlFil) && vs[2] == RefCodec.Text(r.urlSav)
      && vs[3] == RefCodec.Text(r.refererAdr) && vs[4] == RefCodec.Text(r.refererFil)
      && vs[5] == RefCodec.Text(r.location) && vs[6] == Num(r.statuscode) && vs[7] == Num(r.notmodified)
      && vs[8] == Num(r.compressed) && vs[9] == Num(r.empty) && vs[10] == Num(r.size) && vs[11] == Num(r.totalsize)
      && vs[12] == Num(r.crange) && vs[13] == Num(r.crangeStart) && vs[14] == Num(r.crangeEnd)
      && vs[15] == RefCodec.Text(r.msg) && vs[16] == RefCodec.Text(r.contenttype) && vs[17] == RefCodec.Text(r.charset)
      && vs[18] == RefCodec.Text(r.contentencoding) && vs[19] == RefCodec.Text(r.lastmodified)
      && vs[20] == RefCodec.Text(r.etag) && vs[21] == RefCodec.Text(r.cdispo)
    }

    method GetFieldList() returns (ok: bool, r: Ref)
      requires Valid()
      modifies this
      ensures Valid() && match GetFields(KINDS, old(Rest()))
                         case None => !ok
                         case Some(g) => ok && Rest() == g.rest && HoldsValues(r, g.value)
    {
      kinds, start, values := KINDS, Rest(), [];
      RecordIsExpected();
      ok, r := GetAll();
    }

    /** ref_get_record. The body and the headers go into the slot as they come, so a
        slot is filled only when all of it was read. */
    method GetRecord() returns (ok: bool, r: Ref)
      requires Valid()
      modifies this
      ensures Valid() && Decode(old(Rest()), mem) == if ok then Some(Got(r, Rest())) else None
    {
      var magic, version;
      r := Ref([], [], [], [], [], [], 0, 0, 0, 0, 0, 0, 0, 0, 0, [], [], [], [], [], [], [], None, None);
      ok, magic := Read(|MAGIC|);
      if !ok || magic != MAGIC {
        return false, r;
      }
      ok, version := GetU32();
      if !ok || version != VERSION {
        return false, r;
      }
      ok, r := GetContents();
    }

    method GetContents() returns (ok: bool, r: Ref)
      requires Valid()
      modifies this
      ensures Valid() && match RefCodec.GetContents(KINDS, old(Rest()), mem)
                         case None => !ok
                         case Some(g) =>
                           ok && r == MakeRef(g.value.values, g.value.adr, g.value.headers) && Rest() == g.rest
    {
      var adr, headers;
      ok, r := GetFieldList();
      if !ok {
        return;
      }
      if !LocationIsSafe(r.location) {
        r := r.(location := []);
      }
      ok, adr := GetBlob();
      if !ok {
        return;
      }
      ok, headers := GetHeapStr();
      if ok {
        r := r.(adr := adr, headers := headers);
        if adr.Some? {
          r := r.(size := |adr.value|);
        }
      }
    }
  }
}
