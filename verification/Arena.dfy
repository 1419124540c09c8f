/** The arena that command-line tokens live in: blocks are cut from chunks, keep
    their addresses, and go all together. */
module Arena {
  import opened Wrappers
  import opened Bytes

  const ALIGN := 8
  const HDR := 8  // the chunk header, a multiple of ALIGN
  const CHUNK_MIN := 32768
  const CHUNK_MAX := 16 * 1024 * 1024
  const SIZE_MAX := 0xFFFF_FFFF_FFFF_FFFF

  /** A chunk: a header at `base`, then `size` bytes. */
  datatype Chunk = Chunk(base: nat, size: nat)

  /** A block handed out, the chunk it is cut from, and for a string its bytes. */
  datatype Block = Block(at: nat, size: nat, align: nat, chunk: nat, text: Option<seq<Byte>>)

  predicate Apart(a: nat, n: nat, b: nat, m: nat) {
    a + n <= b || b + m <= a
  }

  predicate ChunksApart(c: Chunk, d: Chunk) {
    Apart(c.base, HDR + c.size, d.base, HDR + d.size)
  }

  predicate BlocksApart(b: Block, c: Block) {
    Apart(b.at, b.size, c.at, c.size)
  }

  /** Is b among the first `used` bytes of c? */
  predicate Inside(b: Block, c: Chunk, used: nat) {
    c.base + HDR <= b.at && b.at + b.size <= c.base + HDR + used
  }

  /** A C string at an address. */
  ghost predicate Holds(bytes: map<nat, Byte>, at: nat, text: seq<Byte>) {
    && (forall a :: at <= a < at + |text| ==> a in bytes && bytes[a] == text[a - at])
    && at + |text| in bytes && bytes[at + |text|] == 0
  }

  /** An arena in memory: its chunks, the newest last, and what was cut from them. */
  datatype State = State(chunks: seq<Chunk>, size: nat, used: nat, bytes: map<nat, Byte>, blocks: seq<Block>)

  ghost predicate ChunksOk(s: State) {
    && (if s.chunks == [] then s.size == s.used == 0 else s.used <= s.size == s.chunks[|s.chunks| - 1].size)
    && (forall i :: 0 <= i < |s.chunks| ==> s.chunks[i].base > 0 && s.chunks[i].base % ALIGN == 0)
    && forall i, j :: 0 <= i < j < |s.chunks| ==> ChunksApart(s.chunks[i], s.chunks[j])
  }

  /** A block is aligned, inside a live chunk, and for a string holds it. */
  ghost predicate BlockOk(s: State, b: Block) {
    && b.align > 0 && b.at % b.align == 0
    && b.chunk < |s.chunks|
    && Inside(b, s.chunks[b.chunk], if b.chunk == |s.chunks| - 1 then s.used else s.chunks[b.chunk].size)
    && (b.text.Some? ==> b.size == |b.text.value| + 1 && Holds(s.bytes, b.at, b.text.value))
  }

  ghost predicate BlocksOk(s: State) {
    && (forall k :: 0 <= k < |s.blocks| ==> BlockOk(s, s.blocks[k]))
    && forall k, l :: 0 <= k < l < |s.blocks| ==> BlocksApart(s.blocks[k], s.blocks[l])
  }

  ghost predicate Ok(s: State) {
    ChunksOk(s) && BlocksOk(s)
  }

  /** malloc gives memory that is aligned for any type and that nobody holds. */
  ghost predicate MallocOk(s: State, malloc: nat -> Option<nat>) {
    forall n :: malloc(n).Some? ==>
      && malloc(n).value > 0 && malloc(n).value % ALIGN == 0
      && forall i :: 0 <= i < |s.chunks| ==> Apart(malloc(n).value, n, s.chunks[i].base, HDR + s.chunks[i].size)
  }

  /** The size of the next chunk: the last one doubled, within bounds. It is the least
      that is no smaller than the need, the smallest chunk, and twice the last one or
      the largest. */
  function NextSize(size: nat, need: nat): (next: nat)
    ensures next >= need && next >= 0x8000 && (next >= 2 * size || next >= 0x100_0000)
    ensures next == need || next == 0x8000 || next == 2 * size || next == 0x100_0000
    ensures next > need && next > 0x8000 ==> next <= 2 * size && next <= 0x100_0000
  {
    var doubled := if size < CHUNK_MAX / 2 then size * 2 else CHUNK_MAX;
    var least := if doubled < CHUNK_MIN then CHUNK_MIN else doubled;
    if least < need then need else least
  }

  /** Can a chunk for `need` bytes be had? */
  predicate CanGrow(s: State, need: nat, malloc: nat -> Option<nat>) {
    NextSize(s.size, need) <= SIZE_MAX - HDR && malloc(HDR + NextSize(s.size, need)).Some?
  }

  /** What a block of this alignment leaves unused behind `used` bytes. */
  function Pad(used: nat, align: nat): nat
    requires align > 0
  {
    (align - used % align) % align
  }

  predicate IsAlign(align: nat) {
    align == 1 || align == 2 || align == 4 || align == 8
  }

  lemma PadAligns8(used: nat)
    ensures (used + (8 - used % 8) % 8) % 8 == 0
  {
  }

  lemma PadAligns4(used: nat)
    ensures (used + (4 - used % 4) % 4) % 4 == 0
  {
  }

  lemma PadAligns2(used: nat)
    ensures (used + (2 - used % 2) % 2) % 2 == 0
  {
  }

  lemma PadAligns(used: nat, align: nat)
    requires IsAlign(align)
    ensures (used + Pad(used, align)) % align == 0
  {
    PadAligns8(used);
    PadAligns4(used);
    PadAligns2(used);
  }

  /** Does the newest chunk have room? */
  predicate Fits(s: State, size: nat, align: nat)
    requires align > 0
  {
    s.chunks != [] && s.used + Pad(s.used, align) + size <= s.size
  }

  // ---- the steps keep every block ----

  lemma OldBlocksOk(s: State, t: State)
    requires Ok(s) && ChunksOk(t) && s.chunks <= t.chunks && s.blocks == t.blocks && s.bytes == t.bytes
    requires s.chunks == t.chunks ==> s.used <= t.used
    ensures BlocksOk(t)
  {
    forall k | 0 <= k < |t.blocks| ensures BlockOk(t, t.blocks[k]) {
      assert BlockOk(s, s.blocks[k]);
    }
  }

  lemma GrowOk(s: State, c: Chunk)
    requires Ok(s) && c.base > 0 && c.base % ALIGN == 0
    requires forall i :: 0 <= i < |s.chunks| ==> Apart(c.base, HDR + c.size, s.chunks[i].base, HDR + s.chunks[i].size)
    ensures Ok(s.(chunks := s.chunks + [c], size := c.size, used := 0))
  {
    OldBlocksOk(s, s.(chunks := s.chunks + [c], size := c.size, used := 0));
  }

  /** A block cut behind everything the newest chunk gave out is apart from all. */
  lemma CutIsApart(s: State, b: Block, k: nat)
    requires Ok(s) && s.chunks != [] && k < |s.blocks|
    requires var c := s.chunks[|s.chunks| - 1]; c.base + HDR + s.used <= b.at && b.at + b.size <= c.base + HDR + s.size
    ensures BlocksApart(s.blocks[k], b)
  {
    var last := |s.chunks| - 1;
    assert BlockOk(s, s.blocks[k]);
    if s.blocks[k].chunk < last {
      assert ChunksApart(s.chunks[s.blocks[k].chunk], s.chunks[last]);
    }
  }

  /** A block cut from the newest chunk, `pad` bytes behind the last one. */
  ghost function CutState(s: State, pad: nat, size: nat, align: nat): State
    requires s.chunks != []
  {
    s.(used := s.used + pad + size, blocks := s.blocks + [CutBlock(s, pad, size, align)])
  }

  ghost function CutBlock(s: State, pad: nat, size: nat, align: nat): Block
    requires s.chunks != []
  {
    Block(s.chunks[|s.chunks| - 1].base + HDR + s.used + pad, size, align, |s.chunks| - 1, None)
  }

  lemma CutBlockOk(s: State, t: State, pad: nat, size: nat, align: nat)
    requires ChunksOk(s) && s.chunks != [] && IsAlign(align)
    requires (s.used + pad) % align == 0 && s.used + pad + size <= s.size
    requires t.chunks == s.chunks && t.used == s.used + pad + size
    ensures BlockOk(t, CutBlock(s, pad, size, align))
  {
    AtIsAligned(s.chunks[|s.chunks| - 1].base, s.used + pad, align);
  }

  lemma CutOk(s: State, pad: nat, size: nat, align: nat)
    requires Ok(s) && s.chunks != [] && IsAlign(align)
    requires (s.used + pad) % align == 0 && s.used + pad + size <= s.size
    ensures Ok(CutState(s, pad, size, align))
  {
    var b := CutBlock(s, pad, size, align);
    var t := s.(used := s.used + pad + size);
    OldBlocksOk(s, t);
    CutBlockOk(s, t, pad, size, align);
    forall k | 0 <= k < |s.blocks| ensures BlocksApart(s.blocks[k], b) {
      CutIsApart(s, b, k);
    }
    AppendOk(t, b);
  }

  lemma AppendOk(t: State, b: Block)
    requires Ok(t) && BlockOk(t, b) && forall k :: 0 <= k < |t.blocks| ==> BlocksApart(t.blocks[k], b)
    ensures Ok(t.(blocks := t.blocks + [b]))
  {
    var u := t.(blocks := t.blocks + [b]);
    forall k | 0 <= k < |u.blocks| ensures BlockOk(u, u.blocks[k]) {
      assert k < |t.blocks| ==> BlockOk(t, t.blocks[k]);
    }
    forall k, l | 0 <= k < l < |u.blocks| ensures BlocksApart(u.blocks[k], u.blocks[l]) {
      assert l < |t.blocks| ==> BlocksApart(t.blocks[k], t.blocks[l]);
    }
  }

  lemma AtIsAligned(base: nat, offset: nat, align: nat)
    requires base % ALIGN == 0 && IsAlign(align) && offset % align == 0
    ensures (base + HDR + offset) % align == 0
  {
    if align == 8 {
      assert (base + 8 + offset) % 8 == 0;
    } else if align == 4 {
      assert base % 4 == 0;
      assert (base + 8 + offset) % 4 == 0;
    } else if align == 2 {
      assert base % 2 == 0;
      assert (base + 8 + offset) % 2 == 0;
    }
  }

  // ---- the code ----

  class Arena {
    var chunks: seq<Chunk>
    var size: nat
    var used: nat
    var bytes: map<nat, Byte>
    ghost var blocks: seq<Block>

    ghost function View(): State
      reads this
    {
      State(chunks, size, used, bytes, blocks)
    }

    ghost predicate Valid()
      reads this
    {
      Ok(View())
    }

    constructor ()
      ensures Valid() && View() == State([], 0, 0, map[], [])
    {
      chunks, size, used, bytes, blocks := [], 0, 0, map[], [];
    }

    /** hts_arena_grow_: the arena is unchanged when there is no memory. */
    method Grow(need: nat, malloc: nat -> Option<nat>) returns (ok: bool)
      requires Valid() && MallocOk(View(), malloc)
      modifies this`chunks, this`size, this`used
      ensures Valid() && ok == CanGrow(old(View()), need, malloc)
      ensures !ok ==> View() == old(View())
      ensures ok ==>
                var next := NextSize(old(size), need);
                && malloc(HDR + next).Some? && chunks == old(chunks) + [Chunk(malloc(HDR + next).value, next)]
                && size == next && used == 0 && need <= next
      ensures bytes == old(bytes) && blocks == old(blocks)
    {
      var next := if size < CHUNK_MAX / 2 then size * 2 else CHUNK_MAX;
      if next < CHUNK_MIN {
        next := CHUNK_MIN;
      }
      if next < need {
        next := need;
      }
      if next > SIZE_MAX - HDR {
        return false;
      }
      var chunk := malloc(HDR + next);
      if chunk == None {
        return false;
      }
      GrowOk(View(), Chunk(chunk.value, next));
      chunks := chunks + [Chunk(chunk.value, next)];
      size, used := next, 0;
      return true;
    }

    /** hts_arena_take_: a block of `bytes` bytes, or None when there is no memory. It
        fails only when the newest chunk is full and there is no memory for one
        more; every block handed out before keeps its address and its bytes. */
    method Take(want: nat, align: nat, malloc: nat -> Option<nat>) returns (at: Option<nat>)
      requires Valid() && IsAlign(align) && MallocOk(View(), malloc)
      modifies this`chunks, this`size, this`used, this`blocks
      ensures Valid()
      ensures at == None <==> !Fits(old(View()), want, align) && !CanGrow(old(View()), want, malloc)
      ensures at == None ==> View() == old(View())
      ensures Fits(old(View()), want, align) ==> chunks == old(chunks)
      ensures at.Some? && !Fits(old(View()), want, align) ==>
                var next := NextSize(old(size), want);
                malloc(HDR + next).Some? && chunks == old(chunks) + [Chunk(malloc(HDR + next).value, next)]
      ensures at.Some? ==> chunks != [] && blocks == old(blocks) + [Block(at.value, want, align, |chunks| - 1, None)]
    {
      at := None;
      if chunks != [] {
        PadAligns(used, align);
        var room := size - used;
        var pad := Pad(used, align);
        if pad <= room && want <= room - pad {
          var cut := Cut(pad, want, align);
          return Some(cut);
        }
      }
      at := TakeNew(want, align, malloc);
    }

    /** The first block of a fresh chunk, which begins aligned. */
    method TakeNew(want: nat, align: nat, malloc: nat -> Option<nat>) returns (at: Option<nat>)
      requires Valid() && IsAlign(align) && MallocOk(View(), malloc)
      modifies this`chunks, this`size, this`used, this`blocks
      ensures Valid()
      ensures at == None <==> !CanGrow(old(View()), want, malloc)
      ensures at == None ==> View() == old(View())
      ensures at.Some? ==>
                var next := NextSize(old(size), want);
                malloc(HDR + next).Some? && chunks == old(chunks) + [Chunk(malloc(HDR + next).value, next)]
      ensures at.Some? ==> blocks == old(blocks) + [Block(at.value, want, align, |chunks| - 1, None)]
    {
      at := None;
      var ok := Grow(want, malloc);
      if ok {
        assert 0 % align == 0;
        var cut := Cut(0, want, align);
        at := Some(cut);
      }
    }

    method Cut(pad: nat, want: nat, align: nat) returns (at: nat)
      requires Valid() && chunks != [] && IsAlign(align) && (used + pad) % align == 0 && used + pad + want <= size
      modifies this`used, this`blocks
      ensures Valid() && blocks == old(blocks) + [Block(at, want, align, |chunks| - 1, None)]
    {
      at := chunks[|chunks| - 1].base + HDR + used + pad;
      CutOk(View(), pad, want, align);
      ghost var now := CutState(View(), pad, want, align);
      used, blocks := used + pad + want, now.blocks;
      assert View() == now;
    }

    /** hts_arena_strdup: a copy of s that stays as it is. */
    method StrDup(s: seq<Byte>, malloc: nat -> Option<nat>) returns (at: Option<nat>)
      requires Valid() && MallocOk(View(), malloc)
      modifies this
      ensures Valid()
      ensures at == None <==> !Fits(old(View()), |s| + 1, 1) && !CanGrow(old(View()), |s| + 1, malloc)
      ensures at == None ==> View() == old(View())
      ensures at.Some? ==> chunks != [] && blocks == old(blocks) + [Block(at.value, |s| + 1, 1, |chunks| - 1, Some(s))]
    {
      at := Take(|s| + 1, 1, malloc);
      if at.Some? {
        ghost var before := View();
        bytes := Copy(bytes, at.value, s + [0]);
        StringOk(before, s, bytes);
        blocks := blocks[..|blocks| - 1] + [blocks[|blocks| - 1].(text := Some(s))];
      }
    }

    /** memcpy: nothing else changes. */
    static method Copy(bytes: map<nat, Byte>, at: nat, s: seq<Byte>) returns (out: map<nat, Byte>)
      ensures IsCopy(bytes, out, at, s)
    {
      out := bytes;
      for i := 0 to |s|
        invariant IsCopy(bytes, out, at, s[..i])
      {
        out := out[at + i := s[i]];
      }
      assert s[..|s|] == s;
    }

    /** hts_arena_free: every chunk is released once. */
    method Free() returns (released: seq<nat>)
      requires Valid()
      modifies this
      ensures Valid() && View() == State([], 0, 0, map[], [])
      ensures |released| == |old(chunks)| && forall i :: 0 <= i < |released| ==>
              released[i] == old(chunks)[|released| - 1 - i].base
      ensures forall i, j :: 0 <= i < j < |released| ==> released[i] != released[j]
    {
      released := [];
      var n := |chunks|;
      ghost var was := View();
      while n > 0
        invariant 0 <= n && View() == was && n + |released| == |chunks|
        invariant forall i :: 0 <= i < |released| ==> released[i] == chunks[|chunks| - 1 - i].base
      {
        n := n - 1;
        released := released + [chunks[n].base];
      }
      forall i, j | 0 <= i < j < |released| ensures released[i] != released[j] {
        assert ChunksApart(chunks[|chunks| - 1 - j], chunks[|chunks| - 1 - i]);
      }
      chunks, size, used, bytes, blocks := [], 0, 0, map[], [];
    }
  }

  ghost predicate IsCopy(was: map<nat, Byte>, now: map<nat, Byte>, at: nat, s: seq<Byte>) {
    && (forall a :: at <= a < at + |s| ==> a in now && now[a] == s[a - at])
    && forall a :: a in was && !(at <= a < at + |s|) ==> a in now && now[a] == was[a]
  }

  /** The bytes of a new string leave every other block as it was. */
  lemma StringOk(t: State, s: seq<Byte>, bytes: map<nat, Byte>)
    requires Ok(t) && t.blocks != []
    requires var b := t.blocks[|t.blocks| - 1];
             b.text == None && b.size == |s| + 1 && IsCopy(t.bytes, bytes, b.at, s + [0])
    ensures var b := t.blocks[|t.blocks| - 1];
            Ok(t.(bytes := bytes, blocks := t.blocks[..|t.blocks| - 1] + [b.(text := Some(s))]))
  {
    var last := |t.blocks| - 1;
    var b := t.blocks[last];
    var u := t.(bytes := bytes, blocks := t.blocks[..last] + [b.(text := Some(s))]);
    forall k | 0 <= k < |u.blocks| ensures BlockOk(u, u.blocks[k]) {
      assert BlockOk(t, t.blocks[k]);
      if k == last {
        StringHolds(t.bytes, bytes, b.at, s);
      } else if t.blocks[k].text.Some? {
        assert BlocksApart(t.blocks[k], b);
        StringStays(t.bytes, bytes, b.at, s + [0], t.blocks[k]);
      }
    }
    forall k, l | 0 <= k < l < |u.blocks| ensures BlocksApart(u.blocks[k], u.blocks[l]) {
      assert BlocksApart(t.blocks[k], t.blocks[l]);
    }
  }

  lemma StringHolds(was: map<nat, Byte>, now: map<nat, Byte>, at: nat, s: seq<Byte>)
    requires IsCopy(was, now, at, s + [0])
    ensures Holds(now, at, s)
  {
    var t := s + [0];
    assert t[|s|] == 0;
    assert at + |s| in now && now[at + |s|] == t[at + |s| - at];
  }

  lemma StringStays(was: map<nat, Byte>, now: map<nat, Byte>, at: nat, s: seq<Byte>, b: Block)
    requires IsCopy(was, now, at, s) && Apart(b.at, b.size, at, |s|)
    requires b.text.Some? && b.size == |b.text.value| + 1 && Holds(was, b.at, b.text.value)
    ensures Holds(now, b.at, b.text.value)
  {
  }
}
