/** What every chunked transfer keeps, that the way the reads split the stream
    does not matter, and that a well-formed body is decoded. */
module ChunkedLaws {
  import opened Chunked

  // ---- every event keeps the slot in order ----

  lemma SumSnoc(sizes: seq<nat>, n: nat)
    ensures Sum(sizes + [n]) == Sum(sizes) + n
  {
    assert (sizes + [n])[..|sizes|] == sizes;
  }

  lemma TakeSizeOk(w: World, s: Slot, n: nat)
    requires SlotOk(s) && s.totalsize >= 0 && s.status == ChunkWait
    ensures SlotOk(TakeSize(w, s, n))
  {
    SumSnoc(s.sizes, n);
    var sizes := s.sizes + [n];
    assert Sum(sizes) == s.size + n;
    assert forall i :: 0 <= i < |sizes| - 1 ==> sizes[i] > 0;
  }

  lemma TakeTextOk(w: World, s: Slot, text: string)
    requires SlotOk(s) && InHeader(s) && !InTrailers(s)
    ensures SlotOk(TakeText(w, s, text))
  {
    var t := s.(totalsize := if s.totalsize < 0 then 0 else s.totalsize, line := "");
    assert SlotOk(t);
    if s.status == ChunkWait {
      match ChunkSize(text)
      case Some(n) => TakeSizeOk(w, t, n);
      case None =>
    }
  }

  lemma TakeByteOk(w: World, s: Slot, c: char)
    requires SlotOk(s)
    ensures SlotOk(TakeByte(w, s, c))
  {
    if InHeader(s) && LineRoom(s) {
      var line := Kept(s.line, c);
      if Complete(line, InTrailers(s)) && !InTrailers(s) && |line| < CHUNK_LINE_MAX {
        TakeTextOk(w, s, ChunkText(line));
      }
    }
  }

  lemma CutOk(w: World, s: Slot, error: bool)
    requires SlotOk(s)
    ensures SlotOk(Cut(w, s, error))
  {
  }

  // ---- a stream, byte by byte ----

  ghost function TakeAll(w: World, s: Slot, bytes: string): (t: Slot)
    requires SlotOk(s)
    ensures SlotOk(t)
    decreases |bytes|
  {
    if bytes == "" then s
    else
      TakeByteOk(w, s, bytes[0]);
      TakeAll(w, TakeByte(w, s, bytes[0]), bytes[1..])
  }

  lemma {:induction false} TakeConcat(w: World, s: Slot, a: string, b: string)
    requires SlotOk(s)
    ensures TakeAll(w, s, a + b) == TakeAll(w, TakeAll(w, s, a), b)
    decreases |a|
  {
    if a == "" {
      assert a + b == b;
    } else {
      TakeByteOk(w, s, a[0]);
      assert (a + b)[1..] == a[1..] + b;
      TakeConcat(w, TakeByte(w, s, a[0]), a[1..], b);
    }
  }

  lemma {:induction false} ReadyStays(w: World, s: Slot, bytes: string)
    requires SlotOk(s) && s.status == Ready
    ensures TakeAll(w, s, bytes) == s
    decreases |bytes|
  {
    if bytes != "" {
      ReadyStays(w, s, bytes[1..]);
    }
  }

  /** A read of several body bytes is as many reads of one. */
  lemma {:induction false} BodyInOneRead(w: World, s: Slot, bytes: string)
    requires SlotOk(s) && s.status == Transfer && s.size + |bytes| <= s.totalsize && bytes != ""
    ensures TakeAll(w, s, bytes) == TakeBody(s, bytes)
    decreases |bytes|
  {
    TakeByteOk(w, s, bytes[0]);
    var t := TakeByte(w, s, bytes[0]);
    if |bytes| == 1 {
      assert bytes == [bytes[0]];
      assert bytes[1..] == "";
    } else {
      BodyInOneRead(w, t, bytes[1..]);
      assert t.body + bytes[1..] == s.body + bytes;
    }
  }

  lemma {:induction false} KeptSnoc(start: string, input: string, n: nat)
    requires n < |input|
    ensures KeptAll(start, input[..n + 1]) == Kept(KeptAll(start, input[..n]), input[n])
    decreases n
  {
    if n == 0 {
      assert input[..0] == "" && input[..1][1..] == "";
    } else {
      assert input[..n + 1][1..] == input[1..][..n] && input[..n][1..] == input[1..][..n - 1];
      KeptSnoc(Kept(start, input[0]), input[1..], n - 1);
    }
  }

  lemma TakeOne(w: World, s: Slot, bytes: string, n: nat)
    requires SlotOk(s) && n < |bytes|
    ensures TakeAll(w, s, bytes[..n + 1]) == TakeByte(w, TakeAll(w, s, bytes[..n]), bytes[n])
  {
    assert bytes[..n + 1] == bytes[..n] + [bytes[n]];
    TakeConcat(w, s, bytes[..n], [bytes[n]]);
    var t := TakeAll(w, s, bytes[..n]);
    TakeByteOk(w, t, bytes[n]);
    assert [bytes[n]][1..] == "";
    assert TakeAll(w, TakeByte(w, t, bytes[n]), "") == TakeByte(w, t, bytes[n]);
  }

  /** The bytes are kept, up to a line that is complete. */
  lemma {:induction false} LinesKept(w: World, s: Slot, bytes: string, n: nat)
    requires SlotOk(s) && InHeader(s) && n <= |bytes|
    requires forall k :: 0 <= k < n ==> |KeptAll(s.line, bytes[..k])| < HTS_LINE_BLOCK_SIZE - 2
    requires forall k :: 0 < k <= n ==> !Complete(KeptAll(s.line, bytes[..k]), InTrailers(s))
    ensures TakeAll(w, s, bytes[..n]) == s.(line := KeptAll(s.line, bytes[..n]))
  {
    if n == 0 {
      assert bytes[..0] == "";
    } else {
      LinesKept(w, s, bytes, n - 1);
      TakeOne(w, s, bytes, n - 1);
      KeptSnoc(s.line, bytes, n - 1);
    }
  }

  /** A read of header bytes that completes no line before its last byte is as
      many reads of one. */
  lemma LinesInOneRead(w: World, s: Slot, bytes: string, n: nat)
    requires SlotOk(s) && InHeader(s) && 0 < n <= |bytes|
    requires forall k :: 0 <= k < n ==> |KeptAll(s.line, bytes[..k])| < HTS_LINE_BLOCK_SIZE - 2
    requires forall k :: 0 < k < n ==> !Complete(KeptAll(s.line, bytes[..k]), InTrailers(s))
    ensures var line := KeptAll(s.line, bytes[..n]);
            TakeAll(w, s, bytes[..n])
            == if Complete(line, InTrailers(s)) then TakeLine(w, s, line) else s.(line := line)
  {
    LinesKept(w, s, bytes, n - 1);
    TakeOne(w, s, bytes, n - 1);
    KeptSnoc(s.line, bytes, n - 1);
    if n == 1 {
      assert bytes[..0] == "";
    }
    ForgetsLine(w, s, KeptAll(s.line, bytes[..n - 1]), bytes[n - 1]);
  }

  /** What a byte does when it closes a line depends on that line alone. */
  lemma ForgetsLine(w: World, s: Slot, before: string, c: char)
    requires InHeader(s) && |before| < HTS_LINE_BLOCK_SIZE - 2
    ensures var line := Kept(before, c);
            TakeByte(w, s.(line := before), c)
            == if Complete(line, InTrailers(s)) then TakeLine(w, s, line) else s.(line := line)
  {
  }

  // ---- what a stored transfer is ----

  predicate WholeIfStored(w: World, s: Slot) {
    s.stored && !w.tolerant ==> s.blocksize == -1 && s.size == s.totalsize
  }

  lemma {:induction false} StoredIsWhole(w: World, s: Slot, bytes: string)
    requires SlotOk(s) && WholeIfStored(w, s)
    ensures WholeIfStored(w, TakeAll(w, s, bytes))
    decreases |bytes|
  {
    if bytes != "" {
      TakeByteOk(w, s, bytes[0]);
      StoredStep(w, s, bytes[0]);
      StoredIsWhole(w, TakeByte(w, s, bytes[0]), bytes[1..]);
    }
  }

  lemma StoredStep(w: World, s: Slot, c: char)
    requires SlotOk(s) && WholeIfStored(w, s)
    ensures WholeIfStored(w, TakeByte(w, s, c))
  {
  }

  /** A crawl that tolerates nothing stores a transfer only when the zero-size
      chunk was read and the body holds every byte that the sizes announced. */
  lemma StoredTransfer(w: World, statuscode: int, bytes: string, error: bool)
    requires !w.tolerant
    ensures var t := Cut(w, TakeAll(w, Start(statuscode), bytes), error);
            t.stored ==> ZeroSeen(t) && t.size == |t.body| == Sum(t.sizes)
  {
    var s := TakeAll(w, Start(statuscode), bytes);
    StoredIsWhole(w, Start(statuscode), bytes);
    CutOk(w, s, error);
  }

  /** A stream cut before its zero-size chunk is refused, and caught again. */
  lemma CutIsRefused(w: World, statuscode: int, bytes: string, error: bool)
    requires !w.tolerant && statuscode > 0
    requires TakeAll(w, Start(statuscode), bytes).status != Ready
    requires !ZeroSeen(TakeAll(w, Start(statuscode), bytes))
    ensures var t := Cut(w, TakeAll(w, Start(statuscode), bytes), error);
            t.status == Ready && !t.stored && t.statuscode == STATUSCODE_CONNERROR
  {
    KeepsCode(w, Start(statuscode), bytes);
  }

  lemma {:induction false} KeepsCode(w: World, s: Slot, bytes: string)
    requires SlotOk(s)
    ensures TakeAll(w, s, bytes).status != Ready ==> TakeAll(w, s, bytes).statuscode == s.statuscode
    decreases |bytes|
  {
    if bytes != "" {
      TakeByteOk(w, s, bytes[0]);
      KeepsCode(w, TakeByte(w, s, bytes[0]), bytes[1..]);
      if TakeByte(w, s, bytes[0]).status == Ready {
        ReadyStays(w, TakeByte(w, s, bytes[0]), bytes[1..]);
      }
      CodeStep(w, s, bytes[0]);
    }
  }

  lemma CodeStep(w: World, s: Slot, c: char)
    requires SlotOk(s)
    ensures TakeByte(w, s, c).status != Ready ==> TakeByte(w, s, c).statuscode == s.statuscode
  {
  }

  /** A crawl that tolerates broken files stores what came of one, without an error. */
  lemma TolerantKeeps(w: World, statuscode: int, bytes: string)
    requires w.tolerant && statuscode > 0 && TakeAll(w, Start(statuscode), bytes).status != Ready
    ensures var s, t := TakeAll(w, Start(statuscode), bytes), Cut(w, TakeAll(w, Start(statuscode), bytes), false);
            t.status == Ready && t.stored && t.statuscode == statuscode && t.body == s.body
  {
    KeepsCode(w, Start(statuscode), bytes);
  }
}
