/** The slot of a chunked transfer and the code that updates it, read by read. */
module ChunkedLink {
  import opened Chunked
  import opened ChunkedLaws

  class Link {
    var status: Status
    var line: string
    var blocksize: int
    var totalsize: int
    var size: nat
    var body: string
    var statuscode: int
    var stored: bool
    ghost var sizes: seq<nat>

    ghost function State(): Slot
      reads this
    {
      Slot(status, line, blocksize, totalsize, size, body, statuscode, stored, sizes)
    }

    ghost predicate Valid()
      reads this
    {
      SlotOk(State())
    }

    /** The response headers said "chunked": start waiting for a size line. */
    constructor (code: int)
      ensures Valid() && State() == Start(code)
    {
      status, line, blocksize, totalsize := ChunkWait, "", 0, -1;
      size, body, statuscode, stored, sizes := 0, "", code, false, [];
    }

    /** http_xfread1 in a line mode: byte by byte, at most 256, up to an LF, or in
        the trailers up to a blank line. It fails once the buffer is full. */
    method ReadLines(input: string) returns (n: nat, failed: bool)
      requires input != "" && (status == ChunkWait || status == ChunkCr)
      requires !Complete(line, InTrailers(State()))
      requires !InTrailers(State()) ==> LF !in line
      modifies this`line
      ensures n <= |input| && line == KeptAll(old(line), input[..n])
      ensures forall k :: 0 <= k < n ==> |KeptAll(old(line), input[..k])| < HTS_LINE_BLOCK_SIZE - 2
      ensures forall k :: 0 < k < n ==> !Complete(KeptAll(old(line), input[..k]), old(InTrailers(State())))
      ensures !failed ==> n > 0
      ensures failed ==> |line| >= HTS_LINE_BLOCK_SIZE - 2 && !Complete(line, old(InTrailers(State()))) && n < |input|
    {
      var block := status == ChunkCr && blocksize == -1;
      var count, lf, beginning, more := 256, false, true, true;
      ghost var start := line;
      n, failed := 0, false;
      assert input[..0] == "";
      while more
        invariant n <= |input| && line == KeptAll(start, input[..n])
        invariant forall k :: 0 <= k < n ==> |KeptAll(start, input[..k])| < HTS_LINE_BLOCK_SIZE - 2
        invariant forall k :: 0 < k < n ==> !Complete(KeptAll(start, input[..k]), block)
        invariant more ==> !Complete(line, block) && count > 0 && !failed && n < |input|
        invariant !more && !failed ==> n > 0
        invariant failed ==> !more && |line| >= HTS_LINE_BLOCK_SIZE - 2 && !Complete(line, block) && n < |input|
        invariant beginning ==> line == start
        invariant !beginning ==> line != "" && (lf <==> line[|line| - 1] == LF)
        invariant beginning ==> !lf
        invariant more && !block ==> LF !in line
        decreases |input| - n, more
      {
        count := count - 1;
        if |line| < HTS_LINE_BLOCK_SIZE - 2 {
          var c := input[n];
          KeptSnoc(start, input, n);
          n := n + 1;
          if c == LF {
            if lf || beginning || !block {
              count := -1;
            }
            lf := true;
          }
          if c != CR {
            if c != LF {
              lf := false;
            }
            line := line + [c];
            beginning := false;
          }
          more := count > 0 && n < |input|;
        } else {
          failed, more := true, false;
        }
      }
    }

    // ---- what a line does ----

    /** back_finalize, as far as this transfer goes. */
    method FinalizeHere(w: World)
      modifies this
      ensures State() == Finalize(w, old(State()))
    {
      var short := totalsize >= 0 && size != totalsize;
      var unterminated := blocksize != -1;
      stored := statuscode > 0 && (w.tolerant || !(short || unterminated));
      status, line := Ready, "";
    }

    /** The end of the branch of back_wait that reads chunk lines: n is the size
        that lets the transfer go on, 0 at its end, or -1 for an error. */
    method Conclude(w: World, n: int, tooBig: bool)
      requires status == ChunkWait || status == ChunkCr
      modifies this
      ensures old(status) == ChunkCr && n > 0 ==> State() == old(State()).(status := ChunkWait, line := "")
      ensures old(status) == ChunkWait && n == 0 ==> State() == old(State()).(status := ChunkCr, line := "")
      ensures old(status) == ChunkWait && n > 0 ==> State() == old(State()).(status := Transfer, line := "")
      ensures old(status) == ChunkCr && n == 0 && !tooBig ==> State() == Finished(w, old(State()))
      ensures n < 0 && !tooBig ==> State() == Invalid(w, old(State()))
      ensures n < 0 && tooBig ==> State() == Finalize(w, old(State()))
    {
      if status == ChunkCr && n > 0 {
        status, line := ChunkWait, "";
      } else if status == ChunkWait && n == 0 {
        status, line := ChunkCr, "";
      } else if status == ChunkWait && n >= 0 {
        status, line := Transfer, "";
      } else {
        FinalizeHere(w);
        if tooBig {
          return;  // its socket is closed already
        }
        if n < 0 {
          statuscode := STATUSCODE_INVALID;
        } else if totalsize >= 0 && totalsize != size && !w.tolerant {
          statuscode := STATUSCODE_INVALID;
        }
      }
    }

    /** A chunk-size line. The size goes into the totals before the limits are
        asked. */
    method SizeHere(w: World, text: string)
      requires status == ChunkWait && totalsize >= 0
      modifies this
      ensures State() == match ChunkSize(text)
                         case Some(n) => TakeSize(w, old(State()).(line := ""), n)
                         case None => Invalid(w, old(State()))
    {
      var value := ChunkSize(text);
      var n: int := -1;
      var tooBig := false;
      if value.Some? {
        n, tooBig := CountSize(w, value.value);
      }
      Conclude(w, n, tooBig);
    }

    method CountSize(w: World, size: nat) returns (n: int, tooBig: bool)
      requires totalsize >= 0
      modifies this
      ensures var s := old(State());
              var total := s.totalsize + size;
              && tooBig == w.tooBig(total)
              && n == (if tooBig || (w.inMemory && (total >= INT32_MAX || !w.allocates(total))) then -1 else size)
              && State() == s.(blocksize := if size > 0 then size else -1, totalsize := total,
                               sizes := s.sizes + [size],
                               statuscode := if tooBig then STATUSCODE_TOO_BIG else s.statuscode)
    {
      n, tooBig := size, false;
      if n > 0 {
        blocksize := n;
      } else {
        blocksize := -1;
      }
      totalsize := totalsize + n;
      sizes := sizes + [n];
      if w.tooBig(totalsize) {
        statuscode := STATUSCODE_TOO_BIG;
        n, tooBig := -1, true;
      } else if w.inMemory && (totalsize >= INT32_MAX || !w.allocates(totalsize)) {
        n := -1;
      }
    }

    /** A size or CRLF line, stripped to its text. */
    method TextHere(w: World, text: string, ghost s: Slot)
      requires InHeader(s) && !InTrailers(s) && State().(line := s.line) == s
      modifies this
      ensures State() == TakeText(w, s, text)
    {
      if totalsize < 0 {
        totalsize := 0;
      }
      if status == ChunkWait {
        SizeHere(w, text);
      } else if text == "" {
        Conclude(w, if blocksize > 0 then blocksize else if blocksize == -1 then 0 else 1, false);
      } else {
        Conclude(w, -1, false);
      }
    }

    /** A complete line, or the blank line that ends the trailers; s is the slot
        before the line was read. */
    method LineHere(w: World, ghost s: Slot)
      requires InHeader(s) && State().(line := s.line) == s
      requires Complete(line, InTrailers(s))
      modifies this
      ensures State() == TakeLine(w, s, old(line))
    {
      if status == ChunkCr && blocksize == -1 {
        Conclude(w, 0, false);
      } else if |line| >= CHUNK_LINE_MAX {
        Conclude(w, -1, false);
      } else {
        TextHere(w, ChunkText(line), s);
      }
    }

    // ---- reads ----

    /** The connection ends or fails. */
    method End(w: World, error: bool)
      requires Valid() && status != Ready
      modifies this
      ensures Valid() && State() == Cut(w, old(State()), error)
    {
      CutOk(w, State(), error);
      if error {
        statuscode := STATUSCODE_CONNERROR;
      }
      FinalizeHere(w);
      var broken := blocksize != -1 || (totalsize >= 0 && totalsize != size);
      if statuscode > 0 && broken && !w.tolerant {
        statuscode := STATUSCODE_CONNERROR;
      }
    }

    /** A body read takes what the chunk still holds, or less. */
    method ReceiveBody(w: World, input: string, most: nat) returns (n: nat)
      requires Valid() && status == Transfer && input != "" && most > 0
      modifies this
      ensures Valid() && 0 < n <= |input| && State() == TakeAll(w, old(State()), input[..n])
    {
      ghost var s := State();
      n := totalsize - size;
      n := if most < n then most else n;
      n := if |input| < n then |input| else n;
      BodyInOneRead(w, s, input[..n]);
      body, size := body + input[..n], size + n;
      if size == totalsize {
        status, line := ChunkCr, "";
      }
    }

    /** After a read of n bytes of a line: it may be complete now. */
    method TakeLineIfDone(w: World, ghost input: string, ghost n: nat, ghost s: Slot)
      requires SlotOk(s) && InHeader(s) && n <= |input| && State() == s.(line := KeptAll(s.line, input[..n]))
      requires forall k :: 0 <= k < n ==> |KeptAll(s.line, input[..k])| < HTS_LINE_BLOCK_SIZE - 2
      requires forall k :: 0 < k < n ==> !Complete(KeptAll(s.line, input[..k]), InTrailers(s))
      requires n > 0
      modifies this
      ensures Valid() && State() == TakeAll(w, s, input[..n])
    {
      LinesInOneRead(w, s, input, n);
      var block := status == ChunkCr && blocksize == -1;
      var last := |line| > 0 && line[|line| - 1] == LF;
      if last && (!block || |line| == 1 || line[|line| - 2] == LF) {
        LineHere(w, s);
      }
    }

    /** A line read. The byte that finds the line buffer full is not taken. */
    method ReceiveLine(w: World, input: string) returns (n: nat)
      requires Valid() && InHeader(State()) && input != ""
      modifies this
      ensures Valid() && n <= |input| && (status != Ready ==> n > 0)
      ensures State() == TakeAll(w, old(State()), input[..n])
           || (status == Ready && n < |input| && State() == TakeAll(w, old(State()), input[..n + 1]))
    {
      ghost var s := State();
      var failed;
      n, failed := ReadLines(input);
      if failed {
        BufferFull(w, s, input, n);
        End(w, true);
      } else {
        TakeLineIfDone(w, input, n, s);
      }
    }

    /** One read of the slot: n bytes of what is at hand go in. However much a
        read takes, the slot ends as if its bytes had come one by one. */
    method Receive(w: World, input: string, most: nat) returns (n: nat)
      requires Valid() && status != Ready && input != "" && most > 0
      modifies this
      ensures Valid() && n <= |input| && (status != Ready ==> n > 0)
      ensures State() == TakeAll(w, old(State()), input[..n])
           || (status == Ready && n < |input| && State() == TakeAll(w, old(State()), input[..n + 1]))
    {
      if status == Transfer {
        n := ReceiveBody(w, input, most);
      } else {
        n := ReceiveLine(w, input);
      }
    }

    /** One read of a stream, of which m bytes are at hand. */
    method ReceivePart(w: World, input: string, n: nat, m: nat, most: nat, ghost s: Slot) returns (next: nat)
      requires Valid() && status != Ready && n < m <= |input| && most > 0
      requires Reached(w, s, input, n, State())
      modifies this
      ensures Valid() && n <= next <= m && (status != Ready ==> n < next)
      ensures Reached(w, s, input, next, State())
    {
      var k := Receive(w, input[n..m], most);
      Resumes(w, s, input, n, m, k, State());
      next := n + k;
    }

    /** A whole stream, read as back_wait reads it until the slot is done: at offset n
        `ready(n)` bytes are at hand and one read takes at most `most(n)` body bytes,
        whatever these are. The slot ends as if all bytes had come one by one. */
    method ReceiveAll(w: World, input: string, ready: nat -> nat, most: nat -> nat)
      requires Valid() && (forall n :: ready(n) > 0 && most(n) > 0)
      modifies this
      ensures Valid() && State() == TakeAll(w, old(State()), input)
    {
      ghost var s := State();
      var n := 0;
      assert input[..0] == "";
      while status != Ready && n < |input|
        invariant n <= |input| && Valid() && Reached(w, s, input, n, State())
        decreases |input| - n, if status == Ready then 0 else 1
      {
        var m := if ready(n) <= |input| - n then n + ready(n) else |input|;
        n := ReceivePart(w, input, n, m, most(n), s);
      }
      ReachedAll(w, s, input, n, State());
    }

    /** The slot after n bytes of the stream, or done somewhere in it. */
    static ghost predicate Reached(w: World, s: Slot, input: string, n: nat, t: Slot) {
      && SlotOk(s) && n <= |input|
      && (t == TakeAll(w, s, input[..n]) || (t.status == Ready && t == TakeAll(w, s, input)))
    }

    static lemma ReachedAll(w: World, s: Slot, input: string, n: nat, t: Slot)
      requires Reached(w, s, input, n, t) && (t.status == Ready || n == |input|)
      ensures t == TakeAll(w, s, input)
    {
      if n < |input| && t == TakeAll(w, s, input[..n]) {
        TakeConcat(w, s, input[..n], input[n..]);
        ReadyStays(w, t, input[n..]);
      }
      assert input[..n] + input[n..] == input && input[..|input|] == input;
    }

    /** One read of input[n..m] from the slot that input[..n] leads to. */
    static lemma Resumes(w: World, s: Slot, input: string, n: nat, m: nat, k: nat, t: Slot)
      requires SlotOk(s) && n <= m <= |input| && k <= m - n
      requires var u := TakeAll(w, s, input[..n]);
               || t == TakeAll(w, u, input[n..m][..k])
               || (t.status == Ready && k < m - n && t == TakeAll(w, u, input[n..m][..k + 1]))
      ensures Reached(w, s, input, n + k, t)
    {
      Joins(w, s, input, n, m, k);
      if k < m - n {
        Joins(w, s, input, n, m, k + 1);
        if t.status == Ready && t == TakeAll(w, s, input[..n + k + 1]) {
          ReachedAll(w, s, input, n + k + 1, t);
        }
      }
    }

    static lemma Joins(w: World, s: Slot, input: string, n: nat, m: nat, k: nat)
      requires SlotOk(s) && n <= m <= |input| && k <= m - n
      ensures TakeAll(w, TakeAll(w, s, input[..n]), input[n..m][..k]) == TakeAll(w, s, input[..n + k])
    {
      var part := input[n..m][..k];
      assert part == input[n..n + k];
      TakeConcat(w, s, input[..n], part);
      assert input[..n] + part == input[..n + k];
    }

    /** The read fails on the first byte that the line buffer has no room for. */
    static lemma BufferFull(w: World, s: Slot, input: string, n: nat)
      requires SlotOk(s) && InHeader(s) && n < |input|
      requires forall k :: 0 <= k < n ==> |KeptAll(s.line, input[..k])| < HTS_LINE_BLOCK_SIZE - 2
      requires forall k :: 0 < k < n ==> !Complete(KeptAll(s.line, input[..k]), InTrailers(s))
      requires var line := KeptAll(s.line, input[..n]);
               |line| >= HTS_LINE_BLOCK_SIZE - 2 && !Complete(line, InTrailers(s))
      ensures var line := KeptAll(s.line, input[..n]);
              TakeAll(w, s, input[..n + 1]) == Cut(w, s.(line := line), true) && SlotOk(s.(line := line))
    {
      var line := KeptAll(s.line, input[..n]);
      if n > 0 {
        LinesInOneRead(w, s, input, n);
      }
      assert input[..0] == "";
      TakeOne(w, s, input, n);
    }
  }
}
