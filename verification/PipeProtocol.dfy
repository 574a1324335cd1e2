/** Pipe reads and writes as lock sections of interleaved calls (src/fs/pipe.rs): the copy
    loops of one section over the ring, and what every interleaving of sections keeps. */
module PipeProtocol {
  import opened PipeRing

  // ----- scattered user buffers -----

  /** The first n buffers, one after the other. */
  function FlatTo(buffers: seq<Bytes>, n: nat): Bytes
    requires n <= |buffers|
  {
    if n == 0 then [] else FlatTo(buffers, n - 1) + buffers[n - 1]
  }

  function Flat(buffers: seq<Bytes>): Bytes {
    FlatTo(buffers, |buffers|)
  }

  function LenTo(buffers: seq<Bytes>, n: nat): nat
    requires n <= |buffers|
  {
    if n == 0 then 0 else LenTo(buffers, n - 1) + |buffers[n - 1]|
  }

  function TotalLen(buffers: seq<Bytes>): nat {
    LenTo(buffers, |buffers|)
  }

  /** The position in the flattened buffers that a cursor (index, offset) denotes. */
  function CursorPos(buffers: seq<Bytes>, index: nat, offset: nat): nat
    requires index <= |buffers|
  {
    LenTo(buffers, index) + offset
  }

  predicate ValidCursor(buffers: seq<Bytes>, index: nat, offset: nat) {
    index <= |buffers| && (index < |buffers| ==> offset <= |buffers[index]|) && (index == |buffers| ==> offset == 0)
  }

  lemma {:induction false} FlatLen(buffers: seq<Bytes>, n: nat)
    requires n <= |buffers|
    ensures |FlatTo(buffers, n)| == LenTo(buffers, n)
  {
    if n > 0 {
      FlatLen(buffers, n - 1);
    }
  }

  lemma {:induction false} FlatPrefix(buffers: seq<Bytes>, m: nat, n: nat)
    requires m <= n <= |buffers|
    ensures FlatTo(buffers, m) <= FlatTo(buffers, n)
    decreases n
  {
    if m < n {
      FlatPrefix(buffers, m, n - 1);
    }
  }

  /** The flattened bytes at a cursor are the bytes of its buffer from its offset on. */
  lemma CursorBytes(buffers: seq<Bytes>, index: nat, offset: nat, n: nat)
    requires index < |buffers| && offset + n <= |buffers[index]|
    ensures CursorPos(buffers, index, offset) + n <= |Flat(buffers)|
    ensures Flat(buffers)[CursorPos(buffers, index, offset)..CursorPos(buffers, index, offset) + n]
         == buffers[index][offset..offset + n]
  {
    FlatLen(buffers, index);
    FlatLen(buffers, index + 1);
    FlatPrefix(buffers, index + 1, |buffers|);
    PrefixSlice(FlatTo(buffers, index), buffers[index], Flat(buffers), offset, n);
  }

  lemma PrefixSlice(a: Bytes, b: Bytes, flat: Bytes, offset: nat, n: nat)
    requires a + b <= flat && offset + n <= |b|
    ensures flat[|a| + offset..|a| + offset + n] == b[offset..offset + n]
  {
    assert flat[..|a| + |b|] == a + b;
    assert flat[|a| + offset..|a| + offset + n] == (a + b)[|a| + offset..|a| + offset + n];
  }

  /** q2 is q1 with the flattened bytes [lo, hi) appended. */
  ghost predicate Appended(q1: Bytes, q2: Bytes, buffers: seq<Bytes>, lo: nat, hi: nat) {
    lo <= hi <= |Flat(buffers)| && q2 == q1 + Flat(buffers)[lo..hi]
  }

  lemma AppendedNothing(q: Bytes, buffers: seq<Bytes>, lo: nat)
    requires lo <= |Flat(buffers)|
    ensures Appended(q, q, buffers, lo, lo)
  {
  }

  lemma AppendedTwice(q: Bytes, q1: Bytes, q2: Bytes, buffers: seq<Bytes>, lo: nat, mid: nat, hi: nat)
    requires Appended(q, q1, buffers, lo, mid) && Appended(q1, q2, buffers, mid, hi)
    ensures Appended(q, q2, buffers, lo, hi)
  {
  }

  /** collect_user_buffer_tail: the next len bytes after the cursor. */
  method CollectTail(buffers: seq<Bytes>, index0: nat, offset0: nat, len: nat) returns (data: Bytes)
    requires ValidCursor(buffers, index0, offset0) && CursorPos(buffers, index0, offset0) + len <= |Flat(buffers)|
    ensures data == Flat(buffers)[CursorPos(buffers, index0, offset0)..CursorPos(buffers, index0, offset0) + len]
  {
    ghost var pos := CursorPos(buffers, index0, offset0);
    var index: nat, offset: nat, remaining := index0, offset0, len;
    data := [];
    while remaining > 0 && index < |buffers|
      invariant ValidCursor(buffers, index, offset)
      invariant |data| + remaining == len
      invariant CursorPos(buffers, index, offset) == pos + |data|
      invariant data == Flat(buffers)[pos..pos + |data|]
      decreases remaining, |buffers| - index
    {
      if offset >= |buffers[index]| {
        index := index + 1;
        offset := 0;
        continue;
      }
      var n := Min(|buffers[index]| - offset, remaining);
      CursorBytes(buffers, index, offset, n);
      data := data + buffers[index][offset..offset + n];
      remaining := remaining - n;
      offset := offset + n;
    }
    FlatLen(buffers, |buffers|);
  }

  // ----- one lock section of a write -----

  /** How many of the remaining bytes a section accepts; zero means the writer must wait. A
      write of at most PIPE_BUF bytes that has accepted nothing waits for room for all of it. */
  function Admitted(avail: nat, remaining: nat, written: nat): nat {
    if avail == 0 || (remaining <= PIPE_BUF && avail < remaining && written == 0) then 0 else Min(remaining, avail)
  }

  /** The section of write_from_slice_inner. */
  method FlatSection(ring: PipeRingBuffer, data: Bytes, written: nat) returns (n: nat)
    requires ring.Valid() && written < |data|
    modifies ring.Repr()
    ensures ring.Valid() && ring.capacity == old(ring.capacity) && fresh(ring.Repr() - old(ring.Repr()))
    ensures n == Admitted(old(ring.capacity - |ring.queue|), |data| - written, written)
    ensures written + n <= |data|
    ensures ring.queue == old(ring.queue) + data[written..written + n]
  {
    var avail := ring.AvailableWrite();
    var remaining := |data| - written;
    if avail == 0 || (remaining <= PIPE_BUF && avail < remaining && written == 0) {
      return 0;
    }
    var want := Min(remaining, avail);
    var chunk := data[written..written + want];
    n := ring.WriteFromSlice(chunk);
    assert chunk[..n] == chunk;
  }

  /** The section of write_user_result: the copy loop over scattered buffers. The cursor always
      denotes the accepted prefix of the flattened buffers. */
  method ScatterSection(ring: PipeRingBuffer, buffers: seq<Bytes>, index0: nat, offset0: nat, written: nat)
    returns (n: nat, index: nat, offset: nat)
    requires ring.Valid() && ValidCursor(buffers, index0, offset0)
    requires CursorPos(buffers, index0, offset0) == written < |Flat(buffers)|
    modifies ring.Repr()
    ensures ring.Valid() && ring.capacity == old(ring.capacity) && fresh(ring.Repr() - old(ring.Repr()))
    ensures n == Admitted(old(ring.capacity - |ring.queue|), |Flat(buffers)| - written, written)
    ensures ValidCursor(buffers, index, offset) && CursorPos(buffers, index, offset) == written + n
    ensures Appended(old(ring.queue), ring.queue, buffers, written, written + n)
  {
    var avail := ring.AvailableWrite();
    FlatLen(buffers, |buffers|);
    var remaining := TotalLen(buffers) - written;
    if avail == 0 || (remaining <= PIPE_BUF && avail < remaining && written == 0) {
      AppendedNothing(ring.queue, buffers, written);
      return 0, index0, offset0;
    }
    n := Min(remaining, avail);
    index, offset := CopyScattered(ring, buffers, index0, offset0, written, n);
  }

  /** Copy exactly toWrite bytes from the cursor on. */
  method CopyScattered(ring: PipeRingBuffer, buffers: seq<Bytes>, index0: nat, offset0: nat, written: nat, toWrite: nat)
    returns (index: nat, offset: nat)
    requires ring.Valid() && ValidCursor(buffers, index0, offset0) && CursorPos(buffers, index0, offset0) == written
    requires written + toWrite <= |Flat(buffers)| && toWrite <= ring.capacity - |ring.queue|
    modifies ring.Repr()
    ensures ring.Valid() && ring.capacity == old(ring.capacity) && fresh(ring.Repr() - old(ring.Repr()))
    ensures ValidCursor(buffers, index, offset) && CursorPos(buffers, index, offset) == written + toWrite
    ensures Appended(old(ring.queue), ring.queue, buffers, written, written + toWrite)
  {
    ghost var before := ring.queue;
    AppendedNothing(ring.queue, buffers, written);
    FlatLen(buffers, |buffers|);
    index, offset := index0, offset0;
    var n := 0;
    while n < toWrite
      invariant ring.Valid() && ring.capacity == old(ring.capacity) && fresh(ring.Repr() - old(ring.Repr()))
      invariant ValidCursor(buffers, index, offset) && n <= toWrite
      invariant CursorPos(buffers, index, offset) == written + n
      invariant |ring.queue| == |before| + n
      invariant Appended(before, ring.queue, buffers, written, written + n)
      decreases toWrite - n
    {
      index, offset := SkipExhausted(buffers, index, offset);
      if index >= |buffers| {
        break;
      }
      ghost var q1 := ring.queue;
      var copied := CopyChunk(ring, buffers, index, offset, toWrite - n, written + n);
      AppendedTwice(before, q1, ring.queue, buffers, written, written + n, written + n + copied);
      n := n + copied;
      offset := offset + copied;
    }
  }

  /** Copy from the cursor's buffer, at most `want` bytes. */
  method CopyChunk(ring: PipeRingBuffer, buffers: seq<Bytes>, index: nat, offset: nat, want: nat, ghost pos: nat)
    returns (copied: nat)
    requires ring.Valid() && index < |buffers| && offset < |buffers[index]| && 0 < want <= ring.capacity - |ring.queue|
    requires pos == CursorPos(buffers, index, offset)
    modifies ring.Repr()
    ensures ring.Valid() && ring.capacity == old(ring.capacity) && fresh(ring.Repr() - old(ring.Repr()))
    ensures copied == Min(|buffers[index]| - offset, want) > 0
    ensures |ring.queue| == |old(ring.queue)| + copied
    ensures Appended(old(ring.queue), ring.queue, buffers, pos, pos + copied)
  {
    var chunk := Min(|buffers[index]| - offset, want);
    CursorBytes(buffers, index, offset, chunk);
    var src := buffers[index][offset..offset + chunk];
    copied := ring.WriteFromSlice(src);
    assert src[..copied] == src;
  }

  method SkipExhausted(buffers: seq<Bytes>, index0: nat, offset0: nat) returns (index: nat, offset: nat)
    requires ValidCursor(buffers, index0, offset0)
    ensures ValidCursor(buffers, index, offset)
    ensures CursorPos(buffers, index, offset) == CursorPos(buffers, index0, offset0)
    ensures index < |buffers| ==> offset < |buffers[index]|
  {
    index, offset := index0, offset0;
    while index < |buffers| && offset >= |buffers[index]|
      invariant ValidCursor(buffers, index, offset)
      invariant CursorPos(buffers, index, offset) == CursorPos(buffers, index0, offset0)
      decreases |buffers| - index
    {
      index := index + 1;
      offset := 0;
    }
  }

  // ----- one lock section of a read -----

  datatype ReadOutcome = Read(n: nat) | Eof | Refused(error: Errno) | Blocked

  /** The section of read_to_slice_inner: what a reader gets when it holds the lock. */
  method ReadSection(ring: PipeRingBuffer, dst: array<u8>, writersGone: bool, nonblock: bool, signalled: bool,
                     signalAsEintr: bool, expired: bool) returns (r: ReadOutcome)
    requires ring.Valid() && dst != ring.arr
    modifies ring, dst
    ensures ring.Valid() && ring.arr == old(ring.arr) && ring.capacity == old(ring.capacity)
    ensures r.Read? <==> dst.Length == 0 || old(ring.queue) != []
    ensures r.Read? ==>
      && r.n == Min(dst.Length, old(|ring.queue|))
      && dst[..] == Splice(old(dst[..]), 0, old(ring.queue)[..r.n])
      && ring.queue == old(ring.queue)[r.n..]
    ensures !r.Read? ==> ring.queue == [] && dst[..] == old(dst[..])
    ensures r.Eof? <==> !r.Read? && (writersGone || (!nonblock && signalled && !signalAsEintr))
    ensures r == Refused(EINTR) <==> !r.Read? && !writersGone && !nonblock && signalled && signalAsEintr
    ensures r == Refused(EAGAIN) <==> !r.Read? && !writersGone && (nonblock || (!signalled && expired))
    ensures r.Blocked? <==> !r.Read? && !writersGone && !nonblock && !signalled && !expired
  {
    if dst.Length == 0 {
      assert Splice(dst[..], 0, ring.queue[..0]) == dst[..];
      return Read(0);
    }
    var avail := ring.AvailableRead();
    if avail == 0 {
      if writersGone {
        return Eof;
      }
      if nonblock {
        return Refused(EAGAIN);
      }
      if signalled {
        return if signalAsEintr then Refused(EINTR) else Eof;
      }
      if expired {
        return Refused(EAGAIN);
      }
      return Blocked;
    }
    var n := ring.ReadIntoSlice(dst, 0, Min(avail, dst.Length));
    return Read(n);
  }
}
