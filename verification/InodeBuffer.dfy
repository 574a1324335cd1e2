/** The read-ahead and write-behind buffers of an open file (OSInode in src/fs/inode.rs) over an
    inode that is a growable byte sequence with zero-filled holes. */
module InodeBuffer {

  type u8 = x: int | 0 <= x < 0x100
  type Bytes = seq<u8>

  const READBUF_MAX: nat := 131072
  const READBUF_MIN: nat := 4096
  const WRITEBUF_MAX: nat := 131072

  function Min(a: nat, b: nat): nat { if a <= b then a else b }
  function Max(a: nat, b: nat): nat { if a >= b then a else b }

  // ----- the inode -----

  function Zeros(n: nat): (z: Bytes)
    ensures |z| == n && forall i :: 0 <= i < n ==> z[i] == 0
  {
    if n == 0 then [] else Zeros(n - 1) + [0]
  }

  /** One byte at position i, zero-filling the gap when i is past the end. */
  function Put(f: Bytes, i: nat, b: u8): Bytes {
    if i < |f| then f[i := b] else f + Zeros(i - |f|) + [b]
  }

  /** write_at: put data at off, growing the file and zero-filling any hole. Writing nothing
      changes nothing. */
  function Overlay(f: Bytes, off: nat, data: Bytes): Bytes {
    if data == [] then f else Put(Overlay(f, off, data[..|data| - 1]), off + |data| - 1, data[|data| - 1])
  }

  /** read_at: at most n bytes from off on, none past the end. */
  function SliceAt(f: Bytes, off: nat, n: nat): (r: Bytes)
    ensures |r| <= n
    decreases n
  {
    if n == 0 || off >= |f| then [] else [f[off]] + SliceAt(f, off + 1, n - 1)
  }

  lemma {:induction false} SliceLen(f: Bytes, off: nat, n: nat)
    ensures |SliceAt(f, off, n)| == if off >= |f| then 0 else Min(off + n, |f|) - off
    decreases n
  {
    if n > 0 && off < |f| {
      SliceLen(f, off + 1, n - 1);
    }
  }

  lemma {:induction false} SliceByte(f: Bytes, off: nat, n: nat, k: nat)
    requires k < |SliceAt(f, off, n)|
    ensures off + k < |f| && SliceAt(f, off, n)[k] == f[off + k]
    decreases n
  {
    if k > 0 {
      SliceByte(f, off + 1, n - 1, k - 1);
    }
  }

  /** A read returns the file's bytes from off on, up to n of them and no further than the end. */
  lemma SliceMeaning(f: Bytes, off: nat, n: nat)
    ensures SliceAt(f, off, n) == if off >= |f| then [] else f[off..Min(off + n, |f|)]
  {
    SliceLen(f, off, n);
    forall k: nat | k < |SliceAt(f, off, n)|
      ensures off + k < |f| && SliceAt(f, off, n)[k] == f[off + k]
    {
      SliceByte(f, off, n, k);
    }
  }

  /** The byte a reader gets at position i, with zeros past the end. */
  function ByteAt(f: Bytes, i: nat): u8 {
    if i < |f| then f[i] else 0
  }

  /** The length and every byte of the result of a write. */
  lemma {:induction false} OverlayMeaning(f: Bytes, off: nat, data: Bytes)
    ensures |Overlay(f, off, data)| == if data == [] then |f| else Max(|f|, off + |data|)
    ensures forall i: nat :: ByteAt(Overlay(f, off, data), i) ==
                             if off <= i < off + |data| then data[i - off] else ByteAt(f, i)
  {
    if data != [] {
      var n := |data| - 1;
      OverlayMeaning(f, off, data[..n]);
      var g := Overlay(f, off, data[..n]);
      forall i: nat
        ensures ByteAt(Overlay(f, off, data), i) ==
                if off <= i < off + |data| then data[i - off] else ByteAt(f, i)
      {
        assert ByteAt(g, i) == if off <= i < off + n then data[..n][i - off] else ByteAt(f, i);
        PutMeaning(g, off + n, data[n], i);
      }
    }
  }

  lemma PutMeaning(f: Bytes, at: nat, b: u8, i: nat)
    ensures |Put(f, at, b)| == Max(|f|, at + 1)
    ensures ByteAt(Put(f, at, b), i) == if i == at then b else ByteAt(f, i)
  {
  }

  lemma SameBytes(f: Bytes, g: Bytes)
    requires |f| == |g| && forall i: nat :: ByteAt(f, i) == ByteAt(g, i)
    ensures f == g
  {
    forall i | 0 <= i < |f|
      ensures f[i] == g[i]
    {
      assert ByteAt(f, i) == ByteAt(g, i);
    }
  }

  /** Writing a prefix first and then the whole is writing the whole. */
  lemma OverlayPrefix(f: Bytes, off: nat, data: Bytes, n: nat)
    requires n <= |data|
    ensures Overlay(Overlay(f, off, data[..n]), off, data) == Overlay(f, off, data)
  {
    OverlayMeaning(f, off, data[..n]);
    OverlayMeaning(Overlay(f, off, data[..n]), off, data);
    OverlayMeaning(f, off, data);
    SameBytes(Overlay(Overlay(f, off, data[..n]), off, data), Overlay(f, off, data));
  }

  /** Two adjacent writes are one write of both. */
  lemma {:induction false} OverlayAppend(f: Bytes, off: nat, a: Bytes, b: Bytes)
    ensures Overlay(Overlay(f, off, a), off + |a|, b) == Overlay(f, off, a + b)
  {
    if b == [] {
      assert a + b == a;
    } else {
      var n := |b| - 1;
      OverlayAppend(f, off, a, b[..n]);
      assert (a + b)[..|a| + n] == a + b[..n];
    }
  }

  /** The file cut or zero-extended to n bytes. */
  function Resize(f: Bytes, n: nat): (r: Bytes)
    ensures |r| == n
  {
    if n <= |f| then f[..n] else f + Zeros(n - |f|)
  }

  lemma ResizeMeaning(f: Bytes, n: nat, i: nat)
    ensures ByteAt(Resize(f, n), i) == if i < n then ByteAt(f, i) else 0
  {
  }

  /** Files of equal bytes before n are equal once resized to n. */
  lemma ResizeSame(f: Bytes, g: Bytes, n: nat)
    requires forall i: nat :: i < n ==> ByteAt(f, i) == ByteAt(g, i)
    ensures Resize(f, n) == Resize(g, n)
  {
    forall i: nat
      ensures ByteAt(Resize(f, n), i) == ByteAt(Resize(g, n), i)
    {
      ResizeMeaning(f, n, i);
      ResizeMeaning(g, n, i);
    }
    SameBytes(Resize(f, n), Resize(g, n));
  }

  /** The part of data, written at off, that lies before n. */
  function Before(off: nat, data: Bytes, n: nat): Bytes {
    if off >= n then [] else data[..Min(|data|, n - off)]
  }

  /** Before n, writing the part of the data before n is writing the data. */
  lemma ResizeWrite(f: Bytes, off: nat, data: Bytes, n: nat)
    ensures Resize(Overlay(f, off, Before(off, data, n)), n) == Resize(Overlay(f, off, data), n)
  {
    var kept := Before(off, data, n);
    OverlayMeaning(f, off, kept);
    OverlayMeaning(f, off, data);
    ResizeSame(Overlay(f, off, kept), Overlay(f, off, data), n);
  }

  /** Growing the file under a write that does not reach past n. */
  lemma ResizeUnder(f: Bytes, off: nat, data: Bytes, n: nat)
    requires data != [] && |f| <= n && off + |data| <= n
    ensures Overlay(Resize(f, n), off, data) == Resize(Overlay(f, off, data), n)
  {
    OverlayMeaning(f, off, data);
    OverlayMeaning(Resize(f, n), off, data);
    forall i: nat
      ensures ByteAt(Overlay(Resize(f, n), off, data), i) == ByteAt(Resize(Overlay(f, off, data), n), i)
    {
      ResizeMeaning(f, n, i);
      ResizeMeaning(Overlay(f, off, data), n, i);
    }
    SameBytes(Overlay(Resize(f, n), off, data), Resize(Overlay(f, off, data), n));
  }

  // ----- the reference: a plain file -----

  datatype Plain = Plain(data: Bytes, offset: nat)

  datatype Op =
    | Read(lens: seq<nat>)
    | Write(slices: seq<Bytes>)
    | Pread(off: nat, len: nat)
    | Pwrite(off: nat, buf: Bytes)
    | Seek(off: nat)
    | Flush
    | VisibleEnd
    | Truncate(len: nat)

  datatype Out = Data(bytes: Bytes) | Count(n: nat) | Done

  /** The first k lengths added up. */
  function Sum(lens: seq<nat>, k: nat): nat
    requires k <= |lens|
  {
    if k == 0 then 0 else Sum(lens, k - 1) + lens[k - 1]
  }

  /** The first k slices joined. */
  function Flat(slices: seq<Bytes>, k: nat): Bytes
    requires k <= |slices|
  {
    if k == 0 then [] else Flat(slices, k - 1) + slices[k - 1]
  }

  /** What a plain byte-sequence file does. In append mode a write first moves to the end. */
  function PlainStep(p: Plain, op: Op, append: bool): (Plain, Out) {
    match op
    case Read(lens) =>
      var bytes := SliceAt(p.data, p.offset, Sum(lens, |lens|));
      (p.(offset := p.offset + |bytes|), Data(bytes))
    case Write(slices) =>
      var at := if append then |p.data| else p.offset;
      var data := Flat(slices, |slices|);
      (Plain(Overlay(p.data, at, data), at + |data|), Count(|data|))
    case Pread(off, len) => (p, Data(SliceAt(p.data, off, len)))
    case Pwrite(off, buf) => (p.(data := Overlay(p.data, off, buf)), Count(|buf|))
    case Seek(off) => (p.(offset := off), Done)
    case Flush => (p, Done)
    case VisibleEnd => (p, Count(|p.data|))
    case Truncate(len) => (p.(data := Resize(p.data, len)), Done)
  }

  function PlainRun(p: Plain, ops: seq<Op>, append: bool): (Plain, seq<Out>) {
    if ops == [] then (p, [])
    else
      var (q, outs) := PlainRun(p, ops[..|ops| - 1], append);
      var (q', out) := PlainStep(q, ops[|ops| - 1], append);
      (q', outs + [out])
  }

  lemma SliceBytes(f: Bytes, off: nat, n: nat)
    ensures |SliceAt(f, off, n)| == Min(n, if off <= |f| then |f| - off else 0)
    ensures forall k :: 0 <= k < |SliceAt(f, off, n)| ==> SliceAt(f, off, n)[k] == f[off + k]
  {
    SliceMeaning(f, off, n);
  }

  /** What a reader of the plain file gets: its bytes from the offset on, up to the end; the offset
      moves by as many. */
  lemma PlainReads(p: Plain, lens: seq<nat>, append: bool)
    ensures
      var (q, out) := PlainStep(p, Read(lens), append);
      && out.Data? && q == Plain(p.data, p.offset + |out.bytes|)
      && |out.bytes| == Min(Sum(lens, |lens|), if p.offset <= |p.data| then |p.data| - p.offset else 0)
      && forall k :: 0 <= k < |out.bytes| ==> out.bytes[k] == p.data[p.offset + k]
  {
    SliceBytes(p.data, p.offset, Sum(lens, |lens|));
  }

  /** A write is read back. */
  lemma OverlayRead(f: Bytes, at: nat, data: Bytes)
    ensures SliceAt(Overlay(f, at, data), at, |data|) == data
  {
    var g := Overlay(f, at, data);
    OverlayMeaning(f, at, data);
    SliceBytes(g, at, |data|);
    forall k: nat | k < |data|
      ensures at + k < |g| && g[at + k] == data[k]
    {
      assert ByteAt(g, at + k) == data[k];
    }
  }

  /** What a writer does to it: the bytes of all slices, in order, at the offset or at the end in
      append mode; a hole reads as zeros, nothing else changes, and a read finds them there. */
  lemma PlainWrites(p: Plain, slices: seq<Bytes>, append: bool)
    ensures
      var (q, out) := PlainStep(p, Write(slices), append);
      var at, data := if append then |p.data| else p.offset, Flat(slices, |slices|);
      && out == Count(|data|) && q.offset == at + |data| && WrittenAt(p.data, q.data, at, data)
      && PlainStep(q, Pread(at, |data|), append) == (q, Data(data))
  {
    var at, data := if append then |p.data| else p.offset, Flat(slices, |slices|);
    OverlayMeaning(p.data, at, data);
    OverlayRead(p.data, at, data);
    assert WrittenAt(p.data, Overlay(p.data, at, data), at, data);
  }

  ghost predicate WrittenAt(f: Bytes, g: Bytes, at: nat, data: Bytes) {
    && (forall i: nat ::
          ByteAt(g, i) == if at <= i < at + |data| then data[i - at] else ByteAt(f, i))
    && (data != [] ==> |g| == if at + |data| > |f| then at + |data| else |f|)
    && (data == [] ==> g == f)
  }

  // ----- the open file -----

  datatype Option<+T> = None | Some(value: T)

  class OSInode {
    const writable: bool
    const append: bool
    var disk: Bytes               // the inode
    var offset: nat
    var writeBufOff: nat
    var writeBuf: Bytes
    var writeBufCounted: bool
    var registeredEnd: Option<nat>   // this file's entry in the registry of pending writes
    var readBufOff: nat
    var readBufValid: nat
    var readBuf: Bytes

    /** The file as every reader must see it: the inode with the pending bytes on top. */
    ghost function Logical(): Bytes
      reads this
    {
      Overlay(disk, writeBufOff, writeBuf)
    }

    ghost function Abs(): Plain
      reads this
    {
      Plain(Logical(), offset)
    }

    /** The valid part of the read buffer is a copy of the inode's bytes. */
    ghost predicate ReadBufCoherent()
      reads this
    {
      readBufValid > 0 ==>
        && readBufValid <= |readBuf| && readBufOff + readBufValid <= |disk|
        && forall k :: 0 <= k < readBufValid ==> readBuf[k] == disk[readBufOff + k]
    }

    /** The bookkeeping of the two buffers, whatever the read buffer holds. */
    ghost predicate Sound()
      reads this
    {
      && (readBufValid > 0 ==> READBUF_MAX <= |readBuf| && readBufValid <= |readBuf|)
      && (writeBuf != [] ==> readBufValid == 0 && writable)
      && (writeBufCounted <==> writeBuf != [])
      && registeredEnd == (if writeBuf == [] then None else Some(writeBufOff + |writeBuf|))
    }

    ghost predicate Valid()
      reads this
    {
      Sound() && ReadBufCoherent()
    }

    constructor (disk: Bytes, writable: bool, append: bool)
      ensures Valid() && Abs() == Plain(disk, 0) && writeBuf == [] && readBufValid == 0
      ensures this.writable == writable && this.append == append
    {
      this.disk, this.writable, this.append := disk, writable, append;
      offset, writeBufOff, writeBuf, writeBufCounted, registeredEnd := 0, 0, [], false, None;
      readBufOff, readBufValid, readBuf := 0, 0, [];
    }

    method MarkDirty()
      requires writeBuf != []
      modifies this`writeBufCounted, this`registeredEnd
      ensures writeBufCounted && registeredEnd == Some(writeBufOff + |writeBuf|)
    {
      writeBufCounted := true;
      registeredEnd := Some(writeBufOff + |writeBuf|);
    }

    /** flush_inner when the inode takes the first `accepted` bytes of the write. After a short
        write the buffer stays pending, so no reader can tell that the write stopped half way. */
    method FlushAttempt(accepted: nat) returns (ok: bool)
      requires Sound() && accepted <= |writeBuf|
      modifies this`disk, this`writeBuf, this`writeBufCounted, this`registeredEnd
      ensures Sound() && Logical() == old(Logical()) && (old(Valid()) ==> Valid())
      ensures ok <==> accepted == old(|writeBuf|)
      ensures writeBuf == if ok then [] else old(writeBuf)
      ensures old(writeBuf) == [] ==> disk == old(disk)
    {
      if writeBuf == [] {
        return true;
      }
      var data := writeBuf;
      OverlayPrefix(disk, writeBufOff, data, accepted);
      disk := Overlay(disk, writeBufOff, data[..accepted]);
      writeBuf := [];
      if accepted == |data| {
        assert data[..accepted] == data;
        writeBufCounted := false;
        registeredEnd := None;
        return true;
      }
      writeBuf := data;
      MarkDirty();
      return false;
    }

    /** flush_inner when the inode accepts the whole write. */
    method FlushInner()
      requires Sound()
      modifies this`disk, this`writeBuf, this`writeBufCounted, this`registeredEnd
      ensures Sound() && (old(Valid()) ==> Valid())
      ensures writeBuf == [] && disk == Logical() == old(Logical())
      ensures old(writeBuf) == [] ==> disk == old(disk)
    {
      var _ := FlushAttempt(|writeBuf|);
    }

    /** Refill the read buffer from position pos; returns the bytes obtained. */
    method Refill(pos: nat, refillLen: nat) returns (n: nat)
      requires writeBuf == [] && refillLen <= |readBuf|
      modifies this`readBufOff, this`readBufValid, this`readBuf
      ensures ReadBufCoherent() && |readBuf| == old(|readBuf|)
      ensures readBufOff == pos && readBufValid == n == |SliceAt(disk, pos, refillLen)|
    {
      var got := SliceAt(disk, pos, refillLen);
      SliceMeaning(disk, pos, refillLen);
      n := |got|;
      readBufOff := pos;
      readBuf := got + readBuf[n..];
      readBufValid := n;
    }

    method PrepareReadBuf()
      requires Sound() && writeBuf == []
      modifies this`readBufOff, this`readBufValid, this`readBuf
      ensures Sound() && |readBuf| >= READBUF_MAX && (old(Valid()) ==> Valid())
      ensures old(readBufValid) == 0 ==> readBufValid == 0
      ensures old(readBufValid) > 0 ==>
        readBuf == old(readBuf) && readBufOff == old(readBufOff) && readBufValid == old(readBufValid)
    {
      if |readBuf| < READBUF_MAX {
        readBuf := readBuf + seq(READBUF_MAX - |readBuf|, _ => 0);
        readBufOff := 0;
        readBufValid := 0;
      }
    }

    predicate InReadBuf(pos: nat)
      reads this
    {
      readBufOff <= pos < readBufOff + readBufValid
    }

    /** The cached bytes at pos, when pos is inside the valid part. They are the inode's bytes as
        long as the buffer is coherent. */
    method TakeCached(pos: nat, want: nat) returns (bytes: Bytes)
      requires readBufValid <= |readBuf| && InReadBuf(pos) && want > 0
      ensures 0 < |bytes| <= want && pos - readBufOff + |bytes| <= readBufValid
      ensures bytes == readBuf[pos - readBufOff..pos - readBufOff + |bytes|]
      ensures ReadBufCoherent() ==> bytes == SliceAt(disk, pos, |bytes|)
    {
      var cacheOff := pos - readBufOff;
      var n := Min(readBufValid - cacheOff, want);
      bytes := readBuf[cacheOff..cacheOff + n];
      if ReadBufCoherent() {
        CachedSlice(disk, readBuf, readBufOff, readBufValid, cacheOff, n);
      }
    }

    /** One turn of the read loop at pos: refill if needed, then copy what the buffer holds.
        Nothing is copied only at the end of the file. */
    method ReadTurn(pos: nat, want: nat, sequentialHint: bool) returns (bytes: Bytes)
      requires Sound() && writeBuf == [] && |readBuf| >= READBUF_MAX && want > 0
      modifies this`readBufOff, this`readBufValid, this`readBuf
      ensures Sound() && |readBuf| >= READBUF_MAX && |bytes| <= want
      ensures old(InReadBuf(pos)) ==> bytes != [] && bytes[0] == old(readBuf[pos - readBufOff])
      ensures !old(InReadBuf(pos)) ==> readBufOff == pos && readBufValid >= |SliceAt(disk, pos, READBUF_MIN)|
      ensures old(Valid()) ==>
        Valid() && bytes == SliceAt(disk, pos, |bytes|) && (bytes == [] ==> pos >= |disk|)
    {
      if readBufValid == 0 || pos < readBufOff || pos >= readBufOff + readBufValid {
        var sequential := sequentialHint && readBufValid > 0 && pos == readBufOff + readBufValid;
        var refillLen := if sequential then READBUF_MAX else Min(READBUF_MAX, Max(want, READBUF_MIN));
        var n := Refill(pos, refillLen);
        SliceLen(disk, pos, READBUF_MIN);
        SliceLen(disk, pos, refillLen);
        if n == 0 {
          return [];
        }
      }
      bytes := TakeCached(pos, want);
    }

    /** Read from a position through the buffer, up to len bytes. */
    method ReadLoop(start: nat, len: nat, sequentialHint: bool) returns (out: Bytes)
      requires Sound() && writeBuf == [] && |readBuf| >= READBUF_MAX
      modifies this`readBufOff, this`readBufValid, this`readBuf
      ensures Sound() && |readBuf| >= READBUF_MAX && |out| <= len
      ensures old(Valid()) ==> Valid() && out == SliceAt(disk, start, len)
      ensures len > 0 && old(InReadBuf(start)) ==> out != [] && out[0] == old(readBuf[start - readBufOff])
    {
      out := [];
      while |out| < len
        invariant Sound() && |readBuf| >= READBUF_MAX && |out| <= len
        invariant old(Valid()) ==> Valid() && out == SliceAt(disk, start, |out|)
        invariant out == [] ==>
          readBuf == old(readBuf) && readBufOff == old(readBufOff) && readBufValid == old(readBufValid)
        invariant out != [] && old(InReadBuf(start)) ==> out[0] == old(readBuf[start - readBufOff])
        decreases len - |out|
      {
        var bytes := ReadTurn(start + |out|, len - |out|, sequentialHint);
        if bytes == [] {
          ReadMore(disk, start, |out|, len - |out|);
          return;
        }
        ReadMore(disk, start, |out|, |bytes|);
        out := out + bytes;
      }
    }

    /** The loop of read over the user's slices. */
    method ReadSlices(lens: seq<nat>) returns (out: Bytes)
      requires Valid() && writeBuf == [] && |readBuf| >= READBUF_MAX
      modifies this`offset, this`readBufOff, this`readBufValid, this`readBuf
      ensures Valid() && offset == old(offset) + |out|
      ensures out == SliceAt(disk, old(offset), Sum(lens, |lens|))
    {
      out := [];
      for k := 0 to |lens|
        invariant Valid() && |readBuf| >= READBUF_MAX
        invariant offset == old(offset) + |out| && out == SliceAt(disk, old(offset), Sum(lens, k))
      {
        var bytes := ReadLoop(offset, lens[k], true);
        ReadNext(disk, old(offset), lens, k);
        offset := offset + |bytes|;
        out := out + bytes;
        if |bytes| < lens[k] {
          return;
        }
      }
    }

    /** read: fill the user's slices one after the other from the file offset. */
    method Read(lens: seq<nat>) returns (out: Bytes)
      requires Valid()
      modifies this
      ensures Valid()
      ensures (Abs(), Data(out)) == PlainStep(old(Abs()), Op.Read(lens), append)
    {
      FlushIfWritable();
      PrepareReadBuf();
      out := ReadSlices(lens);
    }

    method FlushIfWritable()
      requires Sound()
      modifies this`disk, this`writeBuf, this`writeBufCounted, this`registeredEnd
      ensures Sound() && (old(Valid()) ==> Valid())
      ensures writeBuf == [] && disk == Logical() == old(Logical())
    {
      if writable {
        FlushInner();
      }
    }

    /** pread_at: read at an offset without moving the file offset. An offset inside the read
        buffer is answered from it, be it coherent or not. */
    method PreadAt(off: nat, len: nat) returns (out: Bytes)
      requires Sound()
      modifies this
      ensures Sound() && Abs() == old(Abs()) && |out| <= len
      ensures old(Valid()) ==> Valid() && (Abs(), Data(out)) == PlainStep(old(Abs()), Pread(off, len), append)
      ensures len > 0 && old(InReadBuf(off)) ==> out != [] && out[0] == old(readBuf[off - readBufOff])
    {
      FlushIfWritable();
      PrepareReadBuf();
      out := ReadLoop(off, len, false);
    }

    /** Extend the pending bytes by a piece that is adjacent to them. */
    method ExtendPending(at: nat, piece: Bytes)
      requires Valid() && writable && (writeBuf != [] ==> at == writeBufOff + |writeBuf|)
      modifies this
      ensures Valid() && offset == old(offset)
      ensures Logical() == Overlay(old(Logical()), at, piece)
    {
      OverlayAppend(disk, writeBufOff, writeBuf, piece);
      if writeBuf == [] {
        writeBufOff := at;
        assert writeBuf + piece == piece;
      }
      writeBuf := writeBuf + piece;
      readBufValid := 0;
      if piece != [] {
        MarkDirty();
      }
    }

    /** Buffer one piece at the given position, flushing first when it is not adjacent to the
        pending bytes and afterwards when the buffer is full. */
    method BufferPiece(at: nat, piece: Bytes)
      requires Valid() && writable
      modifies this
      ensures Valid() && offset == old(offset)
      ensures Logical() == Overlay(old(Logical()), at, piece)
    {
      if writeBuf != [] && at != writeBufOff + |writeBuf| {
        FlushInner();
      }
      ExtendPending(at, piece);
      if |writeBuf| >= WRITEBUF_MAX {
        FlushInner();
      }
    }

    /** In append mode: flush and move to the end of the file. */
    method MoveToEnd()
      requires Valid()
      modifies this
      ensures Valid() && Logical() == old(Logical()) && offset == |Logical()|
    {
      if writeBuf != [] {
        FlushInner();
        readBufValid := 0;
      }
      var pendingEnd := if registeredEnd.Some? then registeredEnd.value else 0;
      offset := Max(|disk|, pendingEnd);
    }

    /** write: buffer the user's slices at the file offset, or at the end in append mode. */
    method Write(slices: seq<Bytes>) returns (n: nat)
      requires Valid() && writable
      modifies this
      ensures Valid()
      ensures (Abs(), Count(n)) == PlainStep(old(Abs()), Op.Write(slices), append)
    {
      if append {
        MoveToEnd();
      }
      n := WriteSlices(slices);
    }

    /** The loop of write over the user's slices. */
    method WriteSlices(slices: seq<Bytes>) returns (n: nat)
      requires Valid() && writable
      modifies this
      ensures Valid() && n == |Flat(slices, |slices|)| && offset == old(offset) + n
      ensures Logical() == Overlay(old(Logical()), old(offset), Flat(slices, |slices|))
    {
      n := 0;
      for k := 0 to |slices|
        invariant Valid() && offset == old(offset) + n && n == |Flat(slices, k)|
        invariant Logical() == Overlay(old(Logical()), old(offset), Flat(slices, k))
      {
        OverlayAppend(old(Logical()), old(offset), Flat(slices, k), slices[k]);
        BufferPiece(offset, slices[k]);
        offset := offset + |slices[k]|;
        n := n + |slices[k]|;
      }
    }

    /** pwrite_at: large writes go straight to the inode after a flush. */
    method PwriteAt(off: nat, buf: Bytes) returns (n: nat)
      requires Valid() && writable
      modifies this
      ensures Valid()
      ensures (Abs(), Count(n)) == PlainStep(old(Abs()), Pwrite(off, buf), append)
    {
      readBufValid := 0;
      if |buf| >= WRITEBUF_MAX {
        if writeBuf != [] {
          FlushInner();
        }
        disk := Overlay(disk, off, buf);
        return |buf|;
      }
      BufferPiece(off, buf);
      return |buf|;
    }

    /** set_offset. */
    method SetOffset(off: nat)
      requires Sound()
      modifies this
      ensures Valid() && readBufValid == 0
      ensures (Abs(), Done) == PlainStep(old(Abs()), Seek(off), append)
    {
      FlushIfWritable();
      offset := off;
      readBufValid := 0;
    }

    /** A truncation to n leaves the read buffer coherent: it holds nothing past n. */
    predicate Survives(n: nat)
      reads this
    {
      readBufValid == 0 || readBufOff + readBufValid <= n
    }

    /** The flush phase of a truncation below the visible end: pending bytes that end by n are
        flushed, and of those that reach past n the part before n is written out. */
    method FlushForTruncate(n: nat)
      requires Valid() && writeBuf != []
      modifies this
      ensures Valid() && offset == old(offset) && readBufValid == 0
      ensures old(writeBufOff + |writeBuf|) <= n ==> writeBuf == [] && disk == old(Logical())
      ensures old(writeBufOff + |writeBuf|) > n ==>
        && writeBuf == old(writeBuf) && writeBufOff == old(writeBufOff)
        && disk == Overlay(old(disk), writeBufOff, Before(writeBufOff, writeBuf, n))
    {
      if writeBufOff >= n {
        return;
      }
      readBufValid := 0;
      if writeBufOff + |writeBuf| <= n {
        FlushInner();
      } else {
        disk := Overlay(disk, writeBufOff, writeBuf[..n - writeBufOff]);
      }
    }

    /** truncate_regular_inode on a file with this one description: the logical file is cut or
        extended. The read buffer of a description without pending bytes is not invalidated, so
        coherence survives exactly when the buffer holds nothing past n. */
    method TruncateTo(n: nat)
      requires Valid()
      modifies this
      ensures Sound() && (Abs(), Done) == PlainStep(old(Abs()), Truncate(n), append)
      ensures Valid() <==> old(Survives(n))
      ensures !old(Survives(n)) ==>
        readBufOff == old(readBufOff) && readBufValid == old(readBufValid) && readBuf == old(readBuf)
    {
      var visible := GetVisibleEnd();
      if writeBuf == [] {
        disk := Resize(disk, n);
        return;
      }
      if n >= visible {
        OverlayMeaning(disk, writeBufOff, writeBuf);
        ResizeUnder(disk, writeBufOff, writeBuf, n);
        disk := Resize(disk, n);
        return;
      }
      ResizeWrite(disk, writeBufOff, writeBuf, n);
      FlushForTruncate(n);
      disk := Resize(disk, n);
      if writeBuf != [] && writeBufOff + |writeBuf| > n {
        writeBuf := [];
        readBufValid := 0;
        writeBufCounted := false;
        registeredEnd := None;
      }
    }

    /** visible_end: the inode's size or the end of the pending bytes, whichever is larger. */
    method GetVisibleEnd() returns (n: nat)
      requires Valid()
      ensures n == |Logical()|
    {
      n := if registeredEnd.Some? then Max(|disk|, registeredEnd.value) else |disk|;
      OverlayMeaning(disk, writeBufOff, writeBuf);
    }
  }

  lemma CachedSlice(disk: Bytes, buf: Bytes, off: nat, valid: nat, i: nat, n: nat)
    requires valid <= |buf| && off + valid <= |disk| && forall k :: 0 <= k < valid ==> buf[k] == disk[off + k]
    requires 0 < n && i + n <= valid
    ensures buf[i..i + n] == SliceAt(disk, off + i, n)
  {
    SliceMeaning(disk, off + i, n);
    forall k | i <= k < i + n
      ensures buf[k] == disk[off + k]
    {
    }
  }

  lemma {:induction false} ReadMore(disk: Bytes, start: nat, a: nat, b: nat)
    ensures SliceAt(disk, start, a) + SliceAt(disk, start + |SliceAt(disk, start, a)|, b) == SliceAt(disk, start, a + b)
    decreases a
  {
    if a > 0 && start < |disk| {
      ReadMore(disk, start + 1, a - 1, b);
    }
  }

  lemma {:induction false} ShortRead(disk: Bytes, start: nat, a: nat, b: nat)
    requires |SliceAt(disk, start, a)| < a <= b
    ensures SliceAt(disk, start, b) == SliceAt(disk, start, a)
    decreases a
  {
    if start < |disk| {
      ShortRead(disk, start + 1, a - 1, b - 1);
    }
  }

  /** Reading one more slice extends what was read; once a read comes up short, asking for more
      yields no more. */
  lemma ReadNext(disk: Bytes, start: nat, lens: seq<nat>, k: nat)
    requires k < |lens|
    ensures
      var got := SliceAt(disk, start, Sum(lens, k));
      var next := SliceAt(disk, start + |got|, lens[k]);
      && got + next == SliceAt(disk, start, Sum(lens, k + 1))
      && (|next| < lens[k] ==> got + next == SliceAt(disk, start, Sum(lens, |lens|)))
  {
    ReadMore(disk, start, Sum(lens, k), lens[k]);
    if |SliceAt(disk, start, Sum(lens, k + 1))| < Sum(lens, k + 1) {
      SumGrows(lens, k + 1, |lens|);
      ShortRead(disk, start, Sum(lens, k + 1), Sum(lens, |lens|));
    }
  }

  lemma {:induction false} SumGrows(lens: seq<nat>, k: nat, n: nat)
    requires k <= n <= |lens|
    ensures Sum(lens, k) <= Sum(lens, n)
    decreases n
  {
    if k < n {
      SumGrows(lens, k, n - 1);
    }
  }

  // ----- whole runs -----

  predicate Permitted(op: Op, writable: bool) {
    op.Write? || op.Pwrite? ==> writable
  }

  /** Any operation returns what the plain file returns and leaves the same contents and offset.
      Only a truncation that reaches into the read buffer leaves the buffer incoherent. */
  method Perform(f: OSInode, op: Op) returns (out: Out)
    requires f.Valid() && Permitted(op, f.writable)
    modifies f
    ensures (f.Abs(), out) == PlainStep(old(f.Abs()), op, f.append)
    ensures f.Valid() <==> op.Truncate? ==> old(f.Survives(op.len))
    ensures op.Seek? ==> f.readBufValid == 0
  {
    match op {
      case Read(lens) =>
        var bytes := f.Read(lens);
        return Data(bytes);
      case Write(slices) =>
        var n := f.Write(slices);
        return Count(n);
      case Pread(off, len) =>
        var bytes := f.PreadAt(off, len);
        return Data(bytes);
      case Pwrite(off, buf) =>
        var n := f.PwriteAt(off, buf);
        return Count(n);
      case Seek(off) =>
        f.SetOffset(off);
        return Done;
      case Flush =>
        f.FlushInner();
        return Done;
      case VisibleEnd =>
        var n := f.GetVisibleEnd();
        return Count(n);
      case Truncate(len) =>
        f.TruncateTo(len);
        return Done;
    }
  }

  /** Every truncation comes right after a seek, which empties the read buffer. */
  predicate SeeksFirst(ops: seq<Op>) {
    forall k :: 0 <= k < |ops| && ops[k].Truncate? ==> k > 0 && ops[k - 1].Seek?
  }

  /** Buffer coherence over whole runs: any sequence of operations on one open description returns
      exactly what a plain file returns and leaves the same contents and offset, up to and
      including the first truncation that reaches into the read buffer; the run stops there. A
      sequence without truncations, or with a seek before each, runs to its end. */
  method RunAll(f: OSInode, ops: seq<Op>) returns (outs: seq<Out>)
    requires f.Valid() && forall k :: 0 <= k < |ops| ==> Permitted(ops[k], f.writable)
    modifies f
    ensures |outs| <= |ops| && (f.Abs(), outs) == PlainRun(old(f.Abs()), ops[..|outs|], f.append)
    ensures |outs| == |ops| || (!f.Valid() && |outs| > 0 && ops[|outs| - 1].Truncate?)
    ensures SeeksFirst(ops) ==> f.Valid() && |outs| == |ops|
  {
    outs := [];
    for k := 0 to |ops|
      invariant f.Valid() && |outs| == k
      invariant (f.Abs(), outs) == PlainRun(old(f.Abs()), ops[..k], f.append)
      invariant k > 0 && ops[k - 1].Seek? ==> f.readBufValid == 0
    {
      assert ops[..k + 1][..k] == ops[..k];
      if ops[k].Truncate? && !f.Survives(ops[k].len) {
        var out := Perform(f, ops[k]);
        outs := outs + [out];
        return;
      }
      var out := Perform(f, ops[k]);
      outs := outs + [out];
    }
  }

  /** The condition is exact: after any truncation that reaches into the read buffer, there is a
      pread that returns a byte from past the end of the file. */
  method StaleReadShows(f: OSInode, n: nat) returns (pos: nat, bytes: Bytes)
    requires f.Valid() && !f.Survives(n)
    modifies f
    ensures f.Logical() == Resize(old(f.Logical()), n)
    ensures |bytes| == 1 && SliceAt(f.Logical(), pos, 1) == []
  {
    f.TruncateTo(n);
    pos := Max(n, f.readBufOff);
    bytes := f.PreadAt(pos, 1);
    SliceLen(f.Logical(), pos, 1);
  }

  /** Such a run: read from an eight-byte file, truncate it to two bytes, read its fifth byte. */
  method StaleReadExample() returns (bytes: Bytes)
    ensures bytes == [15]
  {
    var f := new OSInode([11, 12, 13, 14, 15, 16, 17, 18], true, false);
    f.PrepareReadBuf();
    SliceLen(f.disk, 0, READBUF_MIN);
    var first := f.ReadTurn(0, 4, true);
    f.TruncateTo(2);
    bytes := f.PreadAt(4, 1);
  }
}
