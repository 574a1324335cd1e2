/** The pipe's ring buffer: three states, chunked copies, live resizing, and the copy loops of
    one lock section (src/fs/pipe.rs). */
module PipeRing {

  type u8 = x: int | 0 <= x < 0x100
  type Bytes = seq<u8>

  const PIPE_BUF: nat := 4096
  const MAX_CAPACITY: nat := 65536   // 16 * PIPE_BUF, also the default

  datatype Status = FULL | EMPTY | NORMAL

  datatype Errno = EINVAL | EPERM | EBUSY | EAGAIN | EINTR | EPIPE

  datatype Result = Ok(value: nat) | Err(error: Errno)

  function Min(a: nat, b: nat): nat { if a <= b then a else b }

  /** The index k positions after head. */
  function At(capacity: nat, head: nat, k: nat): nat {
    if head + k < capacity then head + k else head + k - capacity
  }

  /** n bytes from `head` on in a ring of the given capacity. */
  function RingSlice(arr: Bytes, capacity: nat, head: nat, n: nat): (r: Bytes)
    requires head < capacity <= |arr| && n <= capacity
    ensures |r| == n
  {
    seq(n, k requires 0 <= k < n => arr[At(capacity, head, k)])
  }

  lemma RingSliceAt(arr: Bytes, capacity: nat, head: nat, n: nat, k: nat)
    requires head < capacity <= |arr| && k < n <= capacity
    ensures RingSlice(arr, capacity, head, n)[k] == arr[At(capacity, head, k)]
  {
  }

  /** Overwrite `src` into `arr` at `at`. */
  function Splice(arr: Bytes, at: nat, src: Bytes): (r: Bytes)
    requires at + |src| <= |arr|
    ensures |r| == |arr|
  {
    arr[..at] + src + arr[at + |src|..]
  }

  lemma SpliceAt(arr: Bytes, at: nat, src: Bytes, k: nat)
    requires at + |src| <= |arr| && k < |arr|
    ensures Splice(arr, at, src)[k] == if at <= k < at + |src| then src[k - at] else arr[k]
  {
  }

  lemma SpliceNothing(arr: Bytes, at: nat)
    requires at <= |arr|
    ensures Splice(arr, at, []) == arr
  {
  }

  lemma SpliceTwice(arr: Bytes, at: nat, x: Bytes, y: Bytes)
    requires at + |x| + |y| <= |arr|
    ensures Splice(Splice(arr, at, x), at + |x|, y) == Splice(arr, at, x + y)
    ensures y == [] ==> Splice(arr, at, x) == Splice(arr, at, x + y)
  {
  }

  // ----- the ring as a value -----

  /** The state of a ring buffer; an empty arr means the backing is not allocated yet. */
  datatype Ring = Ring(arr: Bytes, capacity: nat, head: nat, tail: nat, status: Status)

  predicate ValidRing(r: Ring) {
    && PIPE_BUF <= r.capacity <= MAX_CAPACITY
    && r.head < r.capacity && r.tail < r.capacity
    && (|r.arr| == 0 || |r.arr| == MAX_CAPACITY)
    && (r.status != EMPTY ==> |r.arr| == MAX_CAPACITY)
    && (r.status == NORMAL <==> r.head != r.tail)
  }

  function Used(r: Ring): (n: nat)
    requires ValidRing(r)
    ensures n <= r.capacity
  {
    if r.status == EMPTY then 0
    else if r.status == FULL then r.capacity
    else if r.tail > r.head then r.tail - r.head
    else r.tail + r.capacity - r.head
  }

  function Free(r: Ring): nat
    requires ValidRing(r)
  {
    if r.status == FULL then 0 else r.capacity - Used(r)
  }

  /** The queued bytes, oldest first. */
  function Queue(r: Ring): (q: Bytes)
    requires ValidRing(r)
    ensures |q| == Used(r)
  {
    if r.status == EMPTY then [] else RingSlice(r.arr, r.capacity, r.head, Used(r))
  }

  /** The bytes copied out of the first n queued ones: up to the wrap, then after it. */
  function FirstBytes(r: Ring, n: nat): (Bytes, Bytes)
    requires ValidRing(r) && 0 < n <= Used(r)
  {
    var first := Min(n, r.capacity - r.head);
    (r.arr[r.head..r.head + first], r.arr[..n - first])
  }

  lemma FirstBytesArePrefix(r: Ring, n: nat)
    requires ValidRing(r) && 0 < n <= Used(r)
    ensures FirstBytes(r, n).0 + FirstBytes(r, n).1 == Queue(r)[..n]
  {
  }

  function Taken(r: Ring, n: nat): Ring
    requires ValidRing(r) && 0 < n <= Used(r)
  {
    var head := At(r.capacity, r.head, n);
    r.(head := head, status := if head == r.tail then EMPTY else NORMAL)
  }

  /** Consuming n bytes removes exactly the oldest n. */
  lemma TakenQueue(r: Ring, n: nat)
    requires ValidRing(r) && 0 < n <= Used(r)
    ensures ValidRing(Taken(r, n)) && Queue(Taken(r, n)) == Queue(r)[n..]
  {
    TakenUsed(r, n);
    forall k: nat | k < Used(r) - n
      ensures Queue(Taken(r, n))[k] == Queue(r)[n + k]
    {
      TakenAt(r, n, k);
    }
  }

  lemma TakenUsed(r: Ring, n: nat)
    requires ValidRing(r) && 0 < n <= Used(r)
    ensures ValidRing(Taken(r, n)) && Used(Taken(r, n)) == Used(r) - n
  {
  }

  lemma TakenAt(r: Ring, n: nat, k: nat)
    requires ValidRing(r) && 0 < n <= Used(r) && k < Used(r) - n
    requires ValidRing(Taken(r, n)) && Used(Taken(r, n)) == Used(r) - n
    ensures Queue(Taken(r, n))[k] == Queue(r)[n + k]
  {
    RingSliceAt(r.arr, r.capacity, Taken(r, n).head, Used(r) - n, k);
    RingSliceAt(r.arr, r.capacity, r.head, Used(r), n + k);
  }

  function Backing(r: Ring): (arr: Bytes)
    requires ValidRing(r)
    ensures |arr| == MAX_CAPACITY
  {
    if |r.arr| == 0 then seq(MAX_CAPACITY, _ => 0) else r.arr
  }

  function Put(r: Ring, src: Bytes): Ring
    requires ValidRing(r) && 0 < |src| <= Free(r)
  {
    var first := Min(|src|, r.capacity - r.tail);
    var arr := Splice(Splice(Backing(r), r.tail, src[..first]), 0, src[first..]);
    var tail := At(r.capacity, r.tail, |src|);
    r.(arr := arr, tail := tail, status := if tail == r.head then FULL else NORMAL)
  }

  /** Appending puts the source after the queued bytes and disturbs none of them. */
  lemma PutQueue(r: Ring, src: Bytes)
    requires ValidRing(r) && 0 < |src| <= Free(r)
    ensures ValidRing(Put(r, src)) && Queue(Put(r, src)) == Queue(r) + src
  {
    PutValid(r, src);
    forall k | 0 <= k < Used(r) + |src|
      ensures Queue(Put(r, src))[k] == (Queue(r) + src)[k]
    {
      PutQueueAt(r, src, k);
    }
  }

  lemma PutBacked(r: Ring, src: Bytes)
    requires ValidRing(r) && 0 < |src| <= Free(r)
    ensures var b := r.(arr := Backing(r)); ValidRing(b) && Used(b) == Used(r) && Put(b, src) == Put(r, src)
  {
  }

  lemma PutValid(r: Ring, src: Bytes)
    requires ValidRing(r) && 0 < |src| <= Free(r)
    ensures ValidRing(Put(r, src)) && Used(Put(r, src)) == Used(r) + |src|
  {
  }

  lemma PutQueueAt(r: Ring, src: Bytes, k: nat)
    requires ValidRing(r) && 0 < |src| <= Free(r) && k < Used(r) + |src|
    requires ValidRing(Put(r, src)) && Used(Put(r, src)) == Used(r) + |src|
    ensures Queue(Put(r, src))[k] == if k < Used(r) then Queue(r)[k] else src[k - Used(r)]
  {
    var t := Put(r, src);
    RingSliceAt(t.arr, t.capacity, t.head, Used(t), k);
    PutAt(r, src, k);
    if k < Used(r) {
      RingSliceAt(r.arr, r.capacity, r.head, Used(r), k);
    }
  }

  lemma PutAt(r: Ring, src: Bytes, k: nat)
    requires ValidRing(r) && 0 < |src| <= Free(r) && k < Used(r) + |src|
    ensures At(r.capacity, r.head, k) < r.capacity
    ensures Put(r, src).arr[At(r.capacity, r.head, k)]
         == if k < Used(r) then Backing(r)[At(r.capacity, r.head, k)] else src[k - Used(r)]
  {
    var first := Min(|src|, r.capacity - r.tail);
    var j := At(r.capacity, r.head, k);
    PutIndex(r, |src|, k);
    SpliceAt(Splice(Backing(r), r.tail, src[..first]), 0, src[first..], j);
    SpliceAt(Backing(r), r.tail, src[..first], j);
  }

  /** Where the k-th byte from the head lies relative to the two written pieces. */
  lemma PutIndex(r: Ring, n: nat, k: nat)
    requires ValidRing(r) && 0 < n <= Free(r) && k < Used(r) + n
    ensures var first := Min(n, r.capacity - r.tail);
      var j := At(r.capacity, r.head, k);
      && j < r.capacity
      && (k < Used(r) ==> !(r.tail <= j < r.tail + first) && j >= n - first)
      && (Used(r) <= k < Used(r) + first ==> j == r.tail + (k - Used(r)) && j >= n - first)
      && (Used(r) + first <= k ==> j == k - Used(r) - first)
  {
  }

  /** The ring after a resize: the queued bytes moved to the front. */
  function Resized(r: Ring, capacity: nat): Ring
    requires ValidRing(r) && Used(r) <= capacity <= MAX_CAPACITY
  {
    var used := Used(r);
    Ring(if used > 0 then Splice(r.arr, 0, Queue(r)) else r.arr,
         capacity,
         0,
         if used == capacity then 0 else used,
         if used == 0 then EMPTY else if used == capacity then FULL else NORMAL)
  }

  lemma ResizedUsed(r: Ring, capacity: nat)
    requires ValidRing(r) && Used(r) <= capacity <= MAX_CAPACITY && PIPE_BUF <= capacity
    ensures ValidRing(Resized(r, capacity)) && Used(Resized(r, capacity)) == Used(r)
  {
  }

  lemma ResizedAt(r: Ring, capacity: nat, k: nat)
    requires ValidRing(r) && k < Used(r) <= capacity <= MAX_CAPACITY && PIPE_BUF <= capacity
    requires ValidRing(Resized(r, capacity)) && Used(Resized(r, capacity)) == Used(r)
    ensures Queue(Resized(r, capacity))[k] == Queue(r)[k]
  {
    RingSliceAt(Resized(r, capacity).arr, capacity, 0, Used(r), k);
    SpliceAt(r.arr, 0, Queue(r), k);
  }

  lemma ResizedQueue(r: Ring, capacity: nat)
    requires ValidRing(r) && Used(r) <= capacity <= MAX_CAPACITY && PIPE_BUF <= capacity
    ensures ValidRing(Resized(r, capacity)) && Queue(Resized(r, capacity)) == Queue(r)
  {
    ResizedUsed(r, capacity);
    forall k: nat | k < Used(r)
      ensures Queue(Resized(r, capacity))[k] == Queue(r)[k]
    {
      ResizedAt(r, capacity, k);
    }
  }

  // ----- resize requests -----

  /** The capacity a resize request is rounded to. */
  function RoundedCapacity(size: nat): nat {
    var base := if size <= PIPE_BUF then PIPE_BUF else size;
    (base + (PIPE_BUF - 1)) / PIPE_BUF * PIPE_BUF
  }

  /** The verdict on a resize request, given the bytes now queued. */
  function ResizeVerdict(size: nat, used: nat, privileged: bool, limit: nat): Result {
    if size > 0x8000_0000 then Err(EINVAL)
    else
      var c := RoundedCapacity(size);
      if !privileged && c > limit then Err(EPERM)
      else if c > MAX_CAPACITY then Err(EINVAL)
      else if used > c then Err(EBUSY)
      else Ok(c)
  }

  /** A granted capacity is the least page multiple that holds the request, within bounds. */
  lemma ResizeGrants(size: nat, used: nat, privileged: bool, limit: nat)
    requires ResizeVerdict(size, used, privileged, limit).Ok?
    ensures var c := ResizeVerdict(size, used, privileged, limit).value;
      && PIPE_BUF <= c <= MAX_CAPACITY && c % PIPE_BUF == 0
      && size <= c && used <= c && (c - PIPE_BUF < size || c == PIPE_BUF)
      && (!privileged ==> c <= limit)
  {
  }

  /** c is the least positive number of whole pages that holds the request. */
  predicate LeastPages(c: nat, size: nat) {
    c % PIPE_BUF == 0 && c >= PIPE_BUF && c >= size && (c == PIPE_BUF || c - PIPE_BUF < size)
  }

  /** Every verdict, in terms of the least capacity that holds the request: which requests are
      granted, and with which error the others are refused. */
  lemma ResizeVerdicts(size: nat, used: nat, privileged: bool, limit: nat, c: nat)
    requires LeastPages(c, size) && limit <= MAX_CAPACITY
    ensures var v := ResizeVerdict(size, used, privileged, limit);
      && (v == Ok(c) <==> used <= c <= MAX_CAPACITY && (privileged || c <= limit))
      && (v == Err(EPERM) <==> size <= 0x8000_0000 && !privileged && c > limit)
      && (v == Err(EINVAL) <==> size > 0x8000_0000 || (privileged && c > MAX_CAPACITY))
      && (v == Err(EBUSY) <==> used > c && c <= MAX_CAPACITY && (privileged || c <= limit))
      && (v.Ok? ==> v.value == c)
  {
    assert RoundedCapacity(size) == c;
  }

  ghost predicate Inside(k: int) {
    true
  }

  class PipeRingBuffer {
    ghost var queue: Bytes   // the queued bytes, oldest first
    var arr: array?<u8>      // allocated on the first write
    var capacity: nat
    var head: nat
    var tail: nat
    var status: Status

    ghost function View(): Ring
      reads this, arr
    {
      Ring(if arr == null then [] else arr[..], capacity, head, tail, status)
    }

    /** The fields represent the queue. */
    ghost predicate Represents()
      reads this, arr
    {
      ValidRing(View()) && (arr != null ==> arr.Length == MAX_CAPACITY) && queue == Queue(View())
    }

    /** What callers reason with is the queue and the capacity; the representation is kept
        behind the trigger Inside, which only this class mentions. */
    ghost predicate Valid()
      reads this, arr
    {
      && PIPE_BUF <= capacity <= MAX_CAPACITY && |queue| <= capacity
      && forall k {:trigger Inside(k)} :: Inside(k) ==> Represents()
    }

    ghost function Repr(): set<object>
      reads this
    {
      {this} + if arr != null then {arr} else {}
    }

    function AvailableRead(): (n: nat)
      requires Valid()
      reads this, arr
      ensures n == |queue|
    {
      assert Inside(0);
      if status == EMPTY then 0
      else if status == FULL then capacity
      else if tail > head then tail - head
      else tail + capacity - head
    }

    function AvailableWrite(): (n: nat)
      requires Valid()
      reads this, arr
      ensures n == capacity - |queue|
    {
      assert Inside(0);
      if status == FULL then 0 else capacity - AvailableRead()
    }

    constructor (privileged: bool, limit: nat)
      requires PIPE_BUF <= limit <= MAX_CAPACITY
      ensures Valid() && queue == [] && fresh(Repr())
      ensures capacity == if privileged then MAX_CAPACITY else Min(MAX_CAPACITY, limit)
    {
      arr := null;
      capacity := if privileged then MAX_CAPACITY else Min(MAX_CAPACITY, limit);
      head, tail, status, queue := 0, 0, EMPTY, [];
    }

    /** Copy up to hi - lo queued bytes into dst[lo..hi] without consuming them. */
    method PeekInto(dst: array<u8>, lo: nat, hi: nat) returns (n: nat)
      requires Valid() && dst != arr && lo <= hi <= dst.Length
      modifies dst
      ensures Valid() && View() == old(View())
      ensures n == Min(hi - lo, |queue|)
      ensures dst[..] == Splice(old(dst[..]), lo, queue[..n])
    {
      n := Min(hi - lo, AvailableRead());
      if n == 0 {
        SpliceNothing(dst[..], lo);
        return;
      }
      var x, y := FirstChunks(n);
      CopyTwo(dst, lo, x, y);
    }

    /** The two source chunks of a copy of n queued bytes. */
    method FirstChunks(n: nat) returns (x: Bytes, y: Bytes)
      requires Valid() && 0 < n <= |queue|
      ensures x + y == queue[..n]
    {
      assert Inside(0);
      FirstBytesArePrefix(View(), n);
      var first := Min(n, capacity - head);
      x, y := arr[head..head + first], arr[..n - first];
      assert (x, y) == FirstBytes(View(), n);
    }

    /** Copy up to hi - lo queued bytes into dst[lo..hi] and consume them. */
    method ReadIntoSlice(dst: array<u8>, lo: nat, hi: nat) returns (n: nat)
      requires Valid() && dst != arr && lo <= hi <= dst.Length
      modifies dst, this
      ensures Valid() && arr == old(arr) && capacity == old(capacity)
      ensures n == Min(hi - lo, old(|queue|))
      ensures dst[..] == Splice(old(dst[..]), lo, old(queue)[..n])
      ensures queue == old(queue)[n..]
    {
      n := PeekInto(dst, lo, hi);
      if n == 0 {
        return;
      }
      assert Inside(0);
      TakenQueue(View(), n);
      head := WrapIndex(head + n, capacity);
      status := if head == tail then EMPTY else NORMAL;
      queue := queue[n..];
      assert View() == Taken(old(View()), n);
    }

    method EnsureBacking()
      requires Represents()
      modifies this
      ensures arr != null && View() == old(View()).(arr := old(Backing(View()))) && Represents() && queue == old(queue)
      ensures old(arr) != null ==> arr == old(arr)
      ensures old(arr) == null ==> fresh(arr)
    {
      if arr == null {
        arr := new u8[65536](_ => 0);
        assert arr[..] == seq(MAX_CAPACITY, _ => 0);
      }
    }

    /** Append as much of src as fits, in up to two contiguous chunks. */
    method WriteFromSlice(src: Bytes) returns (n: nat)
      requires Valid()
      modifies Repr()
      ensures Valid() && capacity == old(capacity)
      ensures old(arr) != null ==> arr == old(arr)
      ensures old(arr) == null && arr != null ==> fresh(arr)
      ensures n == Min(|src|, capacity - |old(queue)|)
      ensures queue == old(queue) + src[..n]
    {
      n := Min(|src|, AvailableWrite());
      if n == 0 {
        assert src[..0] == [] && queue + [] == queue;
        return;
      }
      Append(src[..n]);
    }

    method Append(src: Bytes)
      requires Valid() && 0 < |src| <= capacity - |queue|
      modifies Repr()
      ensures Valid() && capacity == old(capacity)
      ensures old(arr) != null ==> arr == old(arr)
      ensures old(arr) == null && arr != null ==> fresh(arr)
      ensures queue == old(queue) + src
    {
      assert Inside(0);
      PutQueue(View(), src);
      PutBacked(View(), src);
      EnsureBacking();
      PutBytes(src);
      queue := queue + src;
      assert View() == Put(old(View()), src);
    }

    /** Copy src to the tail of an allocated backing and advance the tail. */
    method PutBytes(src: Bytes)
      requires Represents() && arr != null && 0 < |src| <= Free(View())
      modifies this, arr
      ensures arr == old(arr) && View() == Put(old(View()), src) && queue == old(queue)
    {
      var first := Min(|src|, capacity - tail);
      CopyInto(arr, tail, src[..first]);
      CopyInto(arr, 0, src[first..]);
      assert arr[..] == Put(old(View()), src).arr;
      tail := WrapIndex(tail + |src|, capacity);
      status := if tail == head then FULL else NORMAL;
    }

    /** F_SETPIPE_SZ: change the capacity, moving the queued bytes to the front. */
    method SetPipeSize(size: nat, privileged: bool, limit: nat) returns (r: Result)
      requires Valid()
      modifies Repr()
      ensures Valid() && arr == old(arr)
      ensures r == old(ResizeVerdict(size, |queue|, privileged, limit))
      ensures queue == old(queue)
      ensures capacity == if r.Ok? then r.value else old(capacity)
    {
      if size > 0x8000_0000 {
        return Err(EINVAL);
      }
      var base := if size == 0 then PIPE_BUF else if size >= PIPE_BUF then size else PIPE_BUF;
      var newCapacity := (base + (PIPE_BUF - 1)) / PIPE_BUF * PIPE_BUF;
      assert newCapacity == RoundedCapacity(size);
      if !privileged && newCapacity > limit {
        return Err(EPERM);
      }
      if newCapacity > MAX_CAPACITY {
        return Err(EINVAL);
      }
      var used := AvailableRead();
      if newCapacity == capacity {
        return Ok(capacity);
      }
      if used > newCapacity {
        return Err(EBUSY);
      }
      Rearrange(newCapacity, used);
      return Ok(capacity);
    }

    /** The queued bytes, copied out. */
    method Snapshot() returns (data: Bytes)
      requires Valid()
      ensures data == queue
    {
      var used := AvailableRead();
      var copy := new u8[used];
      var copied := PeekInto(copy, 0, used);
      data := copy[..];
      assert queue[..used] == queue;
    }

    /** Move the queued bytes to the front of the backing under a new capacity. */
    method Rearrange(newCapacity: nat, used: nat)
      requires Valid() && used == |queue| <= newCapacity && PIPE_BUF <= newCapacity <= MAX_CAPACITY
      modifies Repr()
      ensures Valid() && arr == old(arr) && capacity == newCapacity
      ensures queue == old(queue)
    {
      assert Inside(0);
      ResizedQueue(View(), newCapacity);
      var data := Snapshot();
      capacity := newCapacity;
      head := 0;
      tail := if used == newCapacity then 0 else used;
      status := if used == 0 then EMPTY else if used == newCapacity then FULL else NORMAL;
      if used > 0 {
        CopyInto(arr, 0, data);
      }
      assert View() == Resized(old(View()), newCapacity);
    }
  }

  /** copy_from_slice into dst at an offset. */
  method CopyInto(dst: array<u8>, at: nat, src: Bytes)
    requires at + |src| <= dst.Length
    modifies dst
    ensures dst[..] == Splice(old(dst[..]), at, src)
  {
    forall k | 0 <= k < |src| {
      dst[at + k] := src[k];
    }
  }

  method CopyTwo(dst: array<u8>, at: nat, x: Bytes, y: Bytes)
    requires at + |x| + |y| <= dst.Length
    modifies dst
    ensures dst[..] == Splice(old(dst[..]), at, x + y)
  {
    SpliceTwice(dst[..], at, x, y);
    CopyInto(dst, at, x);
    if |y| > 0 {
      CopyInto(dst, at + |x|, y);
    }
  }

  /** The next ring index: reduce modulo the capacity. */
  method WrapIndex(i: nat, capacity: nat) returns (r: nat)
    requires capacity > 0 && i < 2 * capacity
    ensures r == At(capacity, 0, i)
  {
    r := i % capacity;
    WrapMod(i, capacity);
  }

  lemma WrapMod(i: nat, c: nat)
    requires c > 0 && i < 2 * c
    ensures i % c == if i < c then i else i - c
  {
    var q := i / c;
    assert i == c * q + i % c;
    if q >= 2 {
      Doubles(c, q);
    } else if q == 1 {
      assert c * q == c;
    }
  }

  lemma Doubles(c: nat, q: nat)
    requires q >= 2
    ensures c * q >= 2 * c
  {
  }
}
