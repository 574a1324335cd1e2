/** Every interleaving of pipe operations. Each event is one lock section as PipeProtocol
    specifies it: a flat or scattered write section accepts Admitted bytes of its call's data
    from where the call stands, a read section takes the oldest bytes, a resize keeps them. */
module PipeRuns {
  import opened PipeRing
  import opened PipeProtocol

  /** A write call: the (flattened) bytes it was given and how many were accepted so far. */
  datatype Call = Call(data: Bytes, written: nat, nonblock: bool, active: bool)

  /** The bytes one section accepted, and for which call. */
  datatype Chunk = Chunk(call: nat, bytes: Bytes)

  datatype Sys = Sys(
    queue: Bytes,
    capacity: nat,
    limit: nat,               // /proc/sys/fs/pipe-max-size
    calls: map<nat, Call>,
    log: seq<Chunk>,          // history: what was accepted, in order
    delivered: Bytes)         // history: what readers were given, in order

  datatype Event =
    | Begin(id: nat, data: Bytes, nonblock: bool)
    | WriteSection(id: nat, readersGone: bool, giveUp: bool)   // giveUp: a signal or the deadline
    | ReadBytes(max: nat)
    | PeekBytes(max: nat)
    | Resize(size: nat, privileged: bool)
    | SetLimit(value: nat)

  function Finish(s: Sys, id: nat): Sys
    requires id in s.calls
  {
    s.(calls := s.calls[id := s.calls[id].(active := false)])
  }

  function Accept(s: Sys, id: nat, n: nat): Sys
    requires id in s.calls && s.calls[id].written + n <= |s.calls[id].data|
  {
    var c := s.calls[id];
    var bytes := c.data[c.written..c.written + n];
    var c' := c.(written := c.written + n, active := c.written + n < |c.data| && !c.nonblock);
    s.(queue := s.queue + bytes, log := s.log + [Chunk(id, bytes)], calls := s.calls[id := c'])
  }

  /** The state after an event; an event that is not enabled changes nothing. */
  function Step(s: Sys, e: Event): Sys {
    match e
    case Begin(id, data, nonblock) =>
      if id in s.calls || data == [] then s
      else s.(calls := s.calls[id := Call(data, 0, nonblock, true)])
    case WriteSection(id, readersGone, giveUp) =>
      if id !in s.calls || !s.calls[id].active || s.calls[id].written >= |s.calls[id].data| then s
      else if readersGone then Finish(s, id)
      else
        var c := s.calls[id];
        var avail := if |s.queue| <= s.capacity then s.capacity - |s.queue| else 0;
        var n := Admitted(avail, |c.data| - c.written, c.written);
        if n > 0 then Accept(s, id, n)
        else if c.nonblock || giveUp then Finish(s, id)
        else s
    case ReadBytes(max) =>
      var n := Min(max, |s.queue|);
      s.(queue := s.queue[n..], delivered := s.delivered + s.queue[..n])
    case PeekBytes(max) => s
    case Resize(size, privileged) =>
      var v := ResizeVerdict(size, |s.queue|, privileged, s.limit);
      if v.Ok? then s.(capacity := v.value) else s
    case SetLimit(value) =>
      if PIPE_BUF <= value <= MAX_CAPACITY then s.(limit := value) else s
  }

  function Run(s: Sys, events: seq<Event>): Sys {
    if events == [] then s else Step(Run(s, events[..|events| - 1]), events[|events| - 1])
  }

  /** A new pipe: nothing queued, the default capacity cut to the limit for the unprivileged. */
  predicate NewPipe(s: Sys) {
    && PIPE_BUF <= s.limit <= MAX_CAPACITY
    && (s.capacity == MAX_CAPACITY || s.capacity == Min(MAX_CAPACITY, s.limit))
    && s.queue == [] && s.log == [] && s.delivered == [] && s.calls == map[]
  }

  // ----- what every state satisfies -----

  /** The accepted bytes, in order. */
  function Stream(log: seq<Chunk>): Bytes {
    if log == [] then [] else Stream(log[..|log| - 1]) + log[|log| - 1].bytes
  }

  /** The bytes accepted for one call, in order. */
  function StreamOf(log: seq<Chunk>, id: nat): Bytes {
    if log == [] then []
    else StreamOf(log[..|log| - 1], id) + if log[|log| - 1].call == id then log[|log| - 1].bytes else []
  }

  predicate Bounded(s: Sys) {
    && PIPE_BUF <= s.capacity <= MAX_CAPACITY && PIPE_BUF <= s.limit <= MAX_CAPACITY
    && |s.queue| <= s.capacity
  }

  /** First in, first out. */
  predicate Fifo(s: Sys) {
    s.delivered + s.queue == Stream(s.log)
  }

  /** Each call's accepted bytes are the prefix of its data up to its cursor. */
  ghost predicate PrefixAccepted(s: Sys) {
    && (forall id :: id in s.calls ==>
          && s.calls[id].written <= |s.calls[id].data|
          && StreamOf(s.log, id) == s.calls[id].data[..s.calls[id].written])
    && (forall id :: id !in s.calls ==> StreamOf(s.log, id) == [])
  }

  /** A write of at most PIPE_BUF bytes is accepted whole, in one piece, or not at all. */
  ghost predicate SmallWritesWhole(s: Sys) {
    && (forall k :: 0 <= k < |s.log| ==> s.log[k].call in s.calls)
    && (forall k :: 0 <= k < |s.log| && |s.calls[s.log[k].call].data| <= PIPE_BUF ==>
          s.log[k].bytes == s.calls[s.log[k].call].data)
    && (forall id :: id in s.calls && |s.calls[id].data| <= PIPE_BUF ==>
          s.calls[id].written == 0 || s.calls[id].written == |s.calls[id].data|)
  }

  ghost predicate Inv(s: Sys) {
    Bounded(s) && Fifo(s) && PrefixAccepted(s) && SmallWritesWhole(s)
  }

  lemma StreamSnoc(log: seq<Chunk>, c: Chunk, id: nat)
    ensures Stream(log + [c]) == Stream(log) + c.bytes
    ensures StreamOf(log + [c], id) == StreamOf(log, id) + if c.call == id then c.bytes else []
  {
    assert (log + [c])[..|log|] == log;
  }

  // ----- one section -----

  lemma AcceptFifo(s: Sys, id: nat, n: nat)
    requires Fifo(s) && id in s.calls && s.calls[id].written + n <= |s.calls[id].data|
    ensures Fifo(Accept(s, id, n))
  {
    var c := s.calls[id];
    var chunk := Chunk(id, c.data[c.written..c.written + n]);
    StreamSnoc(s.log, chunk, id);
    assert s.delivered + (s.queue + chunk.bytes) == (s.delivered + s.queue) + chunk.bytes;
  }

  lemma AcceptPrefix(s: Sys, id: nat, n: nat)
    requires PrefixAccepted(s) && id in s.calls && s.calls[id].written + n <= |s.calls[id].data|
    ensures PrefixAccepted(Accept(s, id, n))
  {
    var s' := Accept(s, id, n);
    var c := s.calls[id];
    var chunk := Chunk(id, c.data[c.written..c.written + n]);
    forall other
      ensures StreamOf(s'.log, other) == StreamOf(s.log, other) + if other == id then chunk.bytes else []
    {
      StreamSnoc(s.log, chunk, other);
    }
    assert c.data[..c.written] + chunk.bytes == c.data[..c.written + n];
    forall other | other != id
      ensures StreamOf(s'.log, other) == StreamOf(s.log, other)
    {
    }
  }

  /** The PIPE_BUF rule makes the first accepted piece of a small write its whole data. */
  lemma AcceptWhole(s: Sys, id: nat, n: nat)
    requires SmallWritesWhole(s) && id in s.calls && 0 < n
    requires s.calls[id].written + n <= |s.calls[id].data|
    requires s.calls[id].written == 0 && |s.calls[id].data| <= PIPE_BUF ==> n == |s.calls[id].data|
    ensures SmallWritesWhole(Accept(s, id, n))
  {
    var s' := Accept(s, id, n);
    forall k | 0 <= k < |s'.log|
      ensures s'.log[k].call in s'.calls
      ensures s'.calls[s'.log[k].call].data == if k < |s.log| then s.calls[s.log[k].call].data else s.calls[id].data
    {
    }
  }

  lemma SectionInv(s: Sys, id: nat, n: nat)
    requires Inv(s) && id in s.calls && s.calls[id].written < |s.calls[id].data|
    requires n == Admitted(s.capacity - |s.queue|, |s.calls[id].data| - s.calls[id].written, s.calls[id].written) > 0
    ensures Inv(Accept(s, id, n))
  {
    AcceptFifo(s, id, n);
    AcceptPrefix(s, id, n);
    AcceptWhole(s, id, n);
  }

  lemma ReadInv(s: Sys, max: nat)
    requires Inv(s)
    ensures Inv(Step(s, ReadBytes(max)))
  {
    var n := Min(max, |s.queue|);
    assert (s.delivered + s.queue[..n]) + s.queue[n..] == s.delivered + s.queue;
  }

  /** A call whose data and cursor stay, or a new call at the start of its data. */
  lemma RecordInv(s: Sys, id: nat, c: Call)
    requires Inv(s)
    requires if id in s.calls then c.data == s.calls[id].data && c.written == s.calls[id].written else c.written == 0
    ensures Inv(s.(calls := s.calls[id := c]))
  {
    var s' := s.(calls := s.calls[id := c]);
    assert c.data[..0] == [];
    assert PrefixAccepted(s');
    assert SmallWritesWhole(s');
  }

  /** The number of bytes the section would accept for a call that is under way. */
  function Admissible(s: Sys, id: nat): nat
    requires Bounded(s) && id in s.calls && s.calls[id].written <= |s.calls[id].data|
  {
    Admitted(s.capacity - |s.queue|, |s.calls[id].data| - s.calls[id].written, s.calls[id].written)
  }

  predicate UnderWay(s: Sys, id: nat) {
    id in s.calls && s.calls[id].active && s.calls[id].written < |s.calls[id].data|
  }

  lemma WriteCases(s: Sys, id: nat, readersGone: bool, giveUp: bool)
    requires Bounded(s)
    ensures var s' := Step(s, WriteSection(id, readersGone, giveUp));
      || s' == s
      || (UnderWay(s, id) && s' == Finish(s, id))
      || (UnderWay(s, id) && Admissible(s, id) > 0 && s' == Accept(s, id, Admissible(s, id)))
  {
  }

  lemma WriteInv(s: Sys, id: nat, readersGone: bool, giveUp: bool)
    requires Inv(s)
    ensures Inv(Step(s, WriteSection(id, readersGone, giveUp)))
  {
    WriteCases(s, id, readersGone, giveUp);
    var s' := Step(s, WriteSection(id, readersGone, giveUp));
    if s' != s {
      if s' == Finish(s, id) {
        RecordInv(s, id, s.calls[id].(active := false));
      } else {
        SectionInv(s, id, Admissible(s, id));
      }
    }
  }

  lemma CapacityInv(s: Sys, capacity: nat, limit: nat)
    requires Inv(s) && |s.queue| <= capacity
    requires PIPE_BUF <= capacity <= MAX_CAPACITY && PIPE_BUF <= limit <= MAX_CAPACITY
    ensures Inv(s.(capacity := capacity)) && Inv(s.(limit := limit))
  {
  }

  lemma StepInv(s: Sys, e: Event)
    requires Inv(s)
    ensures Inv(Step(s, e))
  {
    match e {
      case Begin(id, data, nonblock) =>
        RecordInv(s, id, if id in s.calls then s.calls[id] else Call(data, 0, nonblock, true));
      case WriteSection(id, readersGone, giveUp) =>
        WriteInv(s, id, readersGone, giveUp);
      case ReadBytes(max) =>
        ReadInv(s, max);
      case PeekBytes(max) =>
      case Resize(size, privileged) =>
        var v := ResizeVerdict(size, |s.queue|, privileged, s.limit);
        if v.Ok? {
          ResizeGrants(size, |s.queue|, privileged, s.limit);
          CapacityInv(s, v.value, s.limit);
        }
      case SetLimit(value) =>
        if PIPE_BUF <= value <= MAX_CAPACITY {
          CapacityInv(s, s.capacity, value);
        }
    }
  }

  // ----- whole runs -----

  /** Main theorem: over any interleaving of writes, reads, peeks, resizes and limit changes,
      the bytes read followed by the bytes queued are the bytes accepted, in order; each call's
      accepted bytes are a prefix of its data; a write of at most PIPE_BUF bytes is all or
      nothing and never split; and the capacity stays within its bounds. */
  lemma {:induction false} EveryRun(s: Sys, events: seq<Event>)
    requires NewPipe(s)
    ensures Inv(Run(s, events))
  {
    if events != [] {
      EveryRun(s, events[..|events| - 1]);
      StepInv(Run(s, events[..|events| - 1]), events[|events| - 1]);
    }
  }

  /** Where in the accepted stream a chunk begins. */
  function ChunkStart(log: seq<Chunk>, k: nat): nat
    requires k < |log|
  {
    |Stream(log[..k])|
  }

  /** A chunk occupies consecutive positions of the accepted stream. */
  lemma {:induction false} ChunkContiguous(log: seq<Chunk>, k: nat)
    requires k < |log|
    ensures var p := ChunkStart(log, k);
      p + |log[k].bytes| <= |Stream(log)| && Stream(log)[p..p + |log[k].bytes|] == log[k].bytes
  {
    var n := |log| - 1;
    if k < n {
      ChunkContiguous(log[..n], k);
      assert log[..n][..k] == log[..k];
    }
  }

  predicate OccursAt(piece: Bytes, stream: Bytes, p: nat) {
    p + |piece| <= |stream| && stream[p..p + |piece|] == piece
  }

  /** PIPE_BUF atomicity, read off any reachable state: a small write that had any byte
      accepted has its whole data at consecutive positions of the stream. */
  lemma SmallWriteContiguous(s: Sys, id: nat)
    requires Inv(s) && id in s.calls && |s.calls[id].data| <= PIPE_BUF && s.calls[id].written > 0
    ensures exists p: nat :: OccursAt(s.calls[id].data, Stream(s.log), p)
  {
    var k := SomeChunk(s.log, id);
    ChunkContiguous(s.log, k);
    assert OccursAt(s.calls[id].data, Stream(s.log), ChunkStart(s.log, k));
  }

  lemma {:induction false} SomeChunk(log: seq<Chunk>, id: nat) returns (k: nat)
    requires StreamOf(log, id) != []
    ensures k < |log| && log[k].call == id
  {
    k := |log| - 1;
    if log[k].call != id {
      k := SomeChunk(log[..k], id);
    }
  }

  /** What one section of a write gets, for every call and every fill level. With a reader and any
      room at all, a write that has begun, that is larger than PIPE_BUF or whose rest fits is
      given all the room it can use; every other write is given nothing. The call goes on
      exactly while it has bytes left, may block, and is not given up while it waits. */
  lemma SectionGrants(s: Sys, id: nat, giveUp: bool)
    requires Inv(s) && UnderWay(s, id)
    ensures
      var c, s' := s.calls[id], Step(s, WriteSection(id, false, giveUp));
      var room, rest := s.capacity - |s.queue|, |c.data| - c.written;
      var served := room > 0 && (c.written > 0 || rest > PIPE_BUF || rest <= room);
      var got := if !served then 0 else if rest <= room then rest else room;
      && id in s'.calls && s'.calls[id].data == c.data && s'.calls[id].written == c.written + got
      && s'.queue == s.queue + c.data[c.written..c.written + got]
      && (s'.calls[id].active <==> !c.nonblock && got < rest && (served || !giveUp))
      && (forall other :: other != id ==> (other in s'.calls <==> other in s.calls))
      && (forall other :: other in s.calls && other != id ==> s'.calls[other] == s.calls[other])
      && s'.capacity == s.capacity && s'.delivered == s.delivered
  {
    assert s.queue + [] == s.queue;
  }

  /** With no reader left nothing is accepted and the call ends. */
  lemma SectionBroken(s: Sys, id: nat, giveUp: bool)
    requires Inv(s) && UnderWay(s, id)
    ensures
      var c, s' := s.calls[id], Step(s, WriteSection(id, true, giveUp));
      && id in s'.calls && s'.calls[id].written == c.written && !s'.calls[id].active
      && s'.queue == s.queue && s'.log == s.log
  {
  }

  /** A read is given the oldest bytes, as many as it asks for and the pipe has; they are gone
      from the pipe, and the room they took is there for writers. */
  lemma ReadTakesOldest(s: Sys, max: nat)
    requires Inv(s)
    ensures
      var s' := Step(s, ReadBytes(max));
      && |s'.delivered| == |s.delivered| + (if max <= |s.queue| then max else |s.queue|)
      && s'.delivered + s'.queue == s.delivered + s.queue
      && s'.calls == s.calls && s'.capacity == s.capacity
  {
    var n := Min(max, |s.queue|);
    assert s.queue[..n] + s.queue[n..] == s.queue;
  }

  /** A writer that finds the pipe empty never waits, whatever the size of its write. */
  lemma EmptyPipeNeverWaits(s: Sys, id: nat)
    requires Inv(s) && s.queue == [] && id in s.calls && s.calls[id].active && s.calls[id].written < |s.calls[id].data|
    ensures var s' := Step(s, WriteSection(id, false, false));
      s'.calls[id].written > s.calls[id].written &&
      (|s.calls[id].data| - s.calls[id].written <= PIPE_BUF ==> s'.calls[id].written == |s.calls[id].data|)
  {
  }
}
