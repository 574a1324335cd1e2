/** A pipe as its lock sections run it on the ring buffer (src/fs/pipe.rs), refining the runs of
    PipeRuns: every section on the ring is the step of the same name. */
module PipeSystem {
  import opened PipeRing
  import opened PipeProtocol
  import opened PipeRuns

  /** What a write call copies from: flat data, or scattered user buffers with a cursor. */
  datatype Source =
    | FlatData(data: Bytes)
    | Scattered(buffers: seq<Bytes>, index: nat, offset: nat)

  datatype UserCall = UserCall(source: Source, written: nat, nonblock: bool, active: bool)

  ghost function DataOf(source: Source): Bytes {
    match source case FlatData(data) => data case Scattered(buffers, _, _) => Flat(buffers)
  }

  function LengthOf(source: Source): nat {
    match source case FlatData(data) => |data| case Scattered(buffers, _, _) => TotalLen(buffers)
  }

  lemma LengthMeaning(source: Source)
    ensures LengthOf(source) == |DataOf(source)|
  {
    if source.Scattered? {
      FlatLen(source.buffers, |source.buffers|);
    }
  }

  ghost function Abstract(c: UserCall): Call { Call(DataOf(c.source), c.written, c.nonblock, c.active) }

  /** The cursor denotes the accepted prefix. */
  predicate WellPlaced(c: UserCall) {
    c.source.Scattered? ==>
      var Scattered(buffers, index, offset) := c.source;
      ValidCursor(buffers, index, offset) && CursorPos(buffers, index, offset) == c.written
  }

  datatype Request =
    | WriteFlat(id: nat, data: Bytes, nonblock: bool)
    | WriteScattered(id: nat, buffers: seq<Bytes>, nonblock: bool)
    | Section(id: nat, readersGone: bool, giveUp: bool)
    | Read(max: nat)
    | Peek(max: nat)
    | SetSize(size: nat, privileged: bool)
    | SetMaxSize(value: nat)

  function EventOf(r: Request): Event {
    match r
    case WriteFlat(id, data, nonblock) => Begin(id, data, nonblock)
    case WriteScattered(id, buffers, nonblock) => Begin(id, Flat(buffers), nonblock)
    case Section(id, readersGone, giveUp) => WriteSection(id, readersGone, giveUp)
    case Read(max) => ReadBytes(max)
    case Peek(max) => PeekBytes(max)
    case SetSize(size, privileged) => Resize(size, privileged)
    case SetMaxSize(value) => SetLimit(value)
  }

  function EventsOf(rs: seq<Request>): seq<Event> {
    if rs == [] then [] else EventsOf(rs[..|rs| - 1]) + [EventOf(rs[|rs| - 1])]
  }

  ghost function Abstracts(calls: map<nat, UserCall>): map<nat, Call> { map id | id in calls :: Abstract(calls[id]) }

  lemma AbstractsUpdate(calls: map<nat, UserCall>, id: nat, c: UserCall)
    ensures Abstracts(calls[id := c]) == Abstracts(calls)[id := Abstract(c)]
  {
  }

  class Pipe {
    const ring: PipeRingBuffer
    var limit: nat
    var calls: map<nat, UserCall>
    ghost var log: seq<Chunk>
    ghost var delivered: Bytes

    ghost function View(): Sys
      reads this, ring
    {
      Sys(ring.queue, ring.capacity, limit, Abstracts(calls), log, delivered)
    }

    ghost predicate Valid()
      reads this, ring, ring.arr
    {
      ring.Valid() && forall id :: id in calls ==> WellPlaced(calls[id])
    }

    constructor (privileged: bool, limit: nat)
      requires PIPE_BUF <= limit <= MAX_CAPACITY
      ensures Valid() && NewPipe(View()) && fresh(ring.Repr())
    {
      ring := new PipeRingBuffer(privileged, limit);
      this.limit, calls, log, delivered := limit, map[], [], [];
      new;
      assert Abstracts(calls) == map[];
    }

    /** A write call starts. */
    method StartCall(id: nat, source: Source, nonblock: bool)
      requires Valid() && WellPlaced(UserCall(source, 0, nonblock, true))
      modifies this`calls
      ensures Valid() && View() == Step(old(View()), Begin(id, DataOf(source), nonblock))
    {
      var c := UserCall(source, 0, nonblock, true);
      AbstractsUpdate(calls, id, c);
      LengthMeaning(source);
      if id in calls || LengthOf(source) == 0 {
        return;
      }
      calls := calls[id := c];
    }

    /** The copying part of a write section: what is admitted goes into the ring. */
    method CopyAdmitted(c: UserCall) returns (n: nat, source: Source)
      requires ring.Valid() && WellPlaced(c) && c.written < |DataOf(c.source)|
      modifies ring.Repr()
      ensures ring.Valid() && ring.capacity == old(ring.capacity) && fresh(ring.Repr() - old(ring.Repr()))
      ensures n == Admitted(old(ring.capacity - |ring.queue|), |DataOf(c.source)| - c.written, c.written)
      ensures c.written + n <= |DataOf(c.source)|
      ensures ring.queue == old(ring.queue) + DataOf(c.source)[c.written..c.written + n]
      ensures DataOf(source) == DataOf(c.source) && WellPlaced(c.(source := source, written := c.written + n))
    {
      match c.source
      case FlatData(data) =>
        n := FlatSection(ring, data, c.written);
        source := c.source;
      case Scattered(buffers, index, offset) =>
        var index', offset';
        n, index', offset' := ScatterSection(ring, buffers, index, offset, c.written);
        source := Scattered(buffers, index', offset');
    }

    /** One lock section of a write call. */
    method WriteOnce(id: nat, readersGone: bool, giveUp: bool)
      requires Valid()
      modifies this, ring.Repr()
      ensures Valid() && fresh(ring.Repr() - old(ring.Repr()))
      ensures View() == Step(old(View()), WriteSection(id, readersGone, giveUp))
    {
      if id !in calls {
        return;
      }
      LengthMeaning(calls[id].source);
      if !calls[id].active || calls[id].written >= LengthOf(calls[id].source) {
        return;
      }
      if readersGone {
        EndCall(id);
      } else {
        WriteActive(id, giveUp);
      }
    }

    method EndCall(id: nat)
      requires Valid() && id in calls
      modifies this`calls
      ensures Valid() && View() == Finish(old(View()), id)
    {
      AbstractsUpdate(calls, id, calls[id].(active := false));
      calls := calls[id := calls[id].(active := false)];
    }

    method WriteActive(id: nat, giveUp: bool)
      requires Valid() && UnderWay(View(), id)
      modifies this, ring.Repr()
      ensures Valid() && fresh(ring.Repr() - old(ring.Repr()))
      ensures View() == Step(old(View()), WriteSection(id, false, giveUp))
    {
      ghost var s := View();
      ActiveStep(s, id, giveUp);
      var c := calls[id];
      var n, source := CopyAdmitted(c);
      assert View() == s.(queue := s.queue + s.calls[id].data[c.written..c.written + n]);
      if n > 0 {
        LengthMeaning(c.source);
        Record(id, n, source, c.written + n < LengthOf(c.source) && !c.nonblock);
      } else {
        assert View() == s;
        if c.nonblock || giveUp {
          EndCall(id);
        }
      }
    }

    /** The call moves on by n bytes. */
    method Record(id: nat, n: nat, source: Source, active: bool)
      requires Valid() && id in calls && calls[id].written + n <= |DataOf(calls[id].source)|
      requires DataOf(source) == DataOf(calls[id].source)
      requires WellPlaced(calls[id].(source := source, written := calls[id].written + n))
      modifies this`calls, this`log
      ensures Valid()
      ensures
        var c := old(View()).calls[id];
        View() == old(View()).(calls := old(View()).calls[id := c.(written := c.written + n, active := active)],
                               log := old(log) + [Chunk(id, c.data[c.written..c.written + n])])
    {
      var c := calls[id];
      var c' := UserCall(source, c.written + n, c.nonblock, active);
      AbstractsUpdate(calls, id, c');
      log := log + [Chunk(id, DataOf(c.source)[c.written..c.written + n])];
      calls := calls[id := c'];
    }

    /** One lock section of a read that does not wait. */
    method ReadOnce(max: nat) returns (out: Bytes)
      requires Valid()
      modifies this, ring.Repr()
      ensures Valid() && fresh(ring.Repr() - old(ring.Repr()))
      ensures View() == Step(old(View()), ReadBytes(max)) && delivered == old(delivered) + out
    {
      out := TakeOldest(max);
      delivered := delivered + out;
    }

    method TakeOldest(max: nat) returns (out: Bytes)
      requires Valid()
      modifies ring.Repr()
      ensures Valid() && ring.Repr() == old(ring.Repr()) && ring.capacity == old(ring.capacity)
      ensures var n := Min(max, |old(ring.queue)|); out == old(ring.queue)[..n] && ring.queue == old(ring.queue)[n..]
    {
      var dst := new u8[max];
      ghost var before := dst[..];
      var r := ReadSection(ring, dst, false, true, false, false, false);
      if r.Read? {
        SplicedStart(before, old(ring.queue)[..r.n]);
        out := dst[..r.n];
      } else {
        out := [];
      }
    }

    method PeekOnce(max: nat) returns (out: Bytes)
      requires Valid()
      ensures out == ring.queue[..Min(max, |ring.queue|)]
    {
      var dst := new u8[max];
      var n := ring.PeekInto(dst, 0, max);
      out := dst[..n];
    }

    method ResizeOnce(size: nat, privileged: bool)
      requires Valid()
      modifies ring.Repr()
      ensures Valid() && ring.Repr() == old(ring.Repr()) && View() == Step(old(View()), Resize(size, privileged))
    {
      var r := ring.SetPipeSize(size, privileged, limit);
    }

    /** Any request is the step of its event. */
    method Perform(r: Request)
      requires Valid()
      modifies this, ring.Repr()
      ensures Valid() && fresh(ring.Repr() - old(ring.Repr())) && View() == Step(old(View()), EventOf(r))
    {
      match r
      case WriteFlat(id, data, nonblock) => StartCall(id, FlatData(data), nonblock);
      case WriteScattered(id, buffers, nonblock) => StartCall(id, Scattered(buffers, 0, 0), nonblock);
      case Section(id, readersGone, giveUp) => WriteOnce(id, readersGone, giveUp);
      case Read(max) => var out := ReadOnce(max);
      case Peek(max) => var out := PeekOnce(max);
      case SetSize(size, privileged) => ResizeOnce(size, privileged);
      case SetMaxSize(value) =>
        if PIPE_BUF <= value <= MAX_CAPACITY {
          limit := value;
        }
    }
  }

  /** Main theorem: whatever requests a new pipe is given, in any interleaving, the ring buffer
      goes through the run of PipeRuns, so order, prefixes, wholeness of small writes and the
      capacity bounds hold of the bytes in the ring. */
  method RunRequests(privileged: bool, limit: nat, requests: seq<Request>) returns (pipe: Pipe)
    requires PIPE_BUF <= limit <= MAX_CAPACITY
    ensures pipe.Valid() && Inv(pipe.View())
    ensures exists start :: NewPipe(start) && pipe.View() == Run(start, EventsOf(requests))
  {
    pipe := new Pipe(privileged, limit);
    ghost var start := pipe.View();
    for k := 0 to |requests|
      invariant fresh(pipe) && fresh(pipe.ring.Repr()) && pipe.Valid()
      invariant pipe.View() == Run(start, EventsOf(requests[..k]))
    {
      assert requests[..k + 1][..k] == requests[..k];
      RunSnoc(start, EventsOf(requests[..k]), EventOf(requests[k]));
      pipe.Perform(requests[k]);
    }
    assert requests[..|requests|] == requests;
    EveryRun(start, EventsOf(requests));
  }

  lemma ActiveStep(s: Sys, id: nat, giveUp: bool)
    requires UnderWay(s, id) && |s.queue| <= s.capacity
    ensures
      var c := s.calls[id];
      var n := Admitted(s.capacity - |s.queue|, |c.data| - c.written, c.written);
      && c.written + n <= |c.data|
      && Step(s, WriteSection(id, false, giveUp)) ==
         if n > 0 then Accept(s, id, n) else if c.nonblock || giveUp then Finish(s, id) else s
  {
  }

  lemma SplicedStart(arr: Bytes, src: Bytes)
    requires |src| <= |arr|
    ensures Splice(arr, 0, src)[..|src|] == src
  {
  }

  lemma RunSnoc(s: Sys, events: seq<Event>, e: Event)
    ensures Run(s, events + [e]) == Step(Run(s, events), e)
  {
    assert (events + [e])[..|events|] == events;
  }
}
