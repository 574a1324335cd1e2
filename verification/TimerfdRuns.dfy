/** Every interleaving of timerfd operations. A file operation changes the timer under the
    file's lock and then brings the schedule in line under the schedule's lock; both are
    separate steps here, and expiry passes on other harts run in between. */
module TimerfdRuns {
  import opened TimerfdCore

  /** What an operation that has changed a timer still owes the schedule. */
  datatype Owed = Owed(was: bool, old_: Option<u64>)

  /** A timer file: `owed` while an operation holds its lock between the two steps; not
      `alive` once the last reference is gone and drop has not run yet. */
  datatype File = File(t: Timer, owed: Option<Owed>, alive: bool)

  /** An entry an expiry pass has popped and not yet dealt with. */
  datatype Hand = Hand(entry: Entry, clock: nat, now: u64)

  datatype Sys = Sys(files: map<nat, File>, nextId: nat, sched: Schedule, hands: map<nat, Hand>)

  datatype Change =
    | Expiry(now: u64)
    | Setting(deadline: Option<u64>, interval: u64, cancelOnSet: bool)
    | Cancel

  datatype Event =
    | Create(clock: nat)
    | Begin(id: nat, change: Change)
    | Settle(id: nat)
    | ReadCounter(id: nat)
    | Pop(pass: nat, clock: nat, now: u64, e: Entry)
    | Handle(pass: nat)
    | Die(id: nat)
    | Drop(id: nat)

  // ----- steps -----

  function SetTimer(t: Timer, deadline: Option<u64>, interval: u64, cancelOnSet: bool): Timer {
    t.(deadline := deadline, interval := interval, expirations := 0, cancelOnSet := cancelOnSet, canceled := false)
  }

  function CancelTimer(t: Timer): Timer {
    t.(canceled := true, deadline := None, expirations := 0)
  }

  predicate Cancelable(t: Timer) {
    t.clock == CLOCK_REALTIME && t.cancelOnSet && !t.canceled
  }

  /** The first step of an operation: the new fields, and what is owed to the schedule. */
  function Changed(t: Timer, c: Change): File {
    match c
    case Expiry(now) =>
      var t' := Expire(t, now);
      File(t', if t'.deadline != t.deadline then Some(Owed(Armed(t), t.deadline)) else None, true)
    case Setting(d, i, cos) => File(SetTimer(t, d, i, cos), Some(Owed(Armed(t), Due(t))), true)
    case Cancel =>
      if !Cancelable(t) then File(t, None, true)
      else File(CancelTimer(t), Some(Owed(Armed(t), Due(t))), true)
  }

  predicate Unlocked(s: Sys, id: nat) {
    id in s.files && s.files[id].alive && s.files[id].owed.None?
  }

  function Put(s: Sys, id: nat, f: File): Sys {
    s.(files := s.files[id := f])
  }

  function Settled(s: Sys, id: nat): Sys
    requires id in s.files && s.files[id].owed.Some?
  {
    var f := s.files[id];
    var (t, sched) := UpdateSchedule(s.sched, id, f.t, f.owed.value.was, f.owed.value.old_);
    s.(files := s.files[id := File(t, None, f.alive)], sched := sched)
  }

  /** An expiry change needs a readable clock that is not at its last instant. */
  predicate Allowed(t: Timer, c: Change) {
    c.Expiry? ==> Scheduled(t.clock) && c.now < U64_MAX
  }

  /** The entry is stale: its timer was rescheduled, canceled or disarmed since. */
  predicate Stale(t: Timer, e: Entry) {
    t.sequence != e.sequence || t.canceled || t.deadline.None?
  }

  function Handled(s: Sys, pass: nat): Sys
    requires pass in s.hands
  {
    var h := s.hands[pass];
    var id := h.entry.file;
    var s' := s.(hands := s.hands - {pass});
    if id !in s.files || !s.files[id].alive || Stale(s.files[id].t, h.entry) then s'
    else Put(s', id, Changed(s.files[id].t, Expiry(h.now)))
  }

  /** The state after an event; an event that is not enabled changes nothing. */
  function Step(s: Sys, e: Event): Sys {
    match e
    case Create(clock) =>
      s.(files := s.files[s.nextId := File(NewTimer(clock), None, true)], nextId := s.nextId + 1)
    case Begin(id, c) =>
      if !Unlocked(s, id) || !Allowed(s.files[id].t, c) then s else Put(s, id, Changed(s.files[id].t, c))
    case Settle(id) =>
      if id !in s.files || s.files[id].owed.None? then s else Settled(s, id)
    case ReadCounter(id) =>
      if !Unlocked(s, id) then s else Put(s, id, s.files[id].(t := s.files[id].t.(expirations := 0)))
    case Pop(pass, clock, now, entry) =>
      if pass in s.hands || now >= U64_MAX || !IsTop(Heap(s.sched, clock), entry) || entry.deadline > now then s
      else
        var rest := Heap(s.sched, clock) - {entry};
        s.(sched := WithHeap(s.sched, clock, rest), hands := s.hands[pass := Hand(entry, clock, now)])
    case Handle(pass) =>
      if pass !in s.hands then s
      else
        var id := s.hands[pass].entry.file;
        if id in s.files && s.files[id].owed.Some? then s else Handled(s, pass)
    case Die(id) =>
      if !Unlocked(s, id) then s else Put(s, id, s.files[id].(alive := false))
    case Drop(id) =>
      if id !in s.files || s.files[id].alive || s.files[id].owed.Some? then s
      else s.(files := s.files - {id}, sched := AdjustArmed(s.sched, s.files[id].t.clock, Armed(s.files[id].t), false))
  }

  function Run(s: Sys, events: seq<Event>): Sys {
    if events == [] then s else Step(Run(s, events[..|events| - 1]), events[|events| - 1])
  }

  function Start(): Sys {
    Sys(map[], 0, Schedule({}, {}, 0, 0, 0), map[])
  }

  // ----- the index invariant -----

  /** The file relies on an entry for its present deadline and sequence: it is armed and the
      schedule owes it no update, or the update owed will find nothing to change. */
  predicate Relies(f: File) {
    f.alive && Armed(f.t) && (f.owed.Some? ==> f.owed.value == Owed(true, f.t.deadline))
  }

  function CurrentEntry(id: nat, t: Timer): Entry
    requires t.deadline.Some?
  {
    Entry(t.deadline.value, t.sequence, id)
  }

  /** The entry is in the heap or in the hands of an expiry pass. */
  ghost predicate Present(s: Sys, clock: nat, e: Entry) {
    e in Heap(s.sched, clock) || InHand(s, clock, e)
  }

  ghost predicate InHand(s: Sys, clock: nat, e: Entry) {
    exists p :: p in s.hands && s.hands[p].entry == e && s.hands[p].clock == clock
  }

  ghost predicate FileOk(s: Sys, id: nat)
    requires id in s.files
  {
    var f := s.files[id];
    && id < s.nextId
    && (f.owed.Some? && f.owed.value.was ==> Scheduled(f.t.clock))
    && (Relies(f) ==> Present(s, f.t.clock, CurrentEntry(id, f.t)))
  }

  /** An entry that may still be somewhere belongs to its file's clock, is not newer than the
      file, and agrees with it if it is its current one. */
  ghost predicate EntryOk(s: Sys, clock: nat, e: Entry) {
    && e.file < s.nextId
    && (e.file in s.files ==>
          var f := s.files[e.file];
          && f.t.clock == clock
          && e.sequence <= f.t.sequence
          && (e.sequence == f.t.sequence && Relies(f) ==> e.deadline == f.t.deadline.value))
  }

  ghost predicate HandOk(s: Sys, h: Hand) {
    Scheduled(h.clock) && EntryOk(s, h.clock, h.entry) && h.entry.deadline <= h.now < U64_MAX
  }

  ghost predicate Indexed(s: Sys) {
    && (forall id :: id in s.files ==> FileOk(s, id))
    && (forall e :: e in s.sched.monotonic ==> EntryOk(s, CLOCK_MONOTONIC, e))
    && (forall e :: e in s.sched.realtime ==> EntryOk(s, CLOCK_REALTIME, e))
    && (forall p :: p in s.hands ==> HandOk(s, s.hands[p]))
  }

  // ----- the counters -----

  /** The file is counted as armed by the schedule. */
  predicate Counted(f: File) {
    if f.owed.Some? then f.owed.value.was else Armed(f.t)
  }

  ghost function CountedIds(s: Sys, clock: nat): set<nat> {
    set id | id in s.files && s.files[id].t.clock == clock && Counted(s.files[id])
  }

  ghost predicate CountsExact(s: Sys) {
    && s.sched.monotonicArmed == |CountedIds(s, CLOCK_MONOTONIC)|
    && s.sched.realtimeArmed == |CountedIds(s, CLOCK_REALTIME)|
    && s.sched.total == s.sched.monotonicArmed + s.sched.realtimeArmed
  }

  ghost predicate Inv(s: Sys) {
    Indexed(s) && CountsExact(s)
  }

  // ----- each step keeps the index -----

  /** Replacing a file that keeps its clock and sequence, and relies only if it did before on
      the same deadline, keeps the index. */
  lemma PutIndexed(s: Sys, id: nat, f: File)
    requires Indexed(s) && id in s.files
    requires f.t.clock == s.files[id].t.clock && f.t.sequence == s.files[id].t.sequence
    requires f.owed.Some? && f.owed.value.was ==> Scheduled(f.t.clock)
    requires Relies(f) ==> Relies(s.files[id]) && f.t.deadline == s.files[id].t.deadline
    ensures Indexed(Put(s, id, f))
  {
    var s' := Put(s, id, f);
    forall k | k in s'.files
      ensures FileOk(s', k)
    {
      assert FileOk(s, k);
      PresentSame(s, s', s.files[k].t.clock);
    }
    assert forall clock, e :: EntryOk(s, clock, e) ==> EntryOk(s', clock, e);
  }

  lemma PresentSame(s: Sys, s': Sys, clock: nat)
    requires s.sched == s'.sched && s.hands == s'.hands
    ensures forall e :: Present(s, clock, e) <==> Present(s', clock, e)
  {
  }

  lemma CreateIndexed(s: Sys, clock: nat)
    requires Indexed(s)
    ensures Indexed(Step(s, Create(clock)))
  {
    var s' := Step(s, Create(clock));
    forall k | k in s'.files
      ensures FileOk(s', k)
    {
      if k in s.files {
        assert FileOk(s, k);
        PresentSame(s, s', s.files[k].t.clock);
      }
    }
    assert forall c, e :: EntryOk(s, c, e) ==> EntryOk(s', c, e);
  }

  /** The first step of any operation. */
  lemma ChangedRelies(t: Timer, c: Change)
    requires Allowed(t, c)
    ensures var f := Changed(t, c);
      && f.t.clock == t.clock && f.t.sequence == t.sequence
      && (f.owed.Some? && f.owed.value.was ==> Scheduled(t.clock))
      && (Relies(f) ==> Armed(t) && f.t.deadline == t.deadline)
  {
  }

  lemma BeginIndexed(s: Sys, id: nat, c: Change)
    requires Indexed(s) && Unlocked(s, id) && Allowed(s.files[id].t, c)
    ensures Indexed(Put(s, id, Changed(s.files[id].t, c)))
  {
    ChangedRelies(s.files[id].t, c);
    PutIndexed(s, id, Changed(s.files[id].t, c));
  }

  /** What settling does to the schedule: perhaps one new entry, newer than all others. */
  lemma SettleShape(s: Sys, id: nat)
    requires id in s.files && s.files[id].owed.Some?
    ensures var f := s.files[id];
      var f', sched := Settled(s, id).files[id], Settled(s, id).sched;
      var early := f.owed.value.was == Armed(f.t) && f.owed.value.old_ == Due(f.t);
      && f' == File(f.t.(sequence := f.t.sequence + if early then 0 else 1), None, f.alive)
      && (forall clock :: Heap(s.sched, clock) <= Heap(sched, clock))
      && (forall clock, e :: e in Heap(sched, clock) && e !in Heap(s.sched, clock) ==>
            !early && clock == f.t.clock && Armed(f.t) && e == CurrentEntry(id, f'.t))
      && (!early && Armed(f.t) ==> CurrentEntry(id, f'.t) in Heap(sched, f.t.clock))
  {
  }

  lemma SettleIndexed(s: Sys, id: nat)
    requires Indexed(s) && id in s.files && s.files[id].owed.Some?
    ensures Indexed(Settled(s, id))
  {
    var s' := Settled(s, id);
    var f, f' := s.files[id], s'.files[id];
    SettleShape(s, id);
    assert FileOk(s, id);
    forall k | k in s'.files
      ensures FileOk(s', k)
    {
      assert FileOk(s, k);
      PresentGrows(s, s', s.files[k].t.clock);
    }
    forall clock, e | Scheduled(clock) && EntryOk(s, clock, e)
      ensures EntryOk(s', clock, e)
    {
    }
    forall clock, e | Scheduled(clock) && e in Heap(s'.sched, clock)
      ensures EntryOk(s', clock, e)
    {
      if e in Heap(s.sched, clock) {
        assert EntryOk(s, clock, e);
      }
    }
  }

  lemma PresentGrows(s: Sys, s': Sys, clock: nat)
    requires s.hands == s'.hands && Heap(s.sched, clock) <= Heap(s'.sched, clock)
    ensures forall e :: Present(s, clock, e) ==> Present(s', clock, e)
  {
  }

  /** Popping moves an entry from the heap to a hand; no file can tell the difference. */
  lemma PopIndexed(s: Sys, pass: nat, clock: nat, now: u64, e: Entry)
    requires Indexed(s) && pass !in s.hands && now < U64_MAX && IsTop(Heap(s.sched, clock), e) && e.deadline <= now
    ensures Indexed(Step(s, Pop(pass, clock, now, e)))
  {
    var s' := Step(s, Pop(pass, clock, now, e));
    assert s'.hands[pass] == Hand(e, clock, now);
    forall k | k in s'.files
      ensures FileOk(s', k)
    {
      assert FileOk(s, k);
      PopKeepsPresent(s, s', pass, clock, e, s.files[k].t.clock);
    }
    assert forall c, x :: EntryOk(s, c, x) ==> EntryOk(s', c, x);
  }

  lemma PopKeepsPresent(s: Sys, s': Sys, pass: nat, clock: nat, e: Entry, c: nat)
    requires pass !in s.hands && s'.hands.Keys == s.hands.Keys + {pass}
    requires forall p :: p in s.hands ==> s'.hands[p] == s.hands[p]
    requires s'.hands[pass].entry == e && s'.hands[pass].clock == clock
    requires Heap(s'.sched, c) == Heap(s.sched, c) - if c == clock then {e} else {}
    ensures forall x :: Present(s, c, x) ==> Present(s', c, x)
  {
    forall x | Present(s, c, x)
      ensures Present(s', c, x)
    {
      if InHand(s, c, x) {
        var p :| p in s.hands && s.hands[p].entry == x && s.hands[p].clock == c;
        assert p in s'.hands && s'.hands[p].entry == x;
      } else if x == e && c == clock {
        assert pass in s'.hands && s'.hands[pass].entry == x;
      }
    }
  }

  /** Letting go of an entry is safe when its own file does not rely on it. */
  lemma LetGoIndexed(s: Sys, pass: nat)
    requires Indexed(s) && pass in s.hands
    requires var e := s.hands[pass].entry;
      e.file in s.files && Relies(s.files[e.file]) ==> e != CurrentEntry(e.file, s.files[e.file].t)
    ensures Indexed(s.(hands := s.hands - {pass}))
  {
    var s' := s.(hands := s.hands - {pass});
    var gone := s.hands[pass].entry;
    forall k | k in s'.files
      ensures FileOk(s', k)
    {
      assert FileOk(s, k);
      var f := s.files[k];
      if Relies(f) && CurrentEntry(k, f.t) !in Heap(s.sched, f.t.clock) {
        var e := CurrentEntry(k, f.t);
        assert InHand(s, f.t.clock, e);
        var p :| p in s.hands && s.hands[p].entry == e && s.hands[p].clock == f.t.clock;
        assert p != pass;
        assert p in s'.hands && s'.hands[p].entry == e;
      }
    }
    assert forall c, x :: EntryOk(s, c, x) ==> EntryOk(s', c, x);
  }

  /** Dealing with a popped entry: stale ones are dropped, the current one advances its timer. */
  lemma HandleIndexed(s: Sys, pass: nat)
    requires Indexed(s) && pass in s.hands
    requires s.hands[pass].entry.file in s.files ==> s.files[s.hands[pass].entry.file].owed.None?
    ensures Indexed(Handled(s, pass))
  {
    var h := s.hands[pass];
    var id := h.entry.file;
    assert HandOk(s, h);
    if id !in s.files || !s.files[id].alive || Stale(s.files[id].t, h.entry) {
      LetGoIndexed(s, pass);
    } else {
      var t := s.files[id].t;
      ExpireMovesOn(t, h.now);
      var f := Changed(t, Expiry(h.now));
      assert f.owed == Some(Owed(Armed(t), t.deadline));
      assert !Relies(f);
      PutIndexed(s, id, f);
      LetGoIndexed(Put(s, id, f), pass);
      assert Handled(s, pass) == Put(s, id, f).(hands := s.hands - {pass});
    }
  }

  /** The limit of a pass: after it has dealt with a timer's current entry the timer still relies
      on that entry exactly when it is periodic and due at the last representable instant, where
      its deadline cannot move. A clock below that instant never gets there. */
  lemma HandledStillRelies(t: Timer, now: u64)
    requires Armed(t) && t.deadline.value <= now
    ensures var f := Changed(t, Expiry(now));
      Relies(f) && f.t.deadline == t.deadline <==> t.interval > 0 && t.deadline.value == U64_MAX
  {
    if t.interval > 0 {
      CatchUp(t, now);
    }
  }

  lemma DropIndexed(s: Sys, id: nat)
    requires Indexed(s) && id in s.files && !s.files[id].alive
    ensures Indexed(Step(s, Drop(id)))
  {
    var s' := Step(s, Drop(id));
    forall k | k in s'.files
      ensures FileOk(s', k)
    {
      assert FileOk(s, k);
      PresentGrows(s, s', s.files[k].t.clock);
    }
    assert forall c, x :: EntryOk(s, c, x) ==> EntryOk(s', c, x);
  }

  lemma StepIndexed(s: Sys, e: Event)
    requires Indexed(s)
    ensures Indexed(Step(s, e))
  {
    match e {
      case Create(clock) => CreateIndexed(s, clock);
      case Begin(id, c) => if Unlocked(s, id) && Allowed(s.files[id].t, c) { BeginIndexed(s, id, c); }
      case Settle(id) => if id in s.files && s.files[id].owed.Some? { SettleIndexed(s, id); }
      case ReadCounter(id) =>
        if Unlocked(s, id) { PutIndexed(s, id, s.files[id].(t := s.files[id].t.(expirations := 0))); }
      case Pop(pass, clock, now, x) =>
        if pass !in s.hands && now < U64_MAX && IsTop(Heap(s.sched, clock), x) && x.deadline <= now {
          PopIndexed(s, pass, clock, now, x);
        }
      case Handle(pass) =>
        if pass in s.hands && (s.hands[pass].entry.file in s.files ==> s.files[s.hands[pass].entry.file].owed.None?) {
          HandleIndexed(s, pass);
        }
      case Die(id) => if Unlocked(s, id) { PutIndexed(s, id, s.files[id].(alive := false)); }
      case Drop(id) => if id in s.files && !s.files[id].alive { DropIndexed(s, id); }
    }
  }

  // ----- each step keeps the counters -----

  /** Replacing a file that stays counted as it was keeps the counts. */
  lemma PutCounts(s: Sys, id: nat, f: File)
    requires CountsExact(s) && id in s.files
    requires f.t.clock == s.files[id].t.clock && Counted(f) == Counted(s.files[id])
    ensures CountsExact(Put(s, id, f))
  {
    var s' := Put(s, id, f);
    assert CountedIds(s', CLOCK_MONOTONIC) == CountedIds(s, CLOCK_MONOTONIC);
    assert CountedIds(s', CLOCK_REALTIME) == CountedIds(s, CLOCK_REALTIME);
  }

  /** When a counted timer is taken off, its counter and the total are positive: the
      saturating subtractions never saturate. */
  lemma NeverSaturates(s: Sys, id: nat)
    requires CountsExact(s) && id in s.files && Counted(s.files[id]) && Scheduled(s.files[id].t.clock)
    ensures Count(s.sched, s.files[id].t.clock) > 0 && s.sched.total > 0
  {
    assert id in CountedIds(s, s.files[id].t.clock);
  }

  lemma RecountOne(s: Sys, s': Sys, id: nat, clock: nat)
    requires id in s.files
    requires forall k :: k != id ==> (k in s'.files <==> k in s.files)
    requires forall k :: k != id && k in s.files ==> s'.files[k] == s.files[k]
    requires id in s'.files ==> s'.files[id].t.clock == s.files[id].t.clock
    ensures var before := s.files[id].t.clock == clock && Counted(s.files[id]);
      var after := id in s'.files && s'.files[id].t.clock == clock && Counted(s'.files[id]);
      |CountedIds(s', clock)| == |CountedIds(s, clock)| + (if after then 1 else 0) - (if before then 1 else 0)
  {
    var a, b := CountedIds(s, clock), CountedIds(s', clock);
    assert a - {id} == b - {id};
    OneApart(a, b, id);
  }

  lemma OneApart(a: set<nat>, b: set<nat>, id: nat)
    requires a - {id} == b - {id}
    ensures |b| == |a| + (if id in b then 1 else 0) - (if id in a then 1 else 0)
  {
    assert |a - {id}| == |a| - if id in a then 1 else 0;
    assert |b - {id}| == |b| - if id in b then 1 else 0;
  }

  lemma SettleCounts(s: Sys, id: nat)
    requires Inv(s) && id in s.files && s.files[id].owed.Some?
    ensures CountsExact(Settled(s, id))
  {
    assert FileOk(s, id);
    RecountOne(s, Settled(s, id), id, CLOCK_MONOTONIC);
    RecountOne(s, Settled(s, id), id, CLOCK_REALTIME);
    if s.files[id].owed.value.was {
      NeverSaturates(s, id);
    }
  }

  lemma DropCounts(s: Sys, id: nat)
    requires Inv(s) && id in s.files && !s.files[id].alive && s.files[id].owed.None?
    ensures CountsExact(Step(s, Drop(id)))
  {
    RecountOne(s, Step(s, Drop(id)), id, CLOCK_MONOTONIC);
    RecountOne(s, Step(s, Drop(id)), id, CLOCK_REALTIME);
    if Armed(s.files[id].t) {
      NeverSaturates(s, id);
    }
  }

  lemma CreateCounts(s: Sys, clock: nat)
    requires Inv(s)
    ensures CountsExact(Step(s, Create(clock)))
  {
    var s' := Step(s, Create(clock));
    assert s.nextId !in s.files by {
      assert forall id :: id in s.files ==> FileOk(s, id);
    }
    assert CountedIds(s', CLOCK_MONOTONIC) == CountedIds(s, CLOCK_MONOTONIC);
    assert CountedIds(s', CLOCK_REALTIME) == CountedIds(s, CLOCK_REALTIME);
  }

  lemma ChangedCounted(t: Timer, c: Change)
    requires Allowed(t, c)
    ensures Counted(Changed(t, c)) == Armed(t)
  {
  }

  lemma SameCounts(s: Sys, s': Sys)
    requires CountsExact(s) && s'.files == s.files
    requires s'.sched.monotonicArmed == s.sched.monotonicArmed && s'.sched.realtimeArmed == s.sched.realtimeArmed
    requires s'.sched.total == s.sched.total
    ensures CountsExact(s')
  {
    assert CountedIds(s', CLOCK_MONOTONIC) == CountedIds(s, CLOCK_MONOTONIC);
    assert CountedIds(s', CLOCK_REALTIME) == CountedIds(s, CLOCK_REALTIME);
  }

  lemma HandleCounts(s: Sys, pass: nat)
    requires Inv(s) && pass in s.hands
    requires s.hands[pass].entry.file in s.files ==> s.files[s.hands[pass].entry.file].owed.None?
    ensures CountsExact(Handled(s, pass))
  {
    var h := s.hands[pass];
    var id := h.entry.file;
    var let_go := s.(hands := s.hands - {pass});
    SameCounts(s, let_go);
    assert HandOk(s, h);
    if id in s.files && s.files[id].alive && !Stale(s.files[id].t, h.entry) {
      ChangedCounted(s.files[id].t, Expiry(h.now));
      PutCounts(let_go, id, Changed(s.files[id].t, Expiry(h.now)));
    }
  }

  lemma StepCounts(s: Sys, e: Event)
    requires Inv(s)
    ensures CountsExact(Step(s, e))
  {
    match e {
      case Create(clock) => CreateCounts(s, clock);
      case Begin(id, c) =>
        if Unlocked(s, id) && Allowed(s.files[id].t, c) {
          ChangedCounted(s.files[id].t, c);
          PutCounts(s, id, Changed(s.files[id].t, c));
        }
      case Settle(id) => if id in s.files && s.files[id].owed.Some? { SettleCounts(s, id); }
      case ReadCounter(id) =>
        if Unlocked(s, id) { PutCounts(s, id, s.files[id].(t := s.files[id].t.(expirations := 0))); }
      case Pop(pass, clock, now, x) => SameCounts(s, Step(s, e));
      case Handle(pass) =>
        if pass in s.hands && (s.hands[pass].entry.file in s.files ==> s.files[s.hands[pass].entry.file].owed.None?) {
          HandleCounts(s, pass);
        }
      case Die(id) => if Unlocked(s, id) { PutCounts(s, id, s.files[id].(alive := false)); }
      case Drop(id) => if id in s.files && !s.files[id].alive && s.files[id].owed.None? { DropCounts(s, id); }
    }
  }

  lemma StepInv(s: Sys, e: Event)
    requires Inv(s)
    ensures Inv(Step(s, e))
  {
    StepIndexed(s, e);
    StepCounts(s, e);
  }

  // ----- whole runs -----

  /** Main theorem: in every reachable state each armed timer that no operation is in the
      middle of changing has an entry with exactly its deadline and sequence in its clock's
      heap or in the hands of a running expiry pass, and the armed counters are exact. */
  lemma {:induction false} EveryRun(events: seq<Event>)
    ensures Inv(Run(Start(), events))
  {
    if events == [] {
      assert CountedIds(Start(), CLOCK_MONOTONIC) == {} && CountedIds(Start(), CLOCK_REALTIME) == {};
    } else {
      var s := Run(Start(), events[..|events| - 1]);
      EveryRun(events[..|events| - 1]);
      StepInv(s, events[|events| - 1]);
    }
  }

  /** A pushed entry is never already in the heap, so the heaps are sets without loss. */
  lemma PushIsNew(s: Sys, id: nat, e: Entry)
    requires Indexed(s) && id in s.files && s.files[id].owed.Some?
    requires e in Heap(Settled(s, id).sched, s.files[id].t.clock)
    requires e.sequence == s.files[id].t.sequence + 1 && e.file == id
    ensures e !in Heap(s.sched, s.files[id].t.clock)
  {
    forall x | x in Heap(s.sched, s.files[id].t.clock) && x.file == id
      ensures x.sequence <= s.files[id].t.sequence
    {
      assert EntryOk(s, s.files[id].t.clock, x);
    }
  }

  /** A live armed timer. */
  predicate Live(s: Sys, id: nat) {
    id in s.files && s.files[id].alive && Armed(s.files[id].t)
  }

  /** Another hart is dealing with the timer: an operation is between its two steps, or an expiry
      pass has the timer's entry in its hands. */
  ghost predicate Attended(s: Sys, id: nat)
    requires Live(s, id)
  {
    s.files[id].owed.Some? || InHand(s, s.files[id].t.clock, CurrentEntry(id, s.files[id].t))
  }

  /** A live armed timer nobody is dealing with is counted and has its entry in the heap. */
  lemma UnattendedIndexed(s: Sys, id: nat)
    requires Inv(s) && Live(s, id) && !Attended(s, id)
    ensures var t := s.files[id].t;
      CurrentEntry(id, t) in Heap(s.sched, t.clock) && Count(s.sched, t.clock) > 0 && s.sched.total > 0
  {
    NeverSaturates(s, id);
    assert FileOk(s, id);
  }

  function NowOf(clock: nat, monotonicNow: u64, realtimeNow: u64): u64 {
    if clock == CLOCK_MONOTONIC then monotonicNow else realtimeNow
  }

  predicate DueIn(s: Sys, id: nat, monotonicNow: u64, realtimeNow: u64)
    requires Live(s, id)
  {
    s.files[id].t.deadline.value <= NowOf(s.files[id].t.clock, monotonicNow, realtimeNow)
  }

  /** Main theorem: a negative answer of the check on return to user mode, while a timer is due,
      means that another hart is dealing with that timer or, for the total read earlier in state
      s1, with the timers armed then. The schedule is locked in the later state s2. */
  lemma WorkPendingComplete(s1: Sys, s2: Sys, monotonicNow: u64, realtimeNow: u64, id1: nat, id2: nat)
    requires Inv(s1) && Inv(s2) && Live(s1, id1) && Live(s2, id2) && DueIn(s2, id2, monotonicNow, realtimeNow)
    ensures || WorkPending(s1.sched.total, s2.sched, Some(monotonicNow), Some(realtimeNow))
            || Attended(s1, id1) || Attended(s2, id2)
  {
    if !Attended(s1, id1) && !Attended(s2, id2) {
      UnattendedIndexed(s1, id1);
      UnattendedIndexed(s2, id2);
    }
  }

  /** A positive answer is given only when a readable clock has an entry that is due. */
  lemma WorkPendingOnlyIfDue(total: nat, s: Schedule, monotonicNow: Option<u64>, realtimeNow: Option<u64>)
    requires WorkPending(total, s, monotonicNow, realtimeNow)
    ensures exists clock, e ::
      && e in Heap(s, clock) && clock in {CLOCK_MONOTONIC, CLOCK_REALTIME}
      && var now := if clock == CLOCK_MONOTONIC then monotonicNow else realtimeNow;
         now.Some? && e.deadline <= now.value
  {
    if s.monotonicArmed != 0 && monotonicNow.Some? && HasDue(s.monotonic, monotonicNow.value) {
      var e :| e in s.monotonic && e.deadline <= monotonicNow.value;
      assert e in Heap(s, CLOCK_MONOTONIC);
    } else {
      var e :| e in s.realtime && e.deadline <= realtimeNow.value;
      assert e in Heap(s, CLOCK_REALTIME);
    }
  }

  /** The same for a check that sees one state: it answers false with a due timer only while
      another hart is dealing with that timer. */
  lemma WorkPendingNow(s: Sys, monotonicNow: u64, realtimeNow: u64, id: nat)
    requires Inv(s) && Live(s, id) && DueIn(s, id, monotonicNow, realtimeNow)
    ensures WorkPending(s.sched.total, s.sched, Some(monotonicNow), Some(realtimeNow)) || Attended(s, id)
  {
    WorkPendingComplete(s, s, monotonicNow, realtimeNow, id, id);
  }

  // ----- canceling realtime timers when the clock is set -----

  /** live_realtime_files: the live files with an entry in the realtime heap. */
  ghost function LiveRealtime(s: Sys): set<nat> {
    if s.sched.realtimeArmed == 0 then {}
    else set e | e in s.sched.realtime && e.file in s.files && s.files[e.file].alive :: e.file
  }

  /** The heap holds an entry of the file, current or stale. */
  ghost predicate HasEntry(s: Sys, id: nat) {
    exists e :: e in s.sched.realtime && e.file == id
  }

  /** Main theorem: a live armed cancel-on-set timer is passed over exactly when the counter is
      zero or no entry of it, not even a stale one, is in the heap, and only while another hart
      is dealing with it. */
  lemma CancelReaches(s: Sys, id: nat)
    requires Inv(s) && Live(s, id) && Cancelable(s.files[id].t)
    ensures id in LiveRealtime(s) <==> s.sched.realtimeArmed != 0 && HasEntry(s, id)
    ensures id !in LiveRealtime(s) ==> Attended(s, id)
  {
    if s.sched.realtimeArmed != 0 && HasEntry(s, id) {
      var e :| e in s.sched.realtime && e.file == id;
      assert id in LiveRealtime(s);
    }
    if !Attended(s, id) {
      UnattendedIndexed(s, id);
      assert HasEntry(s, id);
    }
  }

  /** With no pass under way, what is passed over is in the middle of an operation. */
  lemma CancelReachesAll(s: Sys, id: nat)
    requires Inv(s) && s.hands == map[] && Live(s, id) && Cancelable(s.files[id].t)
    ensures id in LiveRealtime(s) || s.files[id].owed.Some?
  {
    CancelReaches(s, id);
  }

  // ----- the runs that show the exceptions -----

  /** A run after which a timer armed for instant 5 is in the hands of an expiry pass. */
  function PoppedRun(): seq<Event> {
    [Create(CLOCK_REALTIME), Begin(0, Setting(Some(5), 0, true)), Settle(0), Pop(7, CLOCK_REALTIME, 6, Entry(5, 1, 0))]
  }

  /** A run after which a timer has been set and not yet scheduled. */
  function SettingRun(): seq<Event> {
    [Create(CLOCK_REALTIME), Begin(0, Setting(Some(5), 0, true))]
  }

  /** A run after which a periodic timer, armed all along, has been advanced by an expiry pass and
      not yet scheduled again. */
  function AdvancedRun(): seq<Event> {
    [Create(CLOCK_REALTIME), Begin(0, Setting(Some(5), 10, true)), Settle(0),
     Pop(7, CLOCK_REALTIME, 6, Entry(5, 1, 0)), Handle(7)]
  }

  /** A clock set between the pop and its handling finds no entry of the timer and leaves it
      armed; a check on return to user mode at instant 6 answers false although it is due. */
  lemma PoppedIsMissed()
    ensures var s := Run(Start(), PoppedRun());
      && Inv(s) && Live(s, 0) && Cancelable(s.files[0].t) && 0 !in LiveRealtime(s)
      && s.files[0].owed.None? && InHand(s, CLOCK_REALTIME, CurrentEntry(0, s.files[0].t))
      && DueIn(s, 0, 6, 6) && !WorkPending(s.sched.total, s.sched, Some(6), Some(6))
  {
    EveryRun(PoppedRun());
    PoppedState();
    CancelReaches(Run(Start(), PoppedRun()), 0);
  }

  lemma PoppedState()
    ensures var s := Run(Start(), PoppedRun());
      && Live(s, 0) && Cancelable(s.files[0].t) && s.sched.realtime == {} && s.sched.monotonic == {}
      && s.files[0].owed.None? && s.files[0].t.deadline == Some(5)
  {
    var r := PoppedRun();
    RunFour(Start(), r[0], r[1], r[2], r[3]);
    var s3 := Step(Step(Step(Start(), r[0]), r[1]), r[2]);
    assert s3.sched.realtime == {Entry(5, 1, 0)};
    assert Step(s3, r[3]).sched.realtime == {};
  }

  /** With no pass under way, a timer between the two steps of its setting is missed as well. */
  lemma SettingIsMissed()
    ensures var s := Run(Start(), SettingRun());
      && Inv(s) && s.hands == map[] && Live(s, 0) && Cancelable(s.files[0].t) && 0 !in LiveRealtime(s)
      && DueIn(s, 0, 6, 6) && !WorkPending(s.sched.total, s.sched, Some(6), Some(6))
  {
    EveryRun(SettingRun());
    var r := SettingRun();
    assert r[..1] == [r[0]] && r[..1][..0] == [];
    assert Run(Start(), r[..1]) == Step(Run(Start(), []), r[0]);
    assert Run(Start(), r) == Step(Step(Start(), r[0]), r[1]);
  }

  /** So is a periodic timer that was armed throughout, while a pass is moving it on. */
  lemma AdvancedIsMissed()
    ensures var s := Run(Start(), AdvancedRun());
      && Inv(s) && s.hands == map[] && Live(s, 0) && Cancelable(s.files[0].t) && 0 !in LiveRealtime(s)
      && s.files[0].t.deadline == Some(15) && s.files[0].owed.Some?
  {
    EveryRun(AdvancedRun());
    AdvancedState();
  }

  lemma AdvancedState()
    ensures var s := Run(Start(), AdvancedRun());
      && s.hands == map[] && Live(s, 0) && Cancelable(s.files[0].t) && s.sched.realtime == {}
      && s.files[0].t.deadline == Some(15) && s.files[0].owed.Some?
  {
    var r := AdvancedRun();
    assert r[..4] == [r[0], r[1], r[2], r[3]];
    RunFour(Start(), r[0], r[1], r[2], r[3]);
    var s3 := Step(Step(Step(Start(), r[0]), r[1]), r[2]);
    assert s3.sched.realtime == {Entry(5, 1, 0)};
    var s4 := Step(s3, r[3]);
    assert s4.sched.realtime == {} && s4.hands == map[7 := Hand(Entry(5, 1, 0), CLOCK_REALTIME, 6)];
    assert s4.hands - {7} == map[];
    assert Run(Start(), r) == Step(s4, r[4]);
  }

  lemma RunFour(s: Sys, a: Event, b: Event, c: Event, d: Event)
    ensures Run(s, [a, b, c, d]) == Step(Step(Step(Step(s, a), b), c), d)
  {
    assert [a, b, c, d][..3] == [a, b, c] && [a, b, c][..2] == [a, b] && [a, b][..1] == [a] && [a][..0] == [];
    assert Run(s, [a]) == Step(Run(s, []), a);
    assert Run(s, [a, b]) == Step(Run(s, [a]), b);
    assert Run(s, [a, b, c]) == Step(Run(s, [a, b]), c);
  }
}
