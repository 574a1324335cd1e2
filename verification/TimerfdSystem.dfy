/** timerfd as it runs on one hart: files, heaps and counters updated in place, the expiry pass
    and the cancel loop (src/fs/timerfd.rs). */
module TimerfdSystem {
  import opened TimerfdCore
  import opened TimerfdRuns

  /** A whole operation on one file: its two steps with nothing in between. */
  function Atomic(s: Sys, id: nat, c: Change): Sys
    requires id in s.files
  {
    var s' := Put(s, id, Changed(s.files[id].t, c));
    if s'.files[id].owed.Some? then Settled(s', id) else s'
  }

  lemma AtomicInv(s: Sys, id: nat, c: Change)
    requires Inv(s) && Unlocked(s, id) && Allowed(s.files[id].t, c)
    ensures Inv(Atomic(s, id, c))
  {
    StepInv(s, Begin(id, c));
    StepInv(Step(s, Begin(id, c)), Settle(id));
    AtomicIsTwoSteps(s, id, c);
  }

  lemma AtomicIsTwoSteps(s: Sys, id: nat, c: Change)
    requires Unlocked(s, id) && Allowed(s.files[id].t, c)
    ensures Atomic(s, id, c) == Step(Step(s, Begin(id, c)), Settle(id))
  {
  }

  /** A file with new fields brought in line with the schedule. */
  function Rescheduled(s: Sys, id: nat, t: Timer, was: bool, old_: Option<u64>): Sys {
    var (t', sched) := UpdateSchedule(s.sched, id, t, was, old_);
    s.(files := s.files[id := File(t', None, true)], sched := sched)
  }

  lemma AtomicUnfolds(s: Sys, id: nat, c: Change)
    requires Unlocked(s, id)
    ensures var f := Changed(s.files[id].t, c);
      Atomic(s, id, c) == if f.owed.Some? then Rescheduled(s, id, f.t, f.owed.value.was, f.owed.value.old_)
                          else Put(s, id, File(f.t, None, true))
  {
    var f := Changed(s.files[id].t, c);
    if f.owed.Some? {
      var f' := Settled(Put(s, id, f), id).files[id];
      assert s.files[id := f][id := f'] == s.files[id := f'];
    }
  }

  /** timerfd_settime: flush, report the remaining time, set, flush again. The clock is read
      three times; it cannot be read for a clock that is neither realtime nor monotonic. */
  function FlushSpec(s: Sys, id: nat, now: Option<u64>): (s': Sys)
    requires id in s.files
    ensures id in s'.files
  {
    if now.Some? then Atomic(s, id, Expiry(now.value)) else s
  }

  function Remaining(t: Timer, now: u64): u64 {
    if t.canceled || t.deadline.None? || t.deadline.value <= now then 0 else t.deadline.value - now
  }

  function SetTimeSpec(s: Sys, id: nat, c: Change, now1: Option<u64>, now2: Option<u64>, now3: Option<u64>)
    : (Option<(u64, u64, bool)>, Sys)
    requires id in s.files
  {
    var s1 := FlushSpec(s, id, now1);
    var t := s1.files[id].t;
    if !t.canceled && t.deadline.Some? && now2.None? then (None, s1)
    else
      (Some((if now2.Some? then Remaining(t, now2.value) else 0, t.interval, t.canceled)),
       FlushSpec(Atomic(s1, id, c), id, now3))
  }

  /** A flush keeps the index and the counts, and the file unlocked on its clock. */
  lemma FlushInv(s: Sys, id: nat, now: Option<u64>)
    requires Inv(s) && Unlocked(s, id)
    requires now.Some? ==> Scheduled(s.files[id].t.clock) && now.value < U64_MAX
    ensures var s' := FlushSpec(s, id, now);
      Inv(s') && Unlocked(s', id) && s'.files[id].t.clock == s.files[id].t.clock
  {
    if now.Some? {
      AtomicInv(s, id, Expiry(now.value));
      AtomicUnfolds(s, id, Expiry(now.value));
    }
  }

  /** Setting a timer keeps the index and the counts. */
  lemma SetTimeInv(s: Sys, id: nat, c: Change, now1: Option<u64>, now2: Option<u64>, now3: Option<u64>)
    requires Inv(s) && Unlocked(s, id) && c.Setting?
    requires now1.Some? ==> Scheduled(s.files[id].t.clock) && now1.value < U64_MAX
    requires now3.Some? ==> Scheduled(s.files[id].t.clock) && now3.value < U64_MAX
    ensures Inv(SetTimeSpec(s, id, c, now1, now2, now3).1)
  {
    FlushInv(s, id, now1);
    var s1 := FlushSpec(s, id, now1);
    AtomicInv(s1, id, c);
    AtomicUnfolds(s1, id, c);
    FlushInv(Atomic(s1, id, c), id, now3);
  }

  /** The deadline of a timer brought up to now, if it has one. */
  ghost predicate DeadlineAt(t: Timer, now: Option<u64>, d: Option<u64>) {
    if now.None? || Elapsed(t, now.value) == {} then d == t.deadline
    else if t.interval == 0 then d == None
    else d.Some? && FirstAfter(t, now.value, d.value)
  }

  /** What the caller is told of the setting it replaces: the time to its next expiry, zero when it
      was canceled, is disarmed or is due, its period, and whether a clock set had canceled it. */
  ghost predicate Reports(t: Timer, now1: Option<u64>, now2: Option<u64>, r: (u64, u64, bool)) {
    && r.1 == t.interval && r.2 == t.canceled
    && exists d: Option<u64> :: DeadlineAt(t, now1, d) &&
         r.0 == if t.canceled || d.None? || now2.None? || d.value <= now2.value then 0 else d.value - now2.value
  }

  /** A timer just set: it has counted its points up to now and nothing of the setting before. */
  ghost predicate SetAnew(t: Timer, deadline: Option<u64>, interval: u64, cancelOnSet: bool, now: Option<u64>) {
    && t.interval == interval && t.cancelOnSet == cancelOnSet && !t.canceled
    && t.expirations == (if now.Some? then Sat(|Points(deadline, interval, now.value)|) else 0)
    && (now.None? || Points(deadline, interval, now.value) == {} ==> t.deadline == deadline)
  }

  lemma FlushMeaning(s: Sys, id: nat, now: Option<u64>)
    requires Unlocked(s, id)
    ensures
      var t, s' := s.files[id].t, FlushSpec(s, id, now);
      && Unlocked(s', id) && s'.files.Keys == s.files.Keys
      && (forall k :: k in s.files && k != id ==> s'.files[k] == s.files[k])
      && var t' := s'.files[id].t;
         && t'.(sequence := t.sequence) == (if now.Some? then Expire(t, now.value) else t)
         && DeadlineAt(t, now, t'.deadline)
  {
    if now.Some? {
      AtomicUnfolds(s, id, Expiry(now.value));
      ExpireCounts(s.files[id].t, now.value);
    }
  }

  lemma SettingMeaning(s: Sys, id: nat, c: Change)
    requires Unlocked(s, id) && c.Setting?
    ensures
      var t, s' := s.files[id].t, Atomic(s, id, c);
      && Unlocked(s', id) && s'.files.Keys == s.files.Keys
      && (forall k :: k in s.files && k != id ==> s'.files[k] == s.files[k])
      && s'.files[id].t.(sequence := t.sequence) ==
           Timer(t.clock, c.deadline, c.interval, 0, c.cancelOnSet, false, t.sequence)
  {
    AtomicUnfolds(s, id, c);
  }

  /** Setting a timer tells of the old setting and replaces it, unless the clock of an armed timer
      cannot be read; no other timer is touched. */
  lemma SetTimeMeaning(s: Sys, id: nat, c: Change, now1: Option<u64>, now2: Option<u64>, now3: Option<u64>)
    requires Unlocked(s, id) && c.Setting?
    ensures
      var (r, s') := SetTimeSpec(s, id, c, now1, now2, now3);
      && Unlocked(s', id) && s'.files.Keys == s.files.Keys
      && (forall k :: k in s.files && k != id ==> s'.files[k] == s.files[k])
      && (r.Some? ==> Reports(s.files[id].t, now1, now2, r.value))
      && (r.Some? ==> SetAnew(s'.files[id].t, c.deadline, c.interval, c.cancelOnSet, now3))
      && (r.None? ==> now2.None? && !s.files[id].t.canceled && s.files[id].t.deadline.Some?)
  {
    FlushMeaning(s, id, now1);
    var s1 := FlushSpec(s, id, now1);
    SettingMeaning(s1, id, c);
    var s2 := Atomic(s1, id, c);
    FlushMeaning(s2, id, now3);
    if now1.Some? {
      ExpireCounts(s.files[id].t, now1.value);
    }
    if now3.Some? {
      ExpireCounts(s2.files[id].t, now3.value);
    }
    assert DeadlineAt(s.files[id].t, now1, s1.files[id].t.deadline);
  }

  // ----- one turn of the expiry pass -----

  /** Pop the top entry, deal with it, settle what that changed. */
  function Turn(s: Sys, clock: nat, now: u64, e: Entry): Sys {
    var s2 := Step(Step(s, Pop(0, clock, now, e)), Handle(0));
    if e.file in s2.files && s2.files[e.file].owed.Some? then Settled(s2, e.file) else s2
  }

  /** No operation and no pass is under way. */
  ghost predicate Quiet(s: Sys) {
    s.hands == map[] && forall id :: id in s.files ==> s.files[id].owed.None? && s.files[id].alive
  }

  lemma TurnInv(s: Sys, clock: nat, now: u64, e: Entry)
    requires Inv(s)
    ensures Inv(Turn(s, clock, now, e))
  {
    var s1 := Step(s, Pop(0, clock, now, e));
    var s2 := Step(s1, Handle(0));
    StepInv(s, Pop(0, clock, now, e));
    StepInv(s1, Handle(0));
    StepInv(s2, Settle(e.file));
    assert Turn(s, clock, now, e) == Step(s2, Settle(e.file));
  }

  predicate DueAt(t: Timer, clock: nat, now: u64) {
    t.clock == clock && Armed(t) && t.deadline.value <= now
  }

  /** What an expiry pass makes of a timer. */
  function Processed(t: Timer, clock: nat, now: u64): Timer {
    if DueAt(t, clock, now) then Expire(t, now).(sequence := t.sequence + 1) else t
  }

  /** A timer of the clock has counted exactly its points up to now; any other timer's count is as
      it was. */
  ghost predicate CountedUp(t: Timer, t': Timer, clock: nat, now: u64) {
    t'.expirations == if t.clock == clock then Sat(t.expirations + |Elapsed(t, now)|) else t.expirations
  }

  ghost predicate AllCountedUp(before: map<nat, Timer>, after: map<nat, Timer>, clock: nat, now: u64) {
    forall id :: id in before && id in after ==> CountedUp(before[id], after[id], clock, now)
  }

  lemma AllCounted(before: map<nat, Timer>, after: map<nat, Timer>, clock: nat, now: u64)
    requires Scheduled(clock)
    requires forall id :: id in after && id in before ==> after[id] == Processed(before[id], clock, now)
    ensures AllCountedUp(before, after, clock, now)
  {
    forall id | id in before && id in after
      ensures CountedUp(before[id], after[id], clock, now)
    {
      ProcessedCounts(before[id], clock, now);
    }
  }

  lemma ProcessedCounts(t: Timer, clock: nat, now: u64)
    requires Scheduled(clock)
    ensures CountedUp(t, Processed(t, clock, now), clock, now)
  {
    ExpireCounts(t, now);
  }

  /** What a turn does, spelled out: the entry leaves the heap; if it is its timer's current
      one the timer is processed and, when still armed, enters the heap again later than now. */
  lemma TurnShape(s: Sys, clock: nat, now: u64, e: Entry)
    requires Inv(s) && Quiet(s) && now < U64_MAX && IsTop(Heap(s.sched, clock), e) && e.deadline <= now
    ensures var s' := Turn(s, clock, now, e);
      var heap := Heap(s.sched, clock) - {e};
      if e.file in s.files && !Stale(s.files[e.file].t, e) then
        var t := s.files[e.file].t;
        var t' := Processed(t, clock, now);
        && DueAt(t, clock, now)
        && s'.files == s.files[e.file := File(t', None, true)]
        && Heap(s'.sched, clock) == heap + (if Armed(t') then {CurrentEntry(e.file, t')} else {})
        && (Armed(t') ==> t'.deadline.value > now)
        && s'.hands == map[]
      else s'.files == s.files && s'.hands == map[] && Heap(s'.sched, clock) == heap
  {
    var s1 := Step(s, Pop(0, clock, now, e));
    assert s1.hands == map[0 := Hand(e, clock, now)];
    StepIndexed(s, Pop(0, clock, now, e));
    assert HandOk(s1, s1.hands[0]);
    assert s1.hands - {0} == map[];
    if e.file in s.files && !Stale(s.files[e.file].t, e) {
      assert FileOk(s, e.file) && s.files[e.file].alive;
      ExpireMovesOn(s.files[e.file].t, now);
      TurnCurrent(s, clock, now, e);
    }
  }

  lemma TurnCurrent(s: Sys, clock: nat, now: u64, e: Entry)
    requires Quiet(s) && now < U64_MAX && IsTop(Heap(s.sched, clock), e) && e.deadline <= now
    requires e.file in s.files && !Stale(s.files[e.file].t, e) && s.files[e.file].t.clock == clock && Scheduled(clock)
    requires e.deadline == s.files[e.file].t.deadline.value
    ensures var s' := Turn(s, clock, now, e);
      var t' := Processed(s.files[e.file].t, clock, now);
      && s'.files == s.files[e.file := File(t', None, true)]
      && Heap(s'.sched, clock) == Heap(s.sched, clock) - {e} + (if Armed(t') then {CurrentEntry(e.file, t')} else {})
      && s'.hands == map[]
  {
    var t := s.files[e.file].t;
    ExpireMovesOn(t, now);
    var s1 := Step(s, Pop(0, clock, now, e));
    var f := Changed(t, Expiry(now));
    assert s1.hands - {0} == map[];
    var s2 := Step(s1, Handle(0));
    assert s2 == Put(s1.(hands := map[]), e.file, f);
    assert f.owed == Some(Owed(true, t.deadline));
  }

  /** The entries of a heap that are due. */
  ghost function DueEntries(heap: set<Entry>, now: u64): set<Entry> {
    set e | e in heap && e.deadline <= now
  }

  /** Every turn leaves fewer due entries: what it puts back is later than now. */
  lemma TurnShrinks(s: Sys, clock: nat, now: u64, e: Entry)
    requires Inv(s) && Quiet(s) && now < U64_MAX && IsTop(Heap(s.sched, clock), e) && e.deadline <= now
    ensures |DueEntries(Heap(Turn(s, clock, now, e).sched, clock), now)| < |DueEntries(Heap(s.sched, clock), now)|
  {
    TurnShape(s, clock, now, e);
    if e.file in s.files && !Stale(s.files[e.file].t, e) {
      var t' := Processed(s.files[e.file].t, clock, now);
      FewerDue(Heap(s.sched, clock), e, if Armed(t') then {CurrentEntry(e.file, t')} else {}, now);
    } else {
      FewerDue(Heap(s.sched, clock), e, {}, now);
    }
  }

  lemma FewerDue(heap: set<Entry>, e: Entry, added: set<Entry>, now: u64)
    requires e in heap && e.deadline <= now && forall a :: a in added ==> a.deadline > now
    ensures |DueEntries(heap - {e} + added, now)| < |DueEntries(heap, now)|
    ensures added == {} ==> heap - {e} + added == heap - {e}
  {
    assert DueEntries(heap - {e} + added, now) == DueEntries(heap, now) - {e};
  }

  /** With no due entry in the heap and no pass under way, no armed timer is due. */
  lemma NothingDue(s: Sys, clock: nat, now: u64)
    requires Inv(s) && Quiet(s) && DueEntries(Heap(s.sched, clock), now) == {}
    ensures forall id :: id in s.files ==> !DueAt(s.files[id].t, clock, now)
  {
    forall id | id in s.files
      ensures !DueAt(s.files[id].t, clock, now)
    {
      assert FileOk(s, id);
      var t := s.files[id].t;
      if Armed(t) && t.clock == clock {
        assert Relies(s.files[id]);
        assert CurrentEntry(id, t) in Heap(s.sched, clock);
        assert CurrentEntry(id, t) !in DueEntries(Heap(s.sched, clock), now);
      }
    }
  }

  // ----- the system object -----

  predicate Canceled(t: Timer) {
    t.canceled && t.deadline.None? && t.expirations == 0
  }

  /** A timer is left alone, or was cancel-on-set and is canceled with its setting kept. */
  predicate CancelOutcome(t: Timer, t': Timer) {
    t' == t || (Cancelable(t) && t' == CancelTimer(t).(sequence := t'.sequence))
  }

  /** Exactly the cancel-on-set timers among these files have been canceled. */
  ghost predicate CanceledIn(start: map<nat, Timer>, files: map<nat, Timer>, done: set<nat>) {
    && files.Keys == start.Keys
    && (forall id :: id in files && id !in done ==> files[id] == start[id])
    && (forall id :: id in files && id in done ==> CancelOutcome(start[id], files[id]))
    && (forall id :: id in files && id in done && Cancelable(start[id]) ==> Canceled(files[id]))
  }

  /** One file has been canceled if it was cancel-on-set; the others are untouched. */
  ghost predicate CanceledAt(before: map<nat, Timer>, after: map<nat, Timer>, id: nat) {
    && after.Keys == before.Keys && id in after
    && (forall k :: k in after && k != id ==> after[k] == before[k])
    && (if Cancelable(before[id]) then CancelOutcome(before[id], after[id]) && Canceled(after[id])
        else after[id] == before[id])
  }

  lemma CanceledNext(start: map<nat, Timer>, before: map<nat, Timer>, after: map<nat, Timer>, done: set<nat>, id: nat)
    requires CanceledIn(start, before, done) && id !in done && CanceledAt(before, after, id)
    ensures CanceledIn(start, after, done + {id})
  {
  }

  class TimerFdSystem {
    var files: map<nat, Timer>
    ghost var nextId: nat
    var monotonic: set<Entry>
    var realtime: set<Entry>
    var monotonicArmed: nat
    var realtimeArmed: nat
    var total: nat

    ghost function View(): Sys
      reads this
    {
      Sys(map id | id in files :: File(files[id], None, true), nextId,
          Schedule(monotonic, realtime, monotonicArmed, realtimeArmed, total), map[])
    }

    method AdjustArmedCount(clock: nat, was: bool, now: bool)
      modifies this
      ensures View() == old(View()).(sched := old(AdjustArmed(View().sched, clock, was, now)))
      ensures files == old(files) && nextId == old(nextId)
    {
      if was == now {
        return;
      }
      if clock == CLOCK_MONOTONIC {
        monotonicArmed := if now then monotonicArmed + 1 else Decrement(monotonicArmed);
      } else if clock == CLOCK_REALTIME {
        realtimeArmed := if now then realtimeArmed + 1 else Decrement(realtimeArmed);
      } else {
        return;
      }
      total := if now then total + 1 else Decrement(total);
    }

    /** update_schedule_locked for the file's new fields. */
    method UpdateScheduleLocked(id: nat, t: Timer, was: bool, old_: Option<u64>)
      requires id in files && t.clock == files[id].clock
      modifies this
      ensures View() == Rescheduled(old(View()), id, t, was, old_)
      ensures files == old(files)[id := old(UpdateSchedule(View().sched, id, t, was, old_)).0]
    {
      var isArmed := Armed(t);
      var newDeadline := if isArmed then t.deadline else None;
      if was == isArmed && old_ == newDeadline {
        files := files[id := t];
        return;
      }
      var t' := t.(sequence := t.sequence + 1);
      files := files[id := t'];
      AdjustArmedCount(t.clock, was, isArmed);
      if newDeadline.None? {
        return;
      }
      var entry := Entry(newDeadline.value, t'.sequence, id);
      if t.clock == CLOCK_MONOTONIC {
        monotonic := monotonic + {entry};
      } else if t.clock == CLOCK_REALTIME {
        realtime := realtime + {entry};
      }
    }

    /** advance_to_ns_locked: expire, then reschedule if the deadline moved. */
    method AdvanceTo(id: nat, now: u64) returns (ready: bool)
      requires id in files && Scheduled(files[id].clock) && now < U64_MAX
      modifies this
      ensures View() == Atomic(old(View()), id, Expiry(now))
      ensures files.Keys == old(files.Keys) && files[id].clock == old(files[id].clock)
      ensures ready <==> BecameReady(old(files[id]), now)
    {
      AtomicUnfolds(View(), id, Expiry(now));
      var t := files[id];
      var t';
      t', ready := UpdateExpirations(t, now);
      if t'.deadline != t.deadline {
        UpdateScheduleLocked(id, t', Armed(t), t.deadline);
      } else {
        files := files[id := t'];
      }
    }

    /** flush_expirations: advance if the clock can be read. */
    method Flush(id: nat, now: Option<u64>)
      requires id in files && (now.Some? ==> Scheduled(files[id].clock) && now.value < U64_MAX)
      modifies this
      ensures View() == FlushSpec(old(View()), id, now)
      ensures files.Keys == old(files.Keys) && files[id].clock == old(files[id].clock)
    {
      if now.Some? {
        var ready := AdvanceTo(id, now.value);
      }
    }

    /** set_time. */
    method SetTime(id: nat, deadline: Option<u64>, interval: u64, cancelOnSet: bool,
                   now1: Option<u64>, now2: Option<u64>, now3: Option<u64>)
      returns (r: Option<(u64, u64, bool)>)
      requires id in files
      requires now1.Some? ==> Scheduled(files[id].clock) && now1.value < U64_MAX
      requires now3.Some? ==> Scheduled(files[id].clock) && now3.value < U64_MAX
      modifies this
      ensures (r, View()) == SetTimeSpec(old(View()), id, Setting(deadline, interval, cancelOnSet), now1, now2, now3)
      ensures old(Inv(View())) ==> Inv(View())
      ensures forall k :: k in old(files) && k != id ==> k in files && files[k] == old(files[k])
      ensures r.Some? ==> id in files && SetAnew(files[id], deadline, interval, cancelOnSet, now3)
      ensures r.Some? ==> Reports(old(files[id]), now1, now2, r.value)
    {
      SetTimeMeaning(View(), id, Setting(deadline, interval, cancelOnSet), now1, now2, now3);
      if Inv(View()) {
        SetTimeInv(View(), id, Setting(deadline, interval, cancelOnSet), now1, now2, now3);
      }
      ViewFiles();
      r := SetTimeLocked(id, deadline, interval, cancelOnSet, now1, now2, now3);
      ViewFiles();
    }

    /** Its body, under the lock of the file. */
    method SetTimeLocked(id: nat, deadline: Option<u64>, interval: u64, cancelOnSet: bool,
                         now1: Option<u64>, now2: Option<u64>, now3: Option<u64>)
      returns (r: Option<(u64, u64, bool)>)
      requires id in files
      requires now1.Some? ==> Scheduled(files[id].clock) && now1.value < U64_MAX
      requires now3.Some? ==> Scheduled(files[id].clock) && now3.value < U64_MAX
      modifies this
      ensures (r, View()) == SetTimeSpec(old(View()), id, Setting(deadline, interval, cancelOnSet), now1, now2, now3)
    {
      Flush(id, now1);
      var t := files[id];
      assert View().files[id].t == t;
      var remain: u64 := 0;
      if !t.canceled && t.deadline.Some? {
        if now2.None? {
          return None;
        }
        remain := Remaining(t, now2.value);
      }
      ApplySetting(id, deadline, interval, cancelOnSet);
      Flush(id, now3);
      return Some((remain, t.interval, t.canceled));
    }

    method ApplySetting(id: nat, deadline: Option<u64>, interval: u64, cancelOnSet: bool)
      requires id in files
      modifies this
      ensures View() == Atomic(old(View()), id, Setting(deadline, interval, cancelOnSet))
      ensures files.Keys == old(files.Keys) && files[id].clock == old(files[id].clock)
    {
      AtomicUnfolds(View(), id, Setting(deadline, interval, cancelOnSet));
      var t := files[id];
      UpdateScheduleLocked(id, SetTimer(t, deadline, interval, cancelOnSet), Armed(t), Due(t));
    }

    /** cancel_on_realtime_set. */
    method CancelOnRealtimeSet(id: nat) returns (canceled: bool)
      requires id in files
      modifies this
      ensures View() == Atomic(old(View()), id, Cancel)
      ensures canceled <==> Cancelable(old(files[id]))
      ensures CanceledAt(old(files), files, id)
    {
      AtomicUnfolds(View(), id, Cancel);
      var t := files[id];
      if t.clock != CLOCK_REALTIME || !t.cancelOnSet || t.canceled {
        assert View().files[id := File(t, None, true)] == View().files;
        return false;
      }
      UpdateScheduleLocked(id, CancelTimer(t), Armed(t), Due(t));
      return true;
    }

    /** One clock of process_timerfd_expirations. The loop ends because every turn leaves fewer
        due entries; then no armed timer of the clock is due, and every timer that was due has
        been processed exactly once. */
    method ProcessClock(clock: nat, now: u64)
      requires Inv(View()) && Scheduled(clock) && now < U64_MAX
      modifies this
      ensures Inv(View())
      ensures files.Keys == old(files.Keys)
      ensures forall id :: id in files ==> files[id] == Processed(old(files[id]), clock, now)
      ensures forall id :: id in files ==> !DueAt(files[id], clock, now)
      ensures AllCountedUp(old(files), files, clock, now)
    {
      ghost var start := View();
      while true
        invariant Inv(View()) && Progress(start, View(), clock, now)
        decreases |DueEntries(Heap(View().sched, clock), now)|
      {
        ghost var s := View();
        var heap := if clock == CLOCK_MONOTONIC then monotonic else realtime;
        if heap == {} {
          PassComplete(start, s, clock, now);
          break;
        }
        ghost var top := TopExists(heap);
        var e :| IsTop(heap, e);
        if e.deadline > now {
          TopDecides(heap, e, now);
          PassComplete(start, s, clock, now);
          break;
        }
        TurnInv(s, clock, now, e);
        TurnShrinks(s, clock, now, e);
        TurnProgress(start, s, clock, now, e);
        TurnOnce(clock, now, e);
      }
      ViewFiles();
      AllCounted(old(files), files, clock, now);
    }

    /** The files are the timers of the view. */
    lemma ViewFiles()
      ensures files.Keys == View().files.Keys
      ensures forall id :: id in files ==> files[id] == View().files[id].t
    {
    }

    /** One turn: pop the top entry and deal with it. */
    method TurnOnce(clock: nat, now: u64, e: Entry)
      requires Inv(View()) && Scheduled(clock) && now < U64_MAX
      requires IsTop(Heap(View().sched, clock), e) && e.deadline <= now
      modifies this
      ensures View() == Turn(old(View()), clock, now, e)
    {
      ghost var s := View();
      TurnUnfolds(s, clock, now, e);
      if clock == CLOCK_MONOTONIC {
        monotonic := monotonic - {e};
      } else {
        realtime := realtime - {e};
      }
      if e.file !in files {
        return;
      }
      var t := files[e.file];
      if t.sequence != e.sequence || t.canceled || t.deadline.None? {
        return;
      }
      var t', ready := UpdateExpirations(t, now);
      UpdateScheduleLocked(e.file, t', Armed(t), t.deadline);
    }

    /** live_realtime_files. */
    method LiveRealtimeFiles() returns (live: set<nat>)
      ensures live == LiveRealtime(View())
    {
      if realtimeArmed == 0 {
        return {};
      }
      live := set e | e in realtime && e.file in files :: e.file;
    }

    /** cancel_realtime_timerfds_on_set: collect the live files of the realtime heap, then cancel
        each. Every armed cancel-on-set realtime timer is canceled, no other timer is touched
        unless it was cancel-on-set too, and the index is kept. */
    method CancelAllOnSet()
      requires Inv(View())
      modifies this
      ensures Inv(View()) && files.Keys == old(files.Keys)
      ensures forall id :: id in files ==> CancelOutcome(old(files[id]), files[id])
      ensures forall id :: id in files && Cancelable(old(files[id])) && Armed(old(files[id])) ==> Canceled(files[id])
    {
      var todo := LiveRealtimeFiles();
      CancelCovers(View());
      CancelEach(todo);
    }

    method CancelEach(live: set<nat>)
      requires Inv(View()) && live <= files.Keys
      modifies this
      ensures Inv(View()) && CanceledIn(old(files), files, live)
    {
      ghost var start, done: set<nat> := files, {};
      var todo := live;
      while todo != {}
        invariant Inv(View()) && todo <= live && CanceledIn(start, files, done)
        invariant done !! todo && done + todo == live
        decreases todo
      {
        var id :| id in todo;
        CancelOne(id, done, start);
        done, todo := done + {id}, todo - {id};
      }
      assert done == live;
    }

    method CancelOne(id: nat, ghost done: set<nat>, ghost start: map<nat, Timer>)
      requires Inv(View()) && id in files && id !in done && CanceledIn(start, files, done)
      modifies this
      ensures Inv(View()) && CanceledIn(start, files, done + {id})
    {
      ghost var before := files;
      AtomicInv(View(), id, Cancel);
      var canceled := CancelOnRealtimeSet(id);
      CanceledNext(start, before, files, done, id);
    }

    /** timerfd_work_pending_for_user_return. */
    method WorkPendingForUserReturn(monotonicNow: Option<u64>, realtimeNow: Option<u64>) returns (r: bool)
      ensures r <==> WorkPending(total, View().sched, monotonicNow, realtimeNow)
    {
      if total == 0 {
        return false;
      }
      var monotonicDue := monotonicArmed != 0 && monotonicNow.Some? && HasDue(monotonic, monotonicNow.value);
      var realtimeDue := realtimeArmed != 0 && realtimeNow.Some? && HasDue(realtime, realtimeNow.value);
      return monotonicDue || realtimeDue;
    }
  }

  /** t' is t processed by this pass; it is not due any more. */
  predicate Advanced(t: Timer, t': Timer, clock: nat, now: u64) {
    DueAt(t, clock, now) && t' == Processed(t, clock, now) && !DueAt(t', clock, now)
  }

  /** Since the pass started each timer is as it was or has been processed. */
  ghost predicate Progress(start: Sys, s: Sys, clock: nat, now: u64) {
    && s.files.Keys == start.files.Keys && Quiet(s) && Quiet(start)
    && forall id :: id in s.files ==>
         s.files[id].t == start.files[id].t || Advanced(start.files[id].t, s.files[id].t, clock, now)
  }

  lemma TurnProgress(start: Sys, s: Sys, clock: nat, now: u64, e: Entry)
    requires Inv(s) && Progress(start, s, clock, now)
    requires now < U64_MAX && IsTop(Heap(s.sched, clock), e) && e.deadline <= now
    ensures Progress(start, Turn(s, clock, now, e), clock, now)
  {
    TurnShape(s, clock, now, e);
  }

  /** When no due entry is left, every timer that was due when the pass started was processed. */
  lemma PassComplete(start: Sys, s: Sys, clock: nat, now: u64)
    requires Inv(s) && Progress(start, s, clock, now) && !HasDue(Heap(s.sched, clock), now)
    ensures forall id :: id in s.files ==>
      s.files[id].t == Processed(start.files[id].t, clock, now) && !DueAt(s.files[id].t, clock, now)
  {
    assert DueEntries(Heap(s.sched, clock), now) == {};
    NothingDue(s, clock, now);
  }

  /** update_expirations_locked. */
  method UpdateExpirations(t: Timer, now: u64) returns (t': Timer, ready: bool)
    ensures t' == Expire(t, now) && t'.expirations == Sat(t.expirations + |Elapsed(t, now)|)
    ensures ready <==> t.expirations == 0 && t'.expirations > 0
  {
    ExpireCounts(t, now);
    t' := t;
    if !t.canceled && t.deadline.Some? && now >= t.deadline.value {
      if t.interval == 0 {
        t' := t.(expirations := Sat(t.expirations + 1), deadline := None);
      } else {
        var n := Periods(t.deadline.value, t.interval, now);
        t' := t.(expirations := Sat(t.expirations + n), deadline := Some(Sat(t.deadline.value + Sat(n * t.interval))));
      }
    }
    ready := t.expirations == 0 && t'.expirations > 0;
  }

  /** With nothing under way, the collected files include every armed cancel-on-set timer. */
  lemma CancelCovers(s: Sys)
    requires Inv(s) && Quiet(s)
    ensures forall id :: id in s.files && Cancelable(s.files[id].t) && Armed(s.files[id].t) ==> id in LiveRealtime(s)
    ensures LiveRealtime(s) <= s.files.Keys
  {
    forall id | id in s.files && Cancelable(s.files[id].t) && Armed(s.files[id].t)
      ensures id in LiveRealtime(s)
    {
      CancelReachesAll(s, id);
    }
  }

  /** A turn as the code performs it. */
  lemma TurnUnfolds(s: Sys, clock: nat, now: u64, e: Entry)
    requires Inv(s) && Quiet(s) && now < U64_MAX && IsTop(Heap(s.sched, clock), e) && e.deadline <= now
    ensures var popped := s.(sched := WithHeap(s.sched, clock, Heap(s.sched, clock) - {e}));
      Turn(s, clock, now, e) ==
        if e.file in s.files && !Stale(s.files[e.file].t, e) then
          var t := s.files[e.file].t;
          Rescheduled(popped, e.file, Expire(t, now), Armed(t), t.deadline)
        else popped
  {
    var s1 := Step(s, Pop(0, clock, now, e));
    assert s1.hands == map[0 := Hand(e, clock, now)];
    assert s1.hands - {0} == map[];
    StepIndexed(s, Pop(0, clock, now, e));
    assert HandOk(s1, s1.hands[0]);
    if e.file in s.files && !Stale(s.files[e.file].t, e) {
      var t := s.files[e.file].t;
      assert FileOk(s, e.file) && s.files[e.file].alive;
      ExpireMovesOn(t, now);
      var f := Changed(t, Expiry(now));
      var s2 := Step(s1, Handle(0));
      assert s2 == Put(s1.(hands := map[]), e.file, f);
      var g := Settled(s2, e.file).files[e.file];
      assert s.files[e.file := f][e.file := g] == s.files[e.file := g];
    }
  }
}
