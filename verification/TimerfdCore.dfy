/** timerfd: one timer's arithmetic and the schedule that indexes the armed timers
    (src/fs/timerfd.rs). */
module TimerfdCore {

  const U64_MAX: int := 0xffff_ffff_ffff_ffff
  type u64 = x: int | 0 <= x <= 0xffff_ffff_ffff_ffff

  const CLOCK_REALTIME: nat := 0
  const CLOCK_MONOTONIC: nat := 1

  datatype Option<+T> = None | Some(value: T)

  function Sat(x: nat): u64 {
    if x <= U64_MAX then x else U64_MAX
  }

  /** The locked part of a timer file. `sequence` is schedule_seq; it is never wrapped here. */
  datatype Timer = Timer(
    clock: nat,
    deadline: Option<u64>,
    interval: u64,
    expirations: u64,
    cancelOnSet: bool,
    canceled: bool,
    sequence: nat)

  function NewTimer(clock: nat): Timer {
    Timer(clock, None, 0, 0, false, false, 0)
  }

  predicate Scheduled(clock: nat) {
    clock == CLOCK_REALTIME || clock == CLOCK_MONOTONIC
  }

  predicate Armed(t: Timer) {
    Scheduled(t.clock) && t.deadline.Some? && !t.canceled
  }

  // ----- one timer: expiry and catch-up -----

  /** How many periods have elapsed at `now`, counting the deadline itself. */
  function Periods(deadline: u64, interval: u64, now: u64): nat
    requires interval > 0 && deadline <= now
  {
    (now - deadline) / interval + 1
  }

  /** update_expirations_locked. */
  function Expire(t: Timer, now: u64): Timer {
    if t.canceled || t.deadline.None? || now < t.deadline.value then t
    else if t.interval == 0 then t.(expirations := Sat(t.expirations + 1), deadline := None)
    else
      var n := Periods(t.deadline.value, t.interval, now);
      t.(expirations := Sat(t.expirations + n), deadline := Some(Sat(t.deadline.value + Sat(n * t.interval))))
  }

  /** Its return value: the timer has just become readable. */
  predicate BecameReady(t: Timer, now: u64) {
    t.expirations == 0 && Expire(t, now).expirations > 0
  }

  lemma {:induction false} MulMono(a: nat, b: nat, c: nat)
    requires a <= b
    ensures a * c <= b * c
  {
    assert b * c == a * c + (b - a) * c;
  }

  /** Catch-up counts exactly the points deadline + k * interval that are not after now, and
      the next point is the first one after now. */
  lemma {:induction false} PeriodsExact(deadline: u64, interval: u64, now: u64, k: nat)
    requires interval > 0 && deadline <= now
    ensures var n := Periods(deadline, interval, now);
      && (deadline + k * interval <= now <==> k < n)
      && deadline + (n - 1) * interval <= now < deadline + n * interval
  {
    var n := Periods(deadline, interval, now);
    var q := (now - deadline) / interval;
    assert now - deadline == q * interval + (now - deadline) % interval;
    assert n * interval == q * interval + interval;
    if k < n {
      MulMono(k, q, interval);
    } else {
      MulMono(n, k, interval);
    }
  }

  /** A periodic timer that is due. */
  predicate Ticking(t: Timer, now: u64) {
    !t.canceled && t.deadline.Some? && t.interval > 0 && t.deadline.value <= now
  }

  /** The first point after now, which need not fit in 64 bits. */
  function NextPoint(t: Timer, now: u64): nat
    requires Ticking(t, now)
  {
    t.deadline.value + Periods(t.deadline.value, t.interval, now) * t.interval
  }

  /** A periodic timer that is due counts the elapsed points and moves to the first point after
      now, held at the last representable instant. */
  lemma CatchUp(t: Timer, now: u64)
    requires Ticking(t, now)
    ensures now < NextPoint(t, now) <= now + t.interval
    ensures Expire(t, now) == t.(expirations := Sat(t.expirations + Periods(t.deadline.value, t.interval, now)),
                                 deadline := Some(Sat(NextPoint(t, now))))
  {
    PeriodsExact(t.deadline.value, t.interval, now, 0);
    var n := Periods(t.deadline.value, t.interval, now);
    assert n * t.interval == (n - 1) * t.interval + t.interval;
    SatTwice(t.deadline.value, n * t.interval);
  }

  lemma SatTwice(d: u64, x: nat)
    ensures Sat(d + Sat(x)) == Sat(d + x)
  {
  }

  // ----- the count as a number of points -----

  /** The instants at which a timer set to expire first at d and then every i expires. */
  function PointAt(d: u64, i: u64, k: nat): (x: nat)
    ensures x >= d
  {
    d + k * i
  }

  /** x is such an instant; with i zero there is only the first. */
  ghost predicate Point(d: Option<u64>, i: u64, x: int) {
    d.Some? && exists k: nat :: x == PointAt(d.value, i, k) && (i > 0 || k == 0)
  }

  /** The points up to now. */
  ghost function Points(d: Option<u64>, i: u64, now: u64): set<int> {
    set x: int | 0 <= x <= now && Point(d, i, x)
  }

  function FirstPoints(d: u64, i: u64, n: nat): (s: set<int>)
    requires i > 0
    ensures forall x :: x in s ==> x < PointAt(d, i, n)
    ensures |s| == n
  {
    if n == 0 then {}
    else
      var before := FirstPoints(d, i, n - 1);
      assert n * i == (n - 1) * i + i;
      before + {PointAt(d, i, n - 1)}
  }

  lemma {:induction false} FirstPointsAre(d: u64, i: u64, n: nat, x: int)
    requires i > 0
    ensures x in FirstPoints(d, i, n) <==> exists k: nat :: x == PointAt(d, i, k) && k < n
  {
    if n > 0 {
      FirstPointsAre(d, i, n - 1, x);
      if x in FirstPoints(d, i, n - 1) {
        var k: nat :| x == PointAt(d, i, k) && k < n - 1;
        assert x == PointAt(d, i, k) && k < n;
      } else if x == PointAt(d, i, n - 1) {
        assert n - 1 < n;
      }
    }
  }

  /** How many points there are up to now. */
  function PointCount(d: Option<u64>, i: u64, now: u64): nat {
    if d.None? || d.value > now then 0 else if i == 0 then 1 else Periods(d.value, i, now)
  }

  lemma PointsCounted(d: Option<u64>, i: u64, now: u64)
    ensures |Points(d, i, now)| == PointCount(d, i, now)
  {
    var points := Points(d, i, now);
    if d.None? || d.value > now {
      assert points == {};
    } else if i == 0 {
      assert d.value == PointAt(d.value, i, 0);
      assert points == {d.value as int};
    } else {
      PointsAreFirst(d.value, i, now);
    }
  }

  lemma PointsAreFirst(d: u64, i: u64, now: u64)
    requires i > 0 && d <= now
    ensures Points(Some(d), i, now) == FirstPoints(d, i, Periods(d, i, now))
  {
    var points, n := Points(Some(d), i, now), Periods(d, i, now);
    forall x
      ensures x in points <==> x in FirstPoints(d, i, n)
    {
      FirstPointsAre(d, i, n, x);
      if x in points {
        var k: nat :| x == PointAt(d, i, k) && (i > 0 || k == 0);
        PeriodsExact(d, i, now, k);
      } else if k: nat :| x == PointAt(d, i, k) && k < n {
        PeriodsExact(d, i, now, k);
        assert Point(Some(d), i, x);
      }
    }
  }

  /** The points of a timer that are due at now; a canceled or disarmed timer has none. */
  ghost function Elapsed(t: Timer, now: u64): set<int> {
    Points(if t.canceled then None else t.deadline, t.interval, now)
  }

  /** Main theorem on one expiry, for periodic and one-shot timers alike: the count grows by the
      number of points up to now, saturated; a timer none of whose points is due is untouched; a
      due one-shot timer is disarmed; a due periodic one moves to its first point after now,
      held at the last representable instant. */
  lemma ExpireCounts(t: Timer, now: u64)
    ensures
      var t' := Expire(t, now);
      && t'.expirations == Sat(t.expirations + |Elapsed(t, now)|)
      && t' == t.(deadline := t'.deadline, expirations := t'.expirations)
      && (Elapsed(t, now) == {} ==> t' == t)
      && (Elapsed(t, now) != {} && t.interval == 0 ==> t'.deadline == None)
      && (Elapsed(t, now) != {} && t.interval > 0 ==> t'.deadline.Some? && FirstAfter(t, now, t'.deadline.value))
  {
    var d := if t.canceled then None else t.deadline;
    PointsCounted(d, t.interval, now);
    assert Elapsed(t, now) != {} ==> |Elapsed(t, now)| > 0;
    if d.Some? && d.value <= now {
      assert d.value == PointAt(d.value, t.interval, 0);
      assert d.value as int in Elapsed(t, now);
      if t.interval > 0 {
        CatchUp(t, now);
        NextPointIsFirst(t, now);
      }
    }
  }

  /** The first point of the timer after now, saturated. */
  ghost predicate FirstAfter(t: Timer, now: u64, deadline: u64) {
    exists p: nat :: IsFirstAfter(t, now, p) && deadline == Sat(p)
  }

  ghost predicate IsFirstAfter(t: Timer, now: u64, p: nat) {
    && p > now && Point(t.deadline, t.interval, p)
    && forall x :: now < x < p ==> !Point(t.deadline, t.interval, x)
  }

  lemma NextPointIsFirst(t: Timer, now: u64)
    requires Ticking(t, now)
    ensures IsFirstAfter(t, now, NextPoint(t, now))
  {
    var d, i := t.deadline.value, t.interval;
    var n := Periods(d, i, now);
    PeriodsExact(d, i, now, n);
    assert NextPoint(t, now) == PointAt(d, i, n);
    forall x | now < x < NextPoint(t, now)
      ensures !Point(t.deadline, i, x)
    {
      if k: nat :| x == PointAt(d, i, k) {
        PeriodsExact(d, i, now, k);
        MulMono(n, k, i);
        assert false;
      }
    }
  }

  /** Splitting a catch-up adds the two counts. */
  lemma {:induction false} PeriodsCompose(d: u64, i: u64, t1: u64, t2: u64)
    requires i > 0 && d <= t1 <= t2
    ensures var n1 := Periods(d, i, t1);
      var d1 := d + n1 * i;
      if d1 <= t2 && d1 <= U64_MAX then Periods(d, i, t2) == n1 + Periods(d1, i, t2)
      else d1 > t2 ==> Periods(d, i, t2) == n1
  {
    var n1 := Periods(d, i, t1);
    var d1 := d + n1 * i;
    PeriodsExact(d, i, t1, 0);
    if d1 <= t2 && d1 <= U64_MAX {
      var n2 := Periods(d1, i, t2);
      PeriodsExact(d1, i, t2, 0);
      SumMul(n1, n2, i);
      SumMul(n1, n2 - 1, i);
      PeriodsExact(d, i, t2, n1 + n2);
      PeriodsExact(d, i, t2, n1 + n2 - 1);
    } else if d1 > t2 {
      PeriodsExact(d, i, t2, n1);
      PeriodsExact(d, i, t2, n1 - 1);
    }
  }

  /** The one case in which a stop on the way shows: the timer is due at t1, its next point no
      longer fits in 64 bits, the clock reaches the last representable instant, and the counter
      is not full. */
  predicate StopShows(t: Timer, t1: u64, t2: u64) {
    && Ticking(t, t1) && NextPoint(t, t1) > U64_MAX && t2 == U64_MAX
    && t.expirations + Periods(t.deadline.value, t.interval, t1) < U64_MAX
  }

  /** Advancing to t1 and then to t2 gives the same timer as advancing straight to t2, except in
      that one case. */
  lemma AdvanceComposes(t: Timer, t1: u64, t2: u64)
    requires t1 <= t2
    ensures Expire(Expire(t, t1), t2) == Expire(t, t2) <==> !StopShows(t, t1, t2)
  {
    if Ticking(t, t1) {
      CatchUp(t, t1);
      CatchUp(t, t2);
      PeriodsCompose(t.deadline.value, t.interval, t1, t2);
      if NextPoint(t, t1) > U64_MAX {
        ComposeHeld(t, t1, t2);
      } else if NextPoint(t, t1) <= t2 {
        ComposeCounts(t, t1, t2);
      }
    }
  }

  /** The timer is held at the last instant: only that instant expires it again. */
  lemma ComposeHeld(t: Timer, t1: u64, t2: u64)
    requires t1 <= t2 && Ticking(t, t1) && NextPoint(t, t1) > U64_MAX
    requires
      var count := Sat(t.expirations + Periods(t.deadline.value, t.interval, t1));
      Expire(t, t1) == t.(expirations := count, deadline := Some(U64_MAX))
    requires Expire(t, t2) == Expire(t, t1)
    ensures Expire(Expire(t, t1), t2) == Expire(t, t2) <==> !StopShows(t, t1, t2)
  {
    var mid := Expire(t, t1);
    if t2 == U64_MAX {
      CatchUp(mid, t2);
      assert Periods(U64_MAX, t.interval, t2) == 1;
    }
  }

  lemma ComposeCounts(t: Timer, t1: u64, t2: u64)
    requires t1 <= t2 && Ticking(t, t1) && NextPoint(t, t1) <= t2
    requires Expire(t, t1) == t.(expirations := Sat(t.expirations + Periods(t.deadline.value, t.interval, t1)),
                                 deadline := Some(NextPoint(t, t1)))
    ensures Expire(Expire(t, t1), t2) == Expire(t, t2)
  {
    var d, i, e := t.deadline.value, t.interval, t.expirations;
    var n1, d1 := Periods(d, i, t1), NextPoint(t, t1);
    var n2 := Periods(d1, i, t2);
    CatchUp(Expire(t, t1), t2);
    CatchUp(t, t2);
    PeriodsCompose(d, i, t1, t2);
    SumMul(n1, n2, i);
    SatAdds(e, n1, n2);
  }

  lemma SatAdds(e: u64, a: nat, b: nat)
    ensures Sat(Sat(e + a) + b) == Sat(e + (a + b))
  {
  }

  lemma SumMul(a: nat, b: nat, c: nat)
    ensures (a + b) * c == a * c + b * c
  {
  }

  /** An expired timer is disarmed or due later: its deadline always changes, saturation
      included, unless the clock itself stands at the last representable instant. */
  lemma ExpireMovesOn(t: Timer, now: u64)
    requires now < U64_MAX && !t.canceled && t.deadline.Some? && t.deadline.value <= now
    ensures var t' := Expire(t, now);
      && t'.deadline != t.deadline
      && (t'.deadline.Some? ==> t'.deadline.value > now)
      && t' == t.(deadline := t'.deadline, expirations := t'.expirations)
      && t'.expirations > 0
  {
    if t.interval > 0 {
      PeriodsExact(t.deadline.value, t.interval, now, 0);
    }
  }

  // ----- the schedule -----

  /** An entry of a clock's heap; `file` stands for the weak reference. */
  datatype Entry = Entry(deadline: u64, sequence: nat, file: nat)

  /** The two heaps and the armed counters. Entries of one file differ in their sequence, so
      a heap holds no entry twice and is a set. */
  datatype Schedule = Schedule(
    monotonic: set<Entry>,
    realtime: set<Entry>,
    monotonicArmed: nat,
    realtimeArmed: nat,
    total: nat)

  function Heap(s: Schedule, clock: nat): set<Entry> {
    if clock == CLOCK_MONOTONIC then s.monotonic
    else if clock == CLOCK_REALTIME then s.realtime
    else {}
  }

  function Count(s: Schedule, clock: nat): nat {
    if clock == CLOCK_MONOTONIC then s.monotonicArmed
    else if clock == CLOCK_REALTIME then s.realtimeArmed
    else 0
  }

  function WithHeap(s: Schedule, clock: nat, heap: set<Entry>): Schedule {
    if clock == CLOCK_MONOTONIC then s.(monotonic := heap)
    else if clock == CLOCK_REALTIME then s.(realtime := heap)
    else s
  }

  function Decrement(n: nat): nat {
    if n > 0 then n - 1 else 0
  }

  /** adjust_armed, with its saturating subtractions. */
  function AdjustArmed(s: Schedule, clock: nat, was: bool, now: bool): Schedule {
    if was == now || !Scheduled(clock) then s
    else
      var n := if now then Count(s, clock) + 1 else Decrement(Count(s, clock));
      var s' := if clock == CLOCK_MONOTONIC then s.(monotonicArmed := n) else s.(realtimeArmed := n);
      s'.(total := if now then s.total + 1 else Decrement(s.total))
  }

  /** The deadline a timer is scheduled for. */
  function Due(t: Timer): Option<u64> {
    if Armed(t) then t.deadline else None
  }

  /** update_schedule_locked: bring the index in line with a timer whose fields just changed. */
  function UpdateSchedule(s: Schedule, id: nat, t: Timer, was: bool, old_: Option<u64>): (Timer, Schedule) {
    if was == Armed(t) && old_ == Due(t) then (t, s)
    else
      var t' := t.(sequence := t.sequence + 1);
      var s' := AdjustArmed(s, t.clock, was, Armed(t));
      if Due(t).None? then (t', s')
      else (t', WithHeap(s', t.clock, Heap(s', t.clock) + {Entry(Due(t).value, t'.sequence, id)}))
  }

  /** The order of the heap: earlier deadline first, then smaller sequence. */
  predicate Before(a: Entry, b: Entry) {
    a.deadline < b.deadline || (a.deadline == b.deadline && a.sequence < b.sequence)
  }

  /** An entry peek may return. */
  predicate IsTop(heap: set<Entry>, e: Entry) {
    e in heap && forall x :: x in heap ==> !Before(x, e)
  }

  lemma {:induction false} TopExists(heap: set<Entry>) returns (e: Entry)
    requires heap != {}
    ensures IsTop(heap, e)
    decreases |heap|
  {
    var x :| x in heap;
    if heap == {x} {
      e := x;
    } else {
      var rest := heap - {x};
      assert !(heap <= {x});
      var y := TopExists(rest);
      e := if Before(x, y) then x else y;
      forall z | z in heap
        ensures !Before(z, e)
      {
        if z != x {
          assert z in rest;
        }
      }
    }
  }

  /** The check on return to user mode, given the total it read first and the schedule it
      then locked. */
  predicate WorkPending(total: nat, s: Schedule, monotonicNow: Option<u64>, realtimeNow: Option<u64>) {
    && total != 0
    && (|| (s.monotonicArmed != 0 && monotonicNow.Some? && HasDue(s.monotonic, monotonicNow.value))
        || (s.realtimeArmed != 0 && realtimeNow.Some? && HasDue(s.realtime, realtimeNow.value)))
  }

  /** The top entry of a heap is due. */
  predicate HasDue(heap: set<Entry>, now: u64) {
    exists e :: e in heap && e.deadline <= now
  }

  /** Peeking is enough: the top is due exactly when any entry is. */
  lemma TopDecides(heap: set<Entry>, e: Entry, now: u64)
    requires IsTop(heap, e)
    ensures e.deadline <= now <==> HasDue(heap, now)
  {
  }
}
