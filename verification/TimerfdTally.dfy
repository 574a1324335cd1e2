/** What the readers of a timer file get over whole runs (src/fs/timerfd.rs): every point of the
    setting in force is counted once, whatever passes, flushes and reads come in between. */
module TimerfdTally {
  import opened TimerfdCore
  import opened TimerfdRuns

  /** A timer as its users see it: the setting in force, the latest instant up to which it has been
      brought since it was set, and how many expirations have been read since. */
  datatype Tally = Tally(d: Option<u64>, i: u64, seen: Option<u64>, taken: nat)

  function Later(seen: Option<u64>, now: u64): Option<u64> {
    if seen.Some? && seen.value > now then seen else Some(now)
  }

  /** The pass brings the timer up to its instant: the entry it holds is the timer's current one. */
  predicate Reaches(s: Sys, pass: nat, id: nat) {
    && pass in s.hands && s.hands[pass].entry.file == id
    && Unlocked(s, id) && !Stale(s.files[id].t, s.hands[pass].entry)
  }

  function ChangedTally(y: Tally, t: Timer, c: Change): Tally {
    match c
    case Expiry(now) => y.(seen := Later(y.seen, now))
    case Setting(d, interval, _) => Tally(d, interval, None, 0)
    case Cancel => if Cancelable(t) then Tally(None, y.i, None, 0) else y
  }

  function NextTally(y: Option<Tally>, s: Sys, e: Event, id: nat): Option<Tally> {
    match e
    case Create(_) => if s.nextId == id then Some(Tally(None, 0, None, 0)) else y
    case Begin(i, c) =>
      if i != id || y.None? || !Unlocked(s, id) || !Allowed(s.files[id].t, c) then y
      else Some(ChangedTally(y.value, s.files[id].t, c))
    case ReadCounter(i) =>
      if i != id || y.None? || !Unlocked(s, id) then y
      else Some(y.value.(taken := y.value.taken + s.files[id].t.expirations))
    case Handle(pass) =>
      if y.None? || !Reaches(s, pass, id) then y
      else Some(y.value.(seen := Later(y.value.seen, s.hands[pass].now)))
    case Drop(i) =>
      if i != id || id !in s.files || s.files[id].alive || s.files[id].owed.Some? then y else None
    case _ => y
  }

  function TallyOf(events: seq<Event>, id: nat): Option<Tally> {
    if events == [] then None
    else
      var n := |events| - 1;
      NextTally(TallyOf(events[..n], id), Run(Start(), events[..n]), events[n], id)
  }

  /** How many points of the setting have passed. */
  ghost function Passed(y: Tally): nat {
    if y.seen.None? then 0 else |Points(y.d, y.i, y.seen.value)|
  }

  /** The first point not passed yet, saturated; none for a timer that is disarmed or has expired
      for good. */
  function NextDue(y: Tally): Option<u64> {
    if y.d.None? || y.seen.None? || y.d.value > y.seen.value then y.d
    else if y.i == 0 then None
    else Some(Sat(y.d.value + Periods(y.d.value, y.i, y.seen.value) * y.i))
  }

  ghost predicate Caught(t: Timer, y: Tally) {
    && t.interval == y.i && (t.canceled ==> y.d.None?)
    && (y.seen.Some? ==> y.seen.value < U64_MAX)
    && t.expirations + y.taken == Passed(y)
    && t.deadline == NextDue(y)
  }

  lemma PeriodsBound(d: u64, i: u64, now: u64)
    requires i > 0 && d <= now
    ensures Periods(d, i, now) <= now + 1
  {
    PeriodsExact(d, i, now, 0);
    var n := Periods(d, i, now);
    MulMono(1, i, n - 1);
  }

  /** The timer has not reached its first point before this expiry. */
  lemma CaughtFirst(t: Timer, y: Tally, now: u64)
    requires Caught(t, y) && now < U64_MAX && y.d.Some? && (y.seen.None? || y.d.value > y.seen.value)
    ensures Caught(Expire(t, now), y.(seen := Later(y.seen, now)))
  {
    var y' := y.(seen := Later(y.seen, now));
    if y.seen.Some? {
      PointsCounted(y.d, y.i, y.seen.value);
    }
    PointsCounted(y.d, y.i, y'.seen.value);
    if y.d.value <= now && y.i > 0 {
      CatchUp(t, now);
      PeriodsBound(y.d.value, y.i, now);
    }
  }

  /** The timer is periodic and has passed some of its points. */
  lemma CaughtAgain(t: Timer, y: Tally, now: u64)
    requires Caught(t, y) && now < U64_MAX && y.d.Some? && y.i > 0 && y.seen.Some? && y.d.value <= y.seen.value
    ensures Caught(Expire(t, now), y.(seen := Later(y.seen, now)))
  {
    var y' := y.(seen := Later(y.seen, now));
    var d, i, seen := y.d.value, y.i, y.seen.value;
    PointsCounted(y.d, i, seen);
    PointsCounted(y.d, i, y'.seen.value);
    PeriodsExact(d, i, seen, 0);
    if now > seen {
      PeriodsCompose(d, i, seen, now);
      var n := Periods(d, i, seen);
      if d + n * i <= now {
        CatchUp(t, now);
        SumMul(n, Periods(d + n * i, i, now), i);
        PeriodsBound(d, i, now);
      }
    }
  }

  /** An expiry at any instant counts exactly the points not counted yet. */
  lemma CaughtExpiry(t: Timer, y: Tally, now: u64)
    requires Caught(t, y) && now < U64_MAX
    ensures Caught(Expire(t, now), y.(seen := Later(y.seen, now)))
  {
    if y.d.None? {
      PointsCounted(None, y.i, now);
      if y.seen.Some? {
        PointsCounted(None, y.i, y.seen.value);
      }
    } else if y.seen.None? || y.d.value > y.seen.value {
      CaughtFirst(t, y, now);
    } else if y.i > 0 {
      CaughtAgain(t, y, now);
    } else {
      PointsCounted(y.d, y.i, y.seen.value);
      PointsCounted(y.d, y.i, Later(y.seen, now).value);
    }
  }

  ghost predicate TallyOk(s: Sys, id: nat, y: Option<Tally>) {
    (id in s.files <==> y.Some?) && (y.Some? ==> Caught(s.files[id].t, y.value))
  }

  lemma TallyBegin(s: Sys, id: nat, c: Change, y: Tally)
    requires Unlocked(s, id) && Allowed(s.files[id].t, c) && Caught(s.files[id].t, y)
    ensures Caught(Changed(s.files[id].t, c).t, ChangedTally(y, s.files[id].t, c))
  {
    if c.Expiry? {
      CaughtExpiry(s.files[id].t, y, c.now);
    }
  }

  lemma TallyHandle(s: Sys, pass: nat, id: nat, y: Option<Tally>)
    requires Indexed(s) && TallyOk(s, id, y)
    ensures TallyOk(Step(s, Handle(pass)), id, NextTally(y, s, Handle(pass), id))
  {
    if y.Some? && Reaches(s, pass, id) {
      assert HandOk(s, s.hands[pass]);
      CaughtExpiry(s.files[id].t, y.value, s.hands[pass].now);
    }
  }

  lemma TallyStep(s: Sys, e: Event, id: nat, y: Option<Tally>)
    requires Indexed(s) && TallyOk(s, id, y)
    ensures TallyOk(Step(s, e), id, NextTally(y, s, e, id))
  {
    match e
    case Begin(i, c) =>
      if i == id && y.Some? && Unlocked(s, id) && Allowed(s.files[id].t, c) {
        TallyBegin(s, id, c, y.value);
      }
    case Handle(pass) => TallyHandle(s, pass, id, y);
    case _ =>
  }

  /** Main theorem: over every run, for every timer file, what has been read since the timer was
      set and what is still to be read add up to the number of points of the setting up to the
      latest instant the timer was brought up to. No point is lost and none is counted twice,
      whichever passes, flushes and reads happened, and the deadline is the first point left. */
  lemma {:induction false} EveryPointCountedOnce(events: seq<Event>, id: nat)
    ensures TallyOk(Run(Start(), events), id, TallyOf(events, id))
  {
    if events != [] {
      var n := |events| - 1;
      EveryPointCountedOnce(events[..n], id);
      EveryRun(events[..n]);
      TallyStep(Run(Start(), events[..n]), events[n], id, TallyOf(events[..n], id));
    }
  }
}
