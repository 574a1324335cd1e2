/** Physical frames: the bump-and-recycle allocator, the counted frame handles, and the
    protocol between their two locks (src/mm/frame_allocator.rs). */
module FrameAllocator {

  datatype Option<+T> = None | Some(value: T)

  /** One managed interval of page numbers: [start, current) has been handed out at least
      once, [current, end) never. */
  datatype FrameRange = FrameRange(start: nat, current: nat, end: nat)

  datatype Pool = Pool(ranges: seq<FrameRange>, recycled: seq<nat>, recycledSet: set<nat>, managed: nat)

  // ----- operations on values -----

  function AddRange(a: Pool, l: nat, r: nat): Pool {
    if r <= l then a
    else a.(managed := a.managed + (r - l), ranges := a.ranges + [FrameRange(l, l, r)])
  }

  /** The first range from index i on that still has n contiguous fresh pages. */
  function FirstFit(ranges: seq<FrameRange>, n: nat, i: nat): nat
    decreases |ranges| - i
  {
    if i < |ranges| && ranges[i].current + n > ranges[i].end then FirstFit(ranges, n, i + 1) else i
  }

  function Advance(r: FrameRange, n: nat): FrameRange {
    r.(current := r.current + n)
  }

  function AllocContiguous(a: Pool, n: nat): (Pool, Option<nat>) {
    var i := FirstFit(a.ranges, n, 0);
    if n == 0 || i >= |a.ranges| then (a, None)
    else (a.(ranges := a.ranges[i := Advance(a.ranges[i], n)]), Some(a.ranges[i].current))
  }

  function Alloc(a: Pool): (Pool, Option<nat>) {
    if a.recycled != [] then
      var ppn := a.recycled[|a.recycled| - 1];
      (a.(recycled := a.recycled[..|a.recycled| - 1], recycledSet := a.recycledSet - {ppn}), Some(ppn))
    else AllocContiguous(a, 1)
  }

  predicate WasAllocated(ranges: seq<FrameRange>, ppn: nat) {
    exists i :: 0 <= i < |ranges| && ranges[i].start <= ppn < ranges[i].current
  }

  /** The check in dealloc fails and the kernel panics. */
  predicate DeallocPanics(a: Pool, ppn: nat) {
    !WasAllocated(a.ranges, ppn) || ppn in a.recycledSet
  }

  function Dealloc(a: Pool, ppn: nat): Pool {
    a.(recycled := a.recycled + [ppn], recycledSet := a.recycledSet + {ppn})
  }

  // ----- the allocator object -----

  class StackFrameAllocator {
    var ranges: seq<FrameRange>
    var recycled: seq<nat>
    var recycledSet: set<nat>
    var managedPages: nat

    ghost function View(): Pool
      reads this
    {
      Pool(ranges, recycled, recycledSet, managedPages)
    }

    constructor ()
      ensures View() == Pool([], [], {}, 0)
    {
      ranges, recycled, recycledSet, managedPages := [], [], {}, 0;
    }

    method RegisterRange(l: nat, r: nat)
      modifies this
      ensures View() == AddRange(old(View()), l, r)
    {
      if r <= l {
        return;
      }
      managedPages := managedPages + (r - l);
      ranges := ranges + [FrameRange(l, l, r)];
    }

    method TakeContiguous(pages: nat) returns (r: Option<nat>)
      modifies this
      ensures (View(), r) == old(AllocContiguous(View(), pages))
    {
      if pages == 0 {
        return None;
      }
      for i := 0 to |ranges|
        invariant View() == old(View())
        invariant FirstFit(ranges, pages, i) == FirstFit(ranges, pages, 0)
      {
        if ranges[i].current + pages <= ranges[i].end {
          var start := ranges[i].current;
          ranges := ranges[i := ranges[i].(current := start + pages)];
          return Some(start);
        }
      }
      return None;
    }

    method Take() returns (r: Option<nat>)
      modifies this
      ensures (View(), r) == old(Alloc(View()))
    {
      if |recycled| > 0 {
        var ppn := recycled[|recycled| - 1];
        recycled := recycled[..|recycled| - 1];
        recycledSet := recycledSet - {ppn};
        return Some(ppn);
      }
      for i := 0 to |ranges|
        invariant View() == old(View())
        invariant FirstFit(ranges, 1, i) == FirstFit(ranges, 1, 0)
      {
        if ranges[i].current < ranges[i].end {
          var ppn := ranges[i].current;
          ranges := ranges[i := ranges[i].(current := ppn + 1)];
          return Some(ppn);
        }
      }
      return None;
    }

    /** The check that panics in the source is this method's precondition; FramesNeverPanic
        shows that no reachable release violates it. */
    method GiveBack(ppn: nat)
      requires !DeallocPanics(View(), ppn)
      modifies this
      ensures View() == Dealloc(old(View()), ppn)
    {
      recycledSet := recycledSet + {ppn};
      recycled := recycled + [ppn];
    }

    /** frame_available_pages: recycled plus never-issued pages. */
    method AvailablePages() returns (n: nat)
      requires GoodRanges(ranges)
      ensures n == |recycled| + Remaining(ranges)
    {
      n := |recycled|;
      for i := 0 to |ranges|
        invariant n == |recycled| + Remaining(ranges[..i])
      {
        n := n + (ranges[i].end - ranges[i].current);
        assert ranges[..i + 1][..i] == ranges[..i];
      }
      assert ranges[..|ranges|] == ranges;
    }
  }

  /** FRAME_REFCOUNTS: how many trackers each outstanding frame has. */
  class FrameRefcounts {
    var counts: map<nat, nat>

    constructor ()
      ensures counts == map[]
    {
      counts := map[];
    }

    method NewTracker(ppn: nat)
      modifies this
      ensures counts == old(counts)[ppn := 1]
    {
      counts := counts[ppn := 1];
    }

    method CloneTracker(ppn: nat)
      modifies this
      ensures counts == old(counts)[ppn := (if ppn in old(counts) then old(counts)[ppn] else 0) + 1]
    {
      if ppn !in counts {
        counts := counts[ppn := 0];
      }
      counts := counts[ppn := counts[ppn] + 1];
    }

    /** The first half of a drop; `last` says that the frame must now be given back. */
    method DropTracker(ppn: nat) returns (last: bool)
      modifies this
      ensures last <==> ppn in old(counts) && old(counts)[ppn] <= 1
      ensures last ==> counts == old(counts) - {ppn}
      ensures !last && ppn in old(counts) ==> counts == old(counts)[ppn := old(counts)[ppn] - 1]
      ensures ppn !in old(counts) ==> counts == old(counts)
    {
      if ppn !in counts {
        return false;
      }
      if counts[ppn] <= 1 {
        counts := counts - {ppn};
        return true;
      }
      counts := counts[ppn := counts[ppn] - 1];
      return false;
    }
  }

  /** frame_alloc_contiguous: take a run under one lock, then give each page its tracker. */
  method FrameAllocContiguous(allocator: StackFrameAllocator, rc: FrameRefcounts, pages: nat)
    returns (frames: Option<seq<nat>>)
    modifies allocator, rc
    ensures (allocator.View(), FirstOf(frames)) == old(AllocContiguous(allocator.View(), pages))
    ensures frames.None? ==> rc.counts == old(rc.counts)
    ensures frames.Some? ==>
      && |frames.value| == pages > 0
      && (forall i :: 0 <= i < pages ==> frames.value[i] == frames.value[0] + i)
      && Tracked(old(rc.counts), rc.counts, frames.value)
  {
    var start := allocator.TakeContiguous(pages);
    if start.None? {
      return None;
    }
    var taken: seq<nat> := [];
    for i := 0 to pages
      invariant |taken| == i && forall k :: 0 <= k < i ==> taken[k] == start.value + k
      invariant Tracked(old(rc.counts), rc.counts, taken)
      invariant (allocator.View(), start) == old(AllocContiguous(allocator.View(), pages))
    {
      rc.NewTracker(start.value + i);
      taken := taken + [start.value + i];
    }
    return Some(taken);
  }

  function FirstOf(frames: Option<seq<nat>>): Option<nat> {
    if frames.Some? && frames.value != [] then Some(frames.value[0]) else None
  }

  /** The counts of exactly the listed frames were set to one. */
  ghost predicate Tracked(before: map<nat, nat>, after: map<nat, nat>, frames: seq<nat>) {
    && (forall p :: p in after <==> p in before || p in frames)
    && (forall p :: p in after ==> after[p] == if p in frames then 1 else before[p])
  }

  // ----- page sets -----

  predicate GoodRanges(ranges: seq<FrameRange>) {
    && (forall i :: 0 <= i < |ranges| ==> ranges[i].start <= ranges[i].current <= ranges[i].end)
    && (forall i, j :: 0 <= i < j < |ranges| ==> ranges[i].end <= ranges[j].start || ranges[j].end <= ranges[i].start)
  }

  function Interval(lo: nat, hi: nat): (s: set<nat>)
    ensures forall p :: p in s <==> lo <= p < hi
    ensures lo <= hi ==> |s| == hi - lo
    decreases hi - lo
  {
    if lo >= hi then {} else {lo} + Interval(lo + 1, hi)
  }

  /** The pages handed out at least once. */
  function Issued(ranges: seq<FrameRange>): (s: set<nat>)
    ensures forall p :: p in s <==> WasAllocated(ranges, p)
  {
    if ranges == [] then {}
    else
      var n := |ranges| - 1;
      var s := Issued(ranges[..n]) + Interval(ranges[n].start, ranges[n].current);
      assert forall p: nat :: WasAllocated(ranges, p) <==>
        WasAllocated(ranges[..n], p) || ranges[n].start <= p < ranges[n].current by {
        LastRange(ranges);
      }
      s
  }

  lemma LastRange(ranges: seq<FrameRange>)
    requires ranges != []
    ensures var n := |ranges| - 1;
      forall p: nat :: WasAllocated(ranges, p) <==>
        WasAllocated(ranges[..n], p) || ranges[n].start <= p < ranges[n].current
  {
    var n := |ranges| - 1;
    forall p: nat
      ensures WasAllocated(ranges, p) <==> WasAllocated(ranges[..n], p) || ranges[n].start <= p < ranges[n].current
    {
      if WasAllocated(ranges[..n], p) {
        var i :| 0 <= i < n && ranges[..n][i].start <= p < ranges[..n][i].current;
        assert ranges[i].start <= p < ranges[i].current;
      }
      if WasAllocated(ranges, p) {
        var i :| 0 <= i < |ranges| && ranges[i].start <= p < ranges[i].current;
        if i < n {
          assert ranges[..n][i].start <= p < ranges[..n][i].current;
        }
      }
    }
  }

  function Remaining(ranges: seq<FrameRange>): int {
    if ranges == [] then 0
    else Remaining(ranges[..|ranges| - 1]) + (ranges[|ranges| - 1].end - ranges[|ranges| - 1].current)
  }

  function Managed(ranges: seq<FrameRange>): int {
    if ranges == [] then 0
    else Managed(ranges[..|ranges| - 1]) + (ranges[|ranges| - 1].end - ranges[|ranges| - 1].start)
  }

  /** Every managed page is issued or still fresh; the counts add up. */
  lemma {:induction false} IssuedCount(ranges: seq<FrameRange>)
    requires GoodRanges(ranges)
    ensures |Issued(ranges)| + Remaining(ranges) == Managed(ranges)
  {
    if ranges != [] {
      var n := |ranges| - 1;
      IssuedCount(ranges[..n]);
      LastApart(ranges);
      UnionSize(Issued(ranges[..n]), Interval(ranges[n].start, ranges[n].current));
    }
  }

  lemma LastApart(ranges: seq<FrameRange>)
    requires GoodRanges(ranges) && ranges != []
    ensures var n := |ranges| - 1; Issued(ranges[..n]) !! Interval(ranges[n].start, ranges[n].current)
  {
    var n := |ranges| - 1;
    forall p | p in Interval(ranges[n].start, ranges[n].current)
      ensures p !in Issued(ranges[..n])
    {
    }
  }

  lemma UnionSize(a: set<nat>, b: set<nat>)
    requires a !! b
    ensures |a + b| == |a| + |b|
  {
  }

  lemma {:induction false} FirstFitFits(ranges: seq<FrameRange>, n: nat, i: nat)
    ensures var k := FirstFit(ranges, n, i); k < |ranges| ==> i <= k && ranges[k].current + n <= ranges[k].end
    decreases |ranges| - i
  {
    if i < |ranges| && ranges[i].current + n > ranges[i].end {
      FirstFitFits(ranges, n, i + 1);
    }
  }

  lemma {:induction false} NoneFits(ranges: seq<FrameRange>, n: nat, i: nat)
    requires FirstFit(ranges, n, i) >= |ranges|
    ensures forall k :: i <= k < |ranges| ==> ranges[k].current + n > ranges[k].end
    decreases |ranges| - i
  {
    if i < |ranges| {
      NoneFits(ranges, n, i + 1);
    }
  }

  /** Contiguous allocation refuses exactly the empty request and a request that no single range
      has enough fresh pages for. */
  lemma RefusesOnlyWhenFull(a: Pool, n: nat)
    ensures AllocContiguous(a, n).1.None? <==>
            n == 0 || forall k :: 0 <= k < |a.ranges| ==> a.ranges[k].current + n > a.ranges[k].end
  {
    FirstFitFits(a.ranges, n, 0);
    if FirstFit(a.ranges, n, 0) >= |a.ranges| {
      NoneFits(a.ranges, n, 0);
    }
  }

  /** A granted run is the next pages of the first range that has enough of them; the other
      ranges and the recycled pages are left. */
  lemma GrantsFirstFit(a: Pool, n: nat)
    requires AllocContiguous(a, n).1.Some?
    ensures var (a', got) := AllocContiguous(a, n);
      exists i :: 0 <= i < |a.ranges| && GrantedFrom(a.ranges, a'.ranges, i, n, got.value)
    ensures AllocContiguous(a, n).0.recycled == a.recycled
  {
    var i := FirstFit(a.ranges, n, 0);
    FirstFitFits(a.ranges, n, 0);
    EarlierDoNotFit(a.ranges, n, 0);
    assert GrantedFrom(a.ranges, AllocContiguous(a, n).0.ranges, i, n, a.ranges[i].current);
  }

  ghost predicate GrantedFrom(before: seq<FrameRange>, after: seq<FrameRange>, i: nat, n: nat, first: nat)
    requires i < |before|
  {
    && first == before[i].current && first + n <= before[i].end
    && (forall k :: 0 <= k < i ==> before[k].current + n > before[k].end)
    && |after| == |before| && after[i] == FrameRange(before[i].start, first + n, before[i].end)
    && (forall k :: 0 <= k < |before| && k != i ==> after[k] == before[k])
  }

  lemma {:induction false} EarlierDoNotFit(ranges: seq<FrameRange>, n: nat, i: nat)
    ensures forall k :: i <= k < FirstFit(ranges, n, i) && k < |ranges| ==> ranges[k].current + n > ranges[k].end
    decreases |ranges| - i
  {
    if i < |ranges| && ranges[i].current + n > ranges[i].end {
      EarlierDoNotFit(ranges, n, i + 1);
    }
  }

  /** A single page is refused exactly when no page is free: nothing recycled, nothing fresh. */
  lemma AllocFailsOnlyWhenEmpty(a: Pool)
    requires GoodRanges(a.ranges)
    ensures Alloc(a).1.None? <==> |a.recycled| + Remaining(a.ranges) == 0
  {
    RefusesOnlyWhenFull(a, 1);
    NoneRemain(a.ranges);
  }

  lemma {:induction false} NoneRemain(ranges: seq<FrameRange>)
    requires GoodRanges(ranges)
    ensures Remaining(ranges) >= 0
    ensures Remaining(ranges) == 0 <==> forall k :: 0 <= k < |ranges| ==> ranges[k].current + 1 > ranges[k].end
  {
    if ranges != [] {
      var n := |ranges| - 1;
      NoneRemain(ranges[..n]);
      assert forall k :: 0 <= k < n ==> ranges[..n][k] == ranges[k];
    }
  }

  /** The page given back last is the next one issued, and issuing it undoes the release. */
  lemma ReissuesLastReleased(a: Pool, ppn: nat)
    requires ppn !in a.recycledSet
    ensures Alloc(Dealloc(a, ppn)) == (a, Some(ppn))
  {
    assert (a.recycled + [ppn])[..|a.recycled|] == a.recycled;
    assert a.recycledSet + {ppn} - {ppn} == a.recycledSet;
  }

  /** Advancing one range by n issues exactly the n pages after its cursor, all new. */
  lemma AdvanceIssues(ranges: seq<FrameRange>, i: nat, n: nat)
    requires GoodRanges(ranges) && i < |ranges| && ranges[i].current + n <= ranges[i].end
    ensures var ranges' := ranges[i := Advance(ranges[i], n)];
      && GoodRanges(ranges')
      && Managed(ranges') == Managed(ranges)
    ensures var ranges' := ranges[i := Advance(ranges[i], n)];
      forall p: nat ::
        && (WasAllocated(ranges', p) <==> WasAllocated(ranges, p) || ranges[i].current <= p < ranges[i].current + n)
        && (ranges[i].current <= p < ranges[i].current + n ==> !WasAllocated(ranges, p))
  {
    var ranges' := ranges[i := Advance(ranges[i], n)];
    ManagedStays(ranges, i, n);
    forall p: nat
      ensures WasAllocated(ranges', p) <==> WasAllocated(ranges, p) || ranges[i].current <= p < ranges[i].current + n
      ensures ranges[i].current <= p < ranges[i].current + n ==> !WasAllocated(ranges, p)
    {
      AdvanceIssuesAt(ranges, i, n, p);
    }
  }

  lemma AdvanceIssuesAt(ranges: seq<FrameRange>, i: nat, n: nat, p: nat)
    requires GoodRanges(ranges) && i < |ranges| && ranges[i].current + n <= ranges[i].end
    ensures var ranges' := ranges[i := Advance(ranges[i], n)];
      && (WasAllocated(ranges', p) <==> WasAllocated(ranges, p) || ranges[i].current <= p < ranges[i].current + n)
      && (ranges[i].current <= p < ranges[i].current + n ==> !WasAllocated(ranges, p))
  {
    var ranges' := ranges[i := Advance(ranges[i], n)];
    if k :| 0 <= k < |ranges| && ranges[k].start <= p < ranges[k].current {
      assert ranges'[k].start <= p < ranges'[k].current;
    } else if ranges[i].current <= p < ranges[i].current + n {
      assert ranges'[i].start <= p < ranges'[i].current;
    } else if k :| 0 <= k < |ranges| && ranges'[k].start <= p < ranges'[k].current {
      assert false;
    }
  }

  lemma {:induction false} ManagedStays(ranges: seq<FrameRange>, i: nat, n: nat)
    requires i < |ranges|
    ensures Managed(ranges[i := Advance(ranges[i], n)]) == Managed(ranges)
  {
    var m := |ranges| - 1;
    var ranges' := ranges[i := Advance(ranges[i], n)];
    if i < m {
      assert ranges'[..m] == ranges[..m][i := Advance(ranges[..m][i], n)];
      ManagedStays(ranges[..m], i, n);
    } else {
      assert ranges'[..m] == ranges[..m];
    }
  }

  // ----- the whole system -----

  /** A moment between two lock sections. `arriving` pages have left the allocator and have no
      count yet; `leaving` pages have lost their count and are not yet back. */
  datatype Sys = Sys(
    pool: Pool,
    counts: map<nat, nat>,
    trackers: map<nat, nat>,
    arriving: set<nat>,
    leaving: set<nat>)

  /** One lock section of one task. */
  datatype Event =
    | TakeOne                          // frame_alloc, under the allocator lock
    | TakeRun(pages: nat)              // frame_alloc_contiguous, under the allocator lock
    | Track(ppn: nat, id: nat)         // FrameTracker::new, under the count lock
    | Share(id: nat, copy: nat)        // FrameTracker::clone
    | Untrack(id: nat)                 // first half of FrameTracker::drop
    | Release(ppn: nat)                // second half: frame_dealloc

  datatype Outcome = Next(s: Sys) | Disabled | Panic

  function Step(s: Sys, e: Event): Outcome {
    match e
    case TakeOne =>
      var (pool, got) := Alloc(s.pool);
      Next(s.(pool := pool, arriving := s.arriving + if got.Some? then {got.value} else {}))
    case TakeRun(pages) =>
      var (pool, got) := AllocContiguous(s.pool, pages);
      Next(s.(pool := pool, arriving := s.arriving + if got.Some? then Interval(got.value, got.value + pages) else {}))
    case Track(ppn, id) =>
      if ppn !in s.arriving || id in s.trackers then Disabled
      else Next(s.(arriving := s.arriving - {ppn}, counts := s.counts[ppn := 1], trackers := s.trackers[id := ppn]))
    case Share(id, copy) =>
      if id !in s.trackers || copy in s.trackers then Disabled
      else
        var ppn := s.trackers[id];
        var n := if ppn in s.counts then s.counts[ppn] else 0;
        Next(s.(counts := s.counts[ppn := n + 1], trackers := s.trackers[copy := ppn]))
    case Untrack(id) =>
      if id !in s.trackers then Disabled
      else
        var ppn := s.trackers[id];
        var s' := s.(trackers := s.trackers - {id});
        if ppn !in s.counts then Next(s')
        else if s.counts[ppn] <= 1 then Next(s'.(counts := s.counts - {ppn}, leaving := s.leaving + {ppn}))
        else Next(s'.(counts := s.counts[ppn := s.counts[ppn] - 1]))
    case Release(ppn) =>
      if ppn !in s.leaving then Disabled
      else if DeallocPanics(s.pool, ppn) then Panic
      else Next(s.(pool := Dealloc(s.pool, ppn), leaving := s.leaving - {ppn}))
  }

  ghost function Holders(s: Sys, ppn: nat): set<nat> {
    set id | id in s.trackers && s.trackers[id] == ppn
  }

  ghost predicate GoodPool(a: Pool) {
    && GoodRanges(a.ranges)
    && a.managed == Managed(a.ranges)
    && (forall p :: p in a.recycledSet <==> p in a.recycled)
    && (forall i, j :: 0 <= i < j < |a.recycled| ==> a.recycled[i] != a.recycled[j])
  }

  function Bit(b: bool): nat {
    if b then 1 else 0
  }

  /** In how many of its four possible places a page is. */
  function Places(s: Sys, p: nat): nat {
    Bit(p in s.counts) + Bit(p in s.arriving) + Bit(p in s.leaving) + Bit(p in s.pool.recycledSet)
  }

  /** Every issued page is in exactly one place and no other page is in any. */
  ghost predicate Placed(s: Sys) {
    forall p :: Places(s, p) == Bit(WasAllocated(s.pool.ranges, p))
  }

  /** Every count is the number of live trackers of its page. */
  ghost predicate Counted(s: Sys) {
    && (forall id :: id in s.trackers ==> s.trackers[id] in s.counts)
    && (forall p :: p in s.counts ==> s.counts[p] == |Holders(s, p)|)
    && (forall p :: p in s.counts ==> s.counts[p] >= 1)
  }

  ghost predicate Inv(s: Sys) {
    GoodPool(s.pool) && Placed(s) && Counted(s)
  }

  // ----- each lock section keeps the invariant -----

  lemma TakeRunPool(a: Pool, pages: nat)
    requires GoodPool(a)
    ensures var (a', got) := AllocContiguous(a, pages);
      && GoodPool(a')
      && a'.recycledSet == a.recycledSet
      && (got.None? ==> a' == a)
      && (got.Some? ==> forall p: nat ::
            && (WasAllocated(a'.ranges, p) <==> WasAllocated(a.ranges, p) || got.value <= p < got.value + pages)
            && (got.value <= p < got.value + pages ==> !WasAllocated(a.ranges, p)))
  {
    var i := FirstFit(a.ranges, pages, 0);
    FirstFitFits(a.ranges, pages, 0);
    if pages > 0 && i < |a.ranges| {
      AdvanceIssues(a.ranges, i, pages);
    }
  }

  lemma PopRecycled(a: Pool)
    requires GoodPool(a) && a.recycled != []
    ensures var (a', got) := Alloc(a);
      && GoodPool(a') && got.Some? && got.value in a.recycledSet
      && a'.recycledSet == a.recycledSet - {got.value} && a'.ranges == a.ranges
  {
    var n := |a.recycled| - 1;
    var a' := Alloc(a).0;
    forall p
      ensures p in a'.recycledSet <==> p in a'.recycled
    {
      if p in a'.recycledSet {
        var k :| 0 <= k < |a.recycled| && a.recycled[k] == p;
        assert a'.recycled[k] == p;
      }
    }
  }

  lemma SameCounted(s: Sys, s': Sys)
    requires Counted(s) && s'.trackers == s.trackers && s'.counts == s.counts
    ensures Counted(s')
  {
    assert forall p :: Holders(s', p) == Holders(s, p);
  }

  lemma TakeInv(s: Sys, e: Event)
    requires Inv(s) && (e.TakeOne? || e.TakeRun?)
    ensures Step(s, e).Next? && Inv(Step(s, e).s)
  {
    SameCounted(s, Step(s, e).s);
    if e.TakeRun? {
      TakeFresh(s, e.pages, Step(s, e).s);
    } else if s.pool.recycled != [] {
      TakeRecycled(s, Step(s, e).s);
    } else {
      TakeOneFresh(s);
    }
  }

  lemma TakeOneFresh(s: Sys)
    requires GoodPool(s.pool) && Placed(s) && s.pool.recycled == []
    ensures GoodPool(Step(s, TakeOne).s.pool) && Placed(Step(s, TakeOne).s)
  {
    var (pool, got) := AllocContiguous(s.pool, 1);
    if got.Some? {
      assert Interval(got.value, got.value + 1) == {got.value};
    }
    TakeFresh(s, 1, Step(s, TakeOne).s);
  }

  lemma TakeRecycled(s: Sys, s': Sys)
    requires GoodPool(s.pool) && Placed(s) && s.pool.recycled != []
    requires s' == Step(s, TakeOne).s
    ensures GoodPool(s'.pool) && Placed(s')
  {
    PopRecycled(s.pool);
    forall p
      ensures Places(s', p) == Bit(WasAllocated(s'.pool.ranges, p))
    {
      assert Places(s, p) == Bit(WasAllocated(s.pool.ranges, p));
    }
  }

  /** Fresh pages go straight from their range into the hands of the caller. */
  lemma TakeFresh(s: Sys, pages: nat, s': Sys)
    requires GoodPool(s.pool) && Placed(s)
    requires
      var (pool, got) := AllocContiguous(s.pool, pages);
      s' == s.(pool := pool, arriving := s.arriving + if got.Some? then Interval(got.value, got.value + pages) else {})
    ensures GoodPool(s'.pool) && Placed(s')
  {
    TakeRunPool(s.pool, pages);
    forall p
      ensures Places(s', p) == Bit(WasAllocated(s'.pool.ranges, p))
    {
      assert Places(s, p) == Bit(WasAllocated(s.pool.ranges, p));
    }
  }

  /** A freshly tracked page has exactly one holder. */
  lemma TrackInv(s: Sys, ppn: nat, id: nat)
    requires Inv(s) && Step(s, Track(ppn, id)).Next?
    ensures Inv(Step(s, Track(ppn, id)).s)
  {
    var s' := Step(s, Track(ppn, id)).s;
    forall p ensures Places(s', p) == Bit(WasAllocated(s'.pool.ranges, p)) {
      assert Places(s, p) == Bit(WasAllocated(s.pool.ranges, p));
    }
    assert ppn !in s.counts by {
      assert Places(s, ppn) == Bit(WasAllocated(s.pool.ranges, ppn));
    }
    assert Holders(s', ppn) == {id};
    forall p | p in s.counts
      ensures Holders(s', p) == Holders(s, p)
    {
    }
  }

  lemma ShareInv(s: Sys, id: nat, copy: nat)
    requires Inv(s) && Step(s, Share(id, copy)).Next?
    ensures Inv(Step(s, Share(id, copy)).s)
  {
    var s' := Step(s, Share(id, copy)).s;
    var ppn := s.trackers[id];
    forall p ensures Places(s', p) == Bit(WasAllocated(s'.pool.ranges, p)) {
      assert Places(s, p) == Bit(WasAllocated(s.pool.ranges, p));
    }
    assert Holders(s', ppn) == Holders(s, ppn) + {copy};
    forall p | p in s.counts && p != ppn
      ensures Holders(s', p) == Holders(s, p)
    {
    }
  }

  /** The last holder's release moves the page out; any other only lowers the count. */
  lemma UntrackInv(s: Sys, id: nat)
    requires Inv(s) && Step(s, Untrack(id)).Next?
    ensures Inv(Step(s, Untrack(id)).s)
  {
    var s' := Step(s, Untrack(id)).s;
    var ppn := s.trackers[id];
    forall p ensures Places(s', p) == Bit(WasAllocated(s'.pool.ranges, p)) {
      assert Places(s, p) == Bit(WasAllocated(s.pool.ranges, p));
    }
    assert id in Holders(s, ppn);
    assert Holders(s', ppn) == Holders(s, ppn) - {id};
    assert |Holders(s', ppn)| == s.counts[ppn] - 1;
    forall p | p in s.counts && p != ppn
      ensures Holders(s', p) == Holders(s, p)
    {
    }
    forall other | other in s'.trackers
      ensures s'.trackers[other] in s'.counts
    {
      if s'.trackers[other] == ppn {
        assert other in Holders(s', ppn);
      }
    }
  }

  lemma ReleaseInv(s: Sys, ppn: nat)
    requires Inv(s) && ppn in s.leaving
    ensures !DeallocPanics(s.pool, ppn)
    ensures Step(s, Release(ppn)).Next? && Inv(Step(s, Release(ppn)).s)
  {
    assert Places(s, ppn) == Bit(WasAllocated(s.pool.ranges, ppn));
    var s' := Step(s, Release(ppn)).s;
    SameCounted(s, s');
    RecycleGood(s.pool, ppn);
    forall p ensures Places(s', p) == Bit(WasAllocated(s'.pool.ranges, p)) {
      assert Places(s, p) == Bit(WasAllocated(s.pool.ranges, p));
    }
  }

  lemma RecycleGood(a: Pool, ppn: nat)
    requires GoodPool(a) && ppn !in a.recycledSet
    ensures GoodPool(Dealloc(a, ppn))
  {
    assert forall i :: 0 <= i < |a.recycled| ==> a.recycled[i] in a.recycledSet;
  }

  lemma StepInv(s: Sys, e: Event)
    requires Inv(s)
    ensures !Step(s, e).Panic?
    ensures Step(s, e).Next? ==> Inv(Step(s, e).s)
  {
    match e {
      case TakeOne => TakeInv(s, e);
      case TakeRun(_) => TakeInv(s, e);
      case Track(ppn, id) => if Step(s, e).Next? { TrackInv(s, ppn, id); }
      case Share(id, copy) => if Step(s, e).Next? { ShareInv(s, id, copy); }
      case Untrack(id) => if Step(s, e).Next? { UntrackInv(s, id); }
      case Release(ppn) => if ppn in s.leaving { ReleaseInv(s, ppn); }
    }
  }

  // ----- whole runs -----

  /** After boot: ranges registered, nothing issued. */
  ghost predicate Booted(s: Sys) {
    && GoodRanges(s.pool.ranges)
    && (forall i :: 0 <= i < |s.pool.ranges| ==> s.pool.ranges[i].current == s.pool.ranges[i].start)
    && s.pool.managed == Managed(s.pool.ranges)
    && s == Sys(Pool(s.pool.ranges, [], {}, s.pool.managed), map[], map[], {}, {})
  }

  /** The outcome of an interleaving of lock sections; an event that is not enabled is skipped. */
  function Run(s: Sys, events: seq<Event>): Outcome {
    if events == [] then Next(s)
    else
      match Run(s, events[..|events| - 1])
      case Next(mid) =>
        var o := Step(mid, events[|events| - 1]);
        if o.Disabled? then Next(mid) else o
      case o => o
  }

  lemma {:induction false} RunInv(s: Sys, events: seq<Event>)
    requires Inv(s)
    ensures Run(s, events).Next? && Inv(Run(s, events).s)
  {
    if events != [] {
      RunInv(s, events[..|events| - 1]);
      StepInv(Run(s, events[..|events| - 1]).s, events[|events| - 1]);
    }
  }

  lemma BootedInv(s: Sys)
    requires Booted(s)
    ensures Inv(s)
  {
    forall p ensures !WasAllocated(s.pool.ranges, p) {
    }
  }

  /** Main theorem: no interleaving of allocations, clones and two-lock drops makes dealloc
      panic, and in every state each issued page is in exactly one place, each count equals
      the number of live trackers, and the recycled list and set agree without duplicates. */
  lemma FramesNeverPanic(s: Sys, events: seq<Event>)
    requires Booted(s)
    ensures Run(s, events).Next? && Inv(Run(s, events).s)
  {
    BootedInv(s);
    RunInv(s, events);
  }

  /** The check that panics tells exactly the pages that are out from the others: a page that is
      counted, arriving or leaving may be given back, any other may not. */
  lemma PanicsExactlyWhenNotOut(s: Sys, ppn: nat)
    requires Inv(s)
    ensures DeallocPanics(s.pool, ppn) <==> ppn !in s.counts && ppn !in s.arriving && ppn !in s.leaving
  {
    assert Places(s, ppn) == Bit(WasAllocated(s.pool.ranges, ppn));
  }

  /** Conservation: free, outstanding and in-flight pages always sum to the managed pages. */
  lemma PagesConserved(s: Sys)
    requires Inv(s)
    ensures |s.pool.recycled| + Remaining(s.pool.ranges) + |s.counts| + |s.arriving| + |s.leaving| == s.pool.managed
  {
    IssuedCount(s.pool.ranges);
    RecycledSize(s.pool.recycled, s.pool.recycledSet);
    PlacesPartition(s);
  }

  lemma PlacesPartition(s: Sys)
    requires Placed(s)
    ensures |Issued(s.pool.ranges)| == |s.counts| + |s.arriving| + |s.leaving| + |s.pool.recycledSet|
  {
    AtMostOnePlace(s);
    var issued, counted := Issued(s.pool.ranges), s.counts.Keys;
    assert issued == counted + s.arriving + s.leaving + s.pool.recycledSet;
    FourWay(issued, counted, s.arriving, s.leaving, s.pool.recycledSet);
  }

  lemma FourWay(u: set<nat>, a: set<nat>, b: set<nat>, c: set<nat>, d: set<nat>)
    requires a !! b && a !! c && a !! d && b !! c && b !! d && c !! d
    requires u == a + b + c + d
    ensures |u| == |a| + |b| + |c| + |d|
  {
    assert |a + b| == |a| + |b|;
    assert |a + b + c| == |a + b| + |c|;
    assert |a + b + c + d| == |a + b + c| + |d|;
  }

  lemma AtMostOnePlace(s: Sys)
    requires Placed(s)
    ensures forall p :: p in s.counts ==> p !in s.arriving && p !in s.leaving && p !in s.pool.recycledSet
    ensures forall p :: p in s.arriving ==> p !in s.leaving && p !in s.pool.recycledSet
    ensures forall p :: p in s.leaving ==> p !in s.pool.recycledSet
    ensures forall p :: WasAllocated(s.pool.ranges, p) <==>
      p in s.counts || p in s.arriving || p in s.leaving || p in s.pool.recycledSet
  {
    assert forall p :: p in s.counts || p in s.arriving || p in s.leaving ==> Places(s, p) <= 1;
    assert forall p :: WasAllocated(s.pool.ranges, p) ==> Places(s, p) == 1;
    assert forall p :: p in s.pool.recycledSet ==> Places(s, p) >= 1;
  }

  lemma {:induction false} RecycledSize(xs: seq<nat>, set_: set<nat>)
    requires forall p :: p in set_ <==> p in xs
    requires forall i, j :: 0 <= i < j < |xs| ==> xs[i] != xs[j]
    ensures |set_| == |xs|
  {
    if xs == [] {
      assert set_ == {};
    } else {
      var n := |xs| - 1;
      forall p ensures p in set_ - {xs[n]} <==> p in xs[..n] {
        if p in set_ - {xs[n]} {
          var k :| 0 <= k < |xs| && xs[k] == p;
          assert xs[..n][k] == p;
        }
      }
      RecycledSize(xs[..n], set_ - {xs[n]});
    }
  }

  /** No page that is outstanding, arriving or leaving is ever issued again. */
  lemma NeverIssuedTwice(s: Sys)
    requires Inv(s) && Alloc(s.pool).1.Some?
    ensures var ppn := Alloc(s.pool).1.value; ppn !in s.counts && ppn !in s.arriving && ppn !in s.leaving
  {
    AtMostOnePlace(s);
    if s.pool.recycled != [] {
      PopRecycled(s.pool);
    } else {
      RunIsFresh(s, 1);
    }
  }

  /** A contiguous run consists of pages that are nowhere else, recycled list included. */
  lemma RunIsFresh(s: Sys, pages: nat)
    requires Inv(s) && AllocContiguous(s.pool, pages).1.Some?
    ensures var first := AllocContiguous(s.pool, pages).1.value;
      forall p :: first <= p < first + pages ==>
        p !in s.counts && p !in s.arriving && p !in s.leaving && p !in s.pool.recycledSet
  {
    TakeRunPool(s.pool, pages);
    AtMostOnePlace(s);
  }

  /** A live tracker pins its page: through any run in which that tracker is not dropped the
      page keeps a count, so it is neither recycled nor on its way back. */
  lemma {:induction false} TrackerPins(s: Sys, events: seq<Event>, id: nat)
    requires Inv(s) && id in s.trackers
    requires forall k :: 0 <= k < |events| ==> events[k] != Untrack(id)
    ensures Run(s, events).Next?
    ensures var s' := Run(s, events).s;
      && id in s'.trackers && s'.trackers[id] == s.trackers[id]
      && s.trackers[id] in s'.counts
      && s.trackers[id] !in s'.leaving && s.trackers[id] !in s'.pool.recycledSet && s.trackers[id] !in s'.arriving
  {
    RunInv(s, events);
    if events != [] {
      var n := |events| - 1;
      TrackerPins(s, events[..n], id);
      if Step(Run(s, events[..n]).s, events[n]).Next? {
        TrackerStays(Run(s, events[..n]).s, events[n], id);
      }
    }
    AtMostOnePlace(Run(s, events).s);
  }

  lemma TrackerStays(s: Sys, e: Event, id: nat)
    requires id in s.trackers && e != Untrack(id) && Step(s, e).Next?
    ensures var s' := Step(s, e).s; id in s'.trackers && s'.trackers[id] == s.trackers[id]
  {
  }
}
