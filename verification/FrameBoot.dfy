/** Boot-time interval subtraction: which physical pages the allocator may manage
    (init_frame_allocator in src/mm/frame_allocator.rs). */
module FrameBoot {
  import opened FrameAllocator

  const PAGE: nat := 4096
  const MAX_EXCLUSIONS: nat := 17   // MAX_RESERVED_MEMORY_REGIONS + 1

  /** A half-open interval of byte addresses or of page numbers. */
  datatype Span = Span(lo: nat, hi: nat)

  function Floor(addr: nat): nat { addr / PAGE }
  function Ceil(addr: nat): nat { if addr == 0 then 0 else (addr - 1 + PAGE) / PAGE }

  /** The pages an exclusion withdraws: every page its byte range reaches into. */
  function Outward(e: Span): Span { Span(Floor(e.lo), Ceil(e.hi)) }

  /** The pages that lie wholly inside a RAM range. */
  function Inward(r: Span): Span { Span(Ceil(r.lo), Floor(r.hi)) }

  predicate In(p: nat, s: Span) { s.lo <= p < s.hi }

  predicate Covers(spans: seq<Span>, p: nat) {
    exists i :: 0 <= i < |spans| && In(p, spans[i])
  }

  /** A page is withdrawn when some exclusion touches it. */
  predicate Withdrawn(exclusions: seq<Span>, p: nat) {
    exists i :: 0 <= i < |exclusions| && In(p, Outward(exclusions[i]))
  }

  /** A page is whole RAM when it lies inside one RAM range. */
  predicate WholeRam(ram: seq<Span>, p: nat) {
    exists i :: 0 <= i < |ram| && In(p, Inward(ram[i]))
  }

  predicate Manages(ranges: seq<FrameRange>, p: nat) {
    exists i :: 0 <= i < |ranges| && ranges[i].start <= p < ranges[i].end
  }

  /** The rounding means what it should: for a non-empty exclusion, touching is overlapping,
      and for RAM, inside is containing the whole page. */
  lemma RoundingMeaning(e: Span, p: nat)
    ensures e.lo < e.hi ==> (In(p, Outward(e)) <==> e.lo < PAGE * (p + 1) && PAGE * p < e.hi)
    ensures In(p, Inward(e)) <==> e.lo <= PAGE * p && PAGE * (p + 1) <= e.hi
  {
  }

  // ----- sorting by start -----

  predicate SortedByLo(s: seq<Span>) {
    forall i, j :: 0 <= i < j < |s| ==> s[i].lo <= s[j].lo
  }

  function Insert(x: Span, s: seq<Span>): seq<Span> {
    if s == [] || x.lo <= s[0].lo then [x] + s else [s[0]] + Insert(x, s[1..])
  }

  /** sort_unstable_by_key: any order of the spans in which starts do not decrease. */
  function SortByLo(s: seq<Span>): seq<Span> {
    if s == [] then [] else Insert(s[0], SortByLo(s[1..]))
  }

  lemma {:induction false} InsertPermutes(x: Span, s: seq<Span>)
    ensures multiset(Insert(x, s)) == multiset{x} + multiset(s)
    ensures |Insert(x, s)| == |s| + 1
  {
    if s != [] && x.lo > s[0].lo {
      InsertPermutes(x, s[1..]);
      assert s == [s[0]] + s[1..];
    }
  }

  lemma {:induction false} InsertSorts(x: Span, s: seq<Span>)
    requires SortedByLo(s)
    ensures SortedByLo(Insert(x, s))
    ensures s != [] ==> Insert(x, s)[0].lo == if x.lo <= s[0].lo then x.lo else s[0].lo
    ensures s == [] ==> Insert(x, s) == [x]
  {
    if s != [] && x.lo > s[0].lo {
      InsertSorts(x, s[1..]);
      PrependSorted(s[0], Insert(x, s[1..]));
    } else {
      PrependSorted(x, s);
    }
  }

  lemma PrependSorted(x: Span, s: seq<Span>)
    requires SortedByLo(s) && (s != [] ==> x.lo <= s[0].lo)
    ensures SortedByLo([x] + s)
  {
  }

  lemma {:induction false} SortSorts(s: seq<Span>)
    ensures SortedByLo(SortByLo(s))
  {
    if s != [] {
      SortSorts(s[1..]);
      InsertSorts(s[0], SortByLo(s[1..]));
    }
  }

  lemma {:induction false} SortPermutes(s: seq<Span>)
    ensures multiset(SortByLo(s)) == multiset(s)
    ensures |SortByLo(s)| == |s|
  {
    if s != [] {
      SortPermutes(s[1..]);
      InsertPermutes(s[0], SortByLo(s[1..]));
      assert s == [s[0]] + s[1..];
    }
  }

  lemma SameCover(s: seq<Span>, t: seq<Span>, p: nat)
    requires multiset(s) == multiset(t) && Covers(s, p)
    ensures Covers(t, p)
  {
    var i :| 0 <= i < |s| && In(p, s[i]);
    assert s[i] in multiset(t);
    var j :| 0 <= j < |t| && t[j] == s[i];
  }

  // ----- the three phases -----

  predicate NonEmpty(s: seq<Span>) {
    forall i :: 0 <= i < |s| ==> s[i].lo < s[i].hi
  }

  /** Merged exclusions: increasing, with a gap between neighbours. */
  predicate Separated(s: seq<Span>) {
    forall i, j :: 0 <= i < j < |s| ==> s[i].hi < s[j].lo
  }

  /** How many of the first k exclusions reach into any page at all. */
  function Reaching(all: seq<Span>, k: nat): nat
    requires k <= |all|
  {
    if k == 0 then 0 else Reaching(all, k - 1) + if Outward(all[k - 1]).lo < Outward(all[k - 1]).hi then 1 else 0
  }

  lemma {:induction false} ReachingGrows(all: seq<Span>, k: nat, n: nat)
    requires k <= n <= |all|
    ensures Reaching(all, k) <= Reaching(all, n)
    decreases n
  {
    if k < n {
      ReachingGrows(all, k, n - 1);
    }
  }

  /** Round every exclusion outward into the fixed array, skipping those that round to nothing. */
  method CollectExclusions(all: seq<Span>, exclusions: array<Span>) returns (count: nat)
    requires Reaching(all, |all|) <= MAX_EXCLUSIONS && exclusions.Length == MAX_EXCLUSIONS
    modifies exclusions
    ensures count <= exclusions.Length && NonEmpty(exclusions[..count])
    ensures forall p: nat :: Covers(exclusions[..count], p) <==> Withdrawn(all, p)
  {
    count := 0;
    for k := 0 to |all|
      invariant count == Reaching(all, k) <= exclusions.Length && NonEmpty(exclusions[..count])
      invariant forall p: nat :: Covers(exclusions[..count], p) <==> Withdrawn(all[..k], p)
    {
      ReachingGrows(all, k + 1, |all|);
      var page := Outward(all[k]);
      ghost var before := exclusions[..count];
      if page.lo < page.hi {
        exclusions[count] := page;
        count := count + 1;
        assert exclusions[..count] == before + [page];
        forall p: nat
          ensures Covers(exclusions[..count], p) <==> Covers(before, p) || In(p, page)
        {
          CoverAppend(before, page, p);
        }
      }
      forall p: nat
        ensures Withdrawn(all[..k + 1], p) <==> Withdrawn(all[..k], p) || In(p, page)
      {
        WithdrawnAppend(all, k, p);
      }
    }
    assert all[..|all|] == all;
  }

  lemma CoverAppend(s: seq<Span>, x: Span, p: nat)
    ensures Covers(s + [x], p) <==> Covers(s, p) || In(p, x)
  {
    if Covers(s, p) {
      var i :| 0 <= i < |s| && In(p, s[i]);
      assert In(p, (s + [x])[i]);
    }
    if In(p, x) {
      assert In(p, (s + [x])[|s|]);
    }
  }

  lemma WithdrawnAppend(all: seq<Span>, k: nat, p: nat)
    requires k < |all|
    ensures Withdrawn(all[..k + 1], p) <==> Withdrawn(all[..k], p) || In(p, Outward(all[k]))
  {
    if Withdrawn(all[..k], p) {
      var i :| 0 <= i < k && In(p, Outward(all[..k][i]));
      assert In(p, Outward(all[..k + 1][i]));
    }
    if In(p, Outward(all[k])) {
      assert In(p, Outward(all[..k + 1][k]));
    }
    if Withdrawn(all[..k + 1], p) {
      var i :| 0 <= i < k + 1 && In(p, Outward(all[..k + 1][i]));
      if i < k {
        assert In(p, Outward(all[..k][i]));
      }
    }
  }

  method SortExclusions(exclusions: array<Span>, count: nat)
    requires count <= exclusions.Length
    modifies exclusions
    ensures SortedByLo(exclusions[..count])
    ensures multiset(exclusions[..count]) == old(multiset(exclusions[..count]))
  {
    var sorted := SortByLo(exclusions[..count]);
    SortSorts(exclusions[..count]);
    SortPermutes(exclusions[..count]);
    forall k | 0 <= k < count {
      exclusions[k] := sorted[k];
    }
    assert exclusions[..count] == sorted;
  }

  /** Two lists of spans cover the same pages. */
  ghost predicate SameCoverage(s: seq<Span>, t: seq<Span>) {
    forall p: nat :: Covers(s, p) <==> Covers(t, p)
  }

  lemma AppendCoverage(s: seq<Span>, t: seq<Span>, x: Span)
    requires SameCoverage(s, t)
    ensures SameCoverage(s + [x], t + [x])
  {
    forall p: nat
      ensures Covers(s + [x], p) <==> Covers(t + [x], p)
    {
      CoverAppend(s, x, p);
      CoverAppend(t, x, p);
      assert Covers(s, p) <==> Covers(t, p);
    }
  }

  function Join(last: Span, x: Span): Span {
    Span(last.lo, if last.hi >= x.hi then last.hi else x.hi)
  }

  /** Widening the last merged span by one that starts inside or touches it covers just both. */
  lemma AbsorbCoverage(s: seq<Span>, last: Span, t: seq<Span>, x: Span)
    requires SameCoverage(s + [last], t) && last.lo <= x.lo <= last.hi
    ensures SameCoverage(s + [Join(last, x)], t + [x])
  {
    forall p: nat
      ensures Covers(s + [Join(last, x)], p) <==> Covers(t + [x], p)
    {
      CoverAppend(s, Join(last, x), p);
      CoverAppend(s, last, p);
      CoverAppend(t, x, p);
      assert Covers(s + [last], p) <==> Covers(t, p);
    }
  }

  predicate Merged(s: seq<Span>) {
    Separated(s) && NonEmpty(s)
  }

  lemma MergedAppend(s: seq<Span>, x: Span)
    requires Merged(s) && x.lo < x.hi && (s != [] ==> s[|s| - 1].hi < x.lo)
    ensures Merged(s + [x])
  {
  }

  lemma MergedWiden(s: seq<Span>, last: Span, x: Span)
    requires Merged(s + [last])
    ensures Merged(s + [Join(last, x)])
  {
    var t := s + [last];
    var t' := s + [Join(last, x)];
    assert forall i :: 0 <= i < |s| ==> t'[i] == t[i];
    assert t[|s|] == last && t'[|s|] == Join(last, x);
  }

  function MergeInto(acc: seq<Span>, x: Span): seq<Span> {
    var n := |acc| - 1;
    if acc != [] && x.lo <= acc[n].hi then acc[n := Join(acc[n], x)] else acc + [x]
  }

  function MergeAll(s: seq<Span>): seq<Span> {
    if s == [] then [] else MergeInto(MergeAll(s[..|s| - 1]), s[|s| - 1])
  }

  /** One merge step keeps the spans separated and covers one more input span. */
  lemma MergeIntoCorrect(acc: seq<Span>, t: seq<Span>, x: Span)
    requires Merged(acc) && SameCoverage(acc, t) && x.lo < x.hi
    requires acc != [] ==> acc[|acc| - 1].lo <= x.lo
    ensures Merged(MergeInto(acc, x)) && SameCoverage(MergeInto(acc, x), t + [x])
  {
    var n := |acc| - 1;
    if acc != [] && x.lo <= acc[n].hi {
      assert acc == acc[..n] + [acc[n]];
      assert MergeInto(acc, x) == acc[..n] + [Join(acc[n], x)];
      AbsorbCoverage(acc[..n], acc[n], t, x);
      MergedWiden(acc[..n], acc[n], x);
    } else {
      AppendCoverage(acc, t, x);
      MergedAppend(acc, x);
    }
  }

  /** Merging a sorted list yields separated spans that cover the same pages. */
  lemma {:induction false} MergeCorrect(s: seq<Span>)
    requires SortedByLo(s) && NonEmpty(s)
    ensures Merged(MergeAll(s)) && SameCoverage(MergeAll(s), s)
    ensures s != [] ==> MergeAll(s) != [] && MergeAll(s)[|MergeAll(s)| - 1].lo <= s[|s| - 1].lo
  {
    if s != [] {
      var m := |s| - 1;
      MergeCorrect(s[..m]);
      assert m > 0 ==> s[m - 1].lo <= s[m].lo;
      MergeIntoCorrect(MergeAll(s[..m]), s[..m], s[m]);
      assert s == s[..m] + [s[m]];
    }
  }

  /** Merge overlapping and touching exclusions in place; the write index trails the read index. */
  method MergeExclusions(exclusions: array<Span>, count: nat) returns (merged: nat)
    requires count <= exclusions.Length
    modifies exclusions
    ensures merged <= count && exclusions[..merged] == MergeAll(old(exclusions[..count]))
  {
    ghost var input := exclusions[..count];
    merged := 0;
    for index := 0 to count
      invariant merged <= index
      invariant forall k :: index <= k < count ==> exclusions[k] == input[k]
      invariant exclusions[..merged] == MergeAll(input[..index])
    {
      var x := exclusions[index];
      assert input[..index + 1][..index] == input[..index];
      ghost var before := exclusions[..merged];
      if merged != 0 && x.lo <= exclusions[merged - 1].hi {
        var last := exclusions[merged - 1];
        exclusions[merged - 1] := Span(last.lo, if last.hi >= x.hi then last.hi else x.hi);
        assert exclusions[..merged] == before[merged - 1 := Join(last, x)];
      } else {
        exclusions[merged] := x;
        merged := merged + 1;
        assert exclusions[..merged] == before + [x];
      }
    }
    assert input[..count] == input;
  }

  predicate Within(r: FrameRange, s: Span) {
    s.lo <= r.start && r.start < r.end && r.end <= s.hi && r.current == r.start
  }

  predicate Ascending(ranges: seq<FrameRange>) {
    forall i, j :: 0 <= i < j < |ranges| ==> ranges[i].end <= ranges[j].start
  }

  function Gap(lo: nat, hi: nat): seq<FrameRange> {
    if lo < hi then [FrameRange(lo, lo, hi)] else []
  }

  /** The ranges the sweep registers from exclusion i on, with the cursor inside the RAM range. */
  function Sweep(page: Span, merged: seq<Span>, i: nat, cursor: nat): seq<FrameRange>
    decreases |merged| - i
  {
    if i >= |merged| then Gap(cursor, page.hi)
    else if merged[i].hi <= cursor then Sweep(page, merged, i + 1, cursor)
    else if merged[i].lo >= page.hi then Gap(cursor, page.hi)
    else if merged[i].hi >= page.hi then Gap(cursor, merged[i].lo)
    else Gap(cursor, merged[i].lo) + Sweep(page, merged, i + 1, merged[i].hi)
  }

  ghost predicate Ordered(added: seq<FrameRange>, lo: nat, hi: nat) {
    Ascending(added) && forall k :: 0 <= k < |added| ==> Within(added[k], Span(lo, hi))
  }

  lemma PrependGap(lo: nat, mid: nat, next: nat, hi: nat, rest: seq<FrameRange>)
    requires mid <= next && mid <= hi && lo <= next && Ordered(rest, next, hi)
    ensures Ordered(Gap(lo, mid) + rest, lo, hi)
  {
    var all := Gap(lo, mid) + rest;
    forall k | 0 <= k < |all|
      ensures Within(all[k], Span(lo, hi))
    {
      if k >= |Gap(lo, mid)| {
        assert Within(rest[k - |Gap(lo, mid)|], Span(next, hi));
      }
    }
  }

  /** The sweep registers its ranges in increasing order, inside the RAM range. */
  lemma {:induction false} SweepOrdered(page: Span, merged: seq<Span>, i: nat, cursor: nat)
    requires Merged(merged) && i <= |merged| && cursor < page.hi
    ensures Ordered(Sweep(page, merged, i, cursor), cursor, page.hi)
    decreases |merged| - i
  {
    if i == |merged| {
    } else if merged[i].hi <= cursor {
      SweepOrdered(page, merged, i + 1, cursor);
    } else if merged[i].lo < page.hi && merged[i].hi < page.hi {
      SweepOrdered(page, merged, i + 1, merged[i].hi);
      PrependGap(cursor, merged[i].lo, merged[i].hi, page.hi, Sweep(page, merged, i + 1, merged[i].hi));
    }
  }

  /** The sweep registers exactly the uncovered pages from the cursor on. */
  lemma {:induction false} SweepExact(page: Span, merged: seq<Span>, i: nat, cursor: nat, p: nat)
    requires Merged(merged) && i <= |merged| && cursor < page.hi
    requires forall j :: 0 <= j < i ==> merged[j].hi <= cursor
    ensures Manages(Sweep(page, merged, i, cursor), p) <==> cursor <= p < page.hi && !Covers(merged, p)
    decreases |merged| - i
  {
    if i < |merged| && merged[i].hi <= cursor {
      SweepExact(page, merged, i + 1, cursor, p);
    } else if i == |merged| || merged[i].lo >= page.hi {
      GapManages(cursor, page.hi, p);
      if cursor <= p < page.hi {
        GapClear(merged, i, cursor, page.hi, p);
      }
    } else {
      var x := merged[i];
      var rest := if x.hi >= page.hi then [] else Sweep(page, merged, i + 1, x.hi);
      if x.hi < page.hi {
        SweepExact(page, merged, i + 1, x.hi, p);
      }
      assert Sweep(page, merged, i, cursor) == Gap(cursor, x.lo) + rest;
      StepManages(page, merged, i, cursor, rest, p);
    }
  }

  lemma StepManages(page: Span, merged: seq<Span>, i: nat, cursor: nat, rest: seq<FrameRange>, p: nat)
    requires Merged(merged) && i < |merged|
    requires forall j :: 0 <= j < i ==> merged[j].hi <= cursor
    requires cursor < merged[i].hi && merged[i].lo < page.hi
    requires Manages(rest, p) <==> merged[i].hi <= p < page.hi && !Covers(merged, p)
    ensures Manages(Gap(cursor, merged[i].lo) + rest, p) <==> cursor <= p < page.hi && !Covers(merged, p)
  {
    var x := merged[i];
    ManagesSplit(Gap(cursor, x.lo), rest, p);
    GapManages(cursor, x.lo, p);
    if cursor <= p < x.lo {
      GapClear(merged, i, cursor, x.lo, p);
    }
    if x.lo <= p < x.hi {
      assert In(p, merged[i]);
    }
  }

  lemma GapManages(lo: nat, hi: nat, p: nat)
    ensures Manages(Gap(lo, hi), p) <==> lo <= p < hi
  {
    if lo <= p < hi {
      assert Gap(lo, hi)[0].start <= p < Gap(lo, hi)[0].end;
    }
  }

  /** Nothing between the cursor and the start of the next live exclusion is covered. */
  lemma GapClear(merged: seq<Span>, i: nat, cursor: nat, stop: nat, p: nat)
    requires Merged(merged) && i <= |merged|
    requires forall j :: 0 <= j < i ==> merged[j].hi <= cursor
    requires i < |merged| ==> stop <= merged[i].lo
    requires cursor <= p < stop
    ensures !Covers(merged, p)
  {
    forall j | 0 <= j < |merged|
      ensures !In(p, merged[j])
    {
    }
  }

  /** Sweep one RAM range with a cursor over the merged exclusions. */
  method SweepRam(allocator: StackFrameAllocator, page: Span, merged: seq<Span>)
    modifies allocator
    ensures allocator.ranges == old(allocator.ranges) +
      (if page.lo < page.hi then Sweep(page, merged, 0, page.lo) else [])
    ensures allocator.recycled == old(allocator.recycled) && allocator.recycledSet == old(allocator.recycledSet)
    ensures allocator.managedPages - old(allocator.managedPages)
         == Managed(allocator.ranges) - Managed(old(allocator.ranges))
  {
    if page.hi <= page.lo {
      return;
    }
    var cursor: nat := page.lo;
    var i := 0;
    while i < |merged|
      invariant 0 <= i <= |merged| && cursor < page.hi
      invariant allocator.ranges + Sweep(page, merged, i, cursor) ==
        old(allocator.ranges) + Sweep(page, merged, 0, page.lo)
      invariant allocator.recycled == old(allocator.recycled) && allocator.recycledSet == old(allocator.recycledSet)
      invariant allocator.managedPages - old(allocator.managedPages)
             == Managed(allocator.ranges) - Managed(old(allocator.ranges))
    {
      var x := merged[i];
      if x.hi <= cursor {
        i := i + 1;
        continue;
      }
      if x.lo >= page.hi {
        break;
      }
      ghost var before := allocator.ranges;
      if cursor < x.lo {
        AddGap(allocator, cursor, x.lo);
      }
      assert allocator.ranges == before + Gap(cursor, x.lo);
      cursor := x.hi;  // the larger of the two: x ends after the cursor
      if cursor >= page.hi {
        return;
      }
      i := i + 1;
    }
    AddGap(allocator, cursor, page.hi);
  }

  method AddGap(allocator: StackFrameAllocator, lo: nat, hi: nat)
    modifies allocator
    ensures allocator.ranges == old(allocator.ranges) + Gap(lo, hi)
    ensures allocator.recycled == old(allocator.recycled) && allocator.recycledSet == old(allocator.recycledSet)
    ensures allocator.managedPages - old(allocator.managedPages)
         == Managed(allocator.ranges) - Managed(old(allocator.ranges))
  {
    ghost var before := allocator.ranges;
    allocator.RegisterRange(lo, hi);
    assert lo < hi ==> allocator.ranges[..|before|] == before;
  }

  // ----- the whole initialisation -----

  predicate DisjointRam(ram: seq<Span>) {
    forall i, j :: 0 <= i < j < |ram| ==> ram[i].hi <= ram[j].lo || ram[j].hi <= ram[i].lo
  }

  ghost predicate HasHome(r: FrameRange, ram: seq<Span>, n: nat)
    requires n <= |ram|
  {
    exists k :: 0 <= k < n && Within(r, Inward(ram[k]))
  }

  /** Each registered range lies inside one of the RAM ranges seen so far. */
  ghost predicate Homed(ranges: seq<FrameRange>, ram: seq<Span>, n: nat)
    requires n <= |ram|
  {
    forall i :: 0 <= i < |ranges| ==> HasHome(ranges[i], ram, n)
  }

  lemma AppendGood(ranges: seq<FrameRange>, added: seq<FrameRange>, ram: seq<Span>, n: nat)
    requires n < |ram| && DisjointRam(ram)
    requires GoodRanges(ranges) && Homed(ranges, ram, n)
    requires Ascending(added) && forall i :: 0 <= i < |added| ==> Within(added[i], Inward(ram[n]))
    ensures GoodRanges(ranges + added) && Homed(ranges + added, ram, n + 1)
  {
    var all := ranges + added;
    forall i, j | 0 <= i < j < |all|
      ensures all[i].end <= all[j].start || all[j].end <= all[i].start
    {
      if i < |ranges| <= j {
        assert HasHome(ranges[i], ram, n);
        var k :| 0 <= k < n && Within(ranges[i], Inward(ram[k]));
        assert Within(added[j - |ranges|], Inward(ram[n]));
      }
    }
    forall i | 0 <= i < |all|
      ensures HasHome(all[i], ram, n + 1)
    {
      if i < |ranges| {
        assert HasHome(ranges[i], ram, n);
        var k :| 0 <= k < n && Within(ranges[i], Inward(ram[k]));
        assert Within(all[i], Inward(ram[k]));
      } else {
        assert Within(all[i], Inward(ram[n]));
      }
    }
  }

  lemma ManagesSplit(a: seq<FrameRange>, b: seq<FrameRange>, p: nat)
    ensures Manages(a + b, p) <==> Manages(a, p) || Manages(b, p)
  {
    if Manages(a, p) {
      var i :| 0 <= i < |a| && a[i].start <= p < a[i].end;
      assert (a + b)[i] == a[i];
    }
    if Manages(b, p) {
      var i :| 0 <= i < |b| && b[i].start <= p < b[i].end;
      assert (a + b)[|a| + i] == b[i];
    }
  }

  lemma WholeRamAppend(ram: seq<Span>, k: nat, p: nat)
    requires k < |ram|
    ensures WholeRam(ram[..k + 1], p) <==> WholeRam(ram[..k], p) || In(p, Inward(ram[k]))
  {
    if WholeRam(ram[..k], p) {
      var i :| 0 <= i < k && In(p, Inward(ram[..k][i]));
      assert In(p, Inward(ram[..k + 1][i]));
    }
    if In(p, Inward(ram[k])) {
      assert In(p, Inward(ram[..k + 1][k]));
    }
    if WholeRam(ram[..k + 1], p) {
      var i :| 0 <= i < k + 1 && In(p, Inward(ram[..k + 1][i]));
      if i < k {
        assert In(p, Inward(ram[..k][i]));
      }
    }
  }

  /** init_frame_allocator. For any disjoint RAM ranges and any exclusions in any order, the
      registered ranges are pairwise disjoint and their union is exactly the whole RAM pages
      that no exclusion touches. The source asserts the bound on the exclusions it stores. */
  method InitFrameAllocator(kernel: Span, reserved: seq<Span>, ram: seq<Span>) returns (allocator: StackFrameAllocator)
    requires Reaching([kernel] + reserved, |reserved| + 1) <= MAX_EXCLUSIONS && DisjointRam(ram)
    ensures fresh(allocator)
    ensures forall p: nat :: Manages(allocator.ranges, p) <==> WholeRam(ram, p) && !Withdrawn([kernel] + reserved, p)
    ensures Booted(Sys(allocator.View(), map[], map[], {}, {}))
  {
    var exclusions := new Span[17](_ => Span(0, 0));
    var all := [kernel] + reserved;
    var count := CollectExclusions(all, exclusions);
    ghost var collected := exclusions[..count];
    SortExclusions(exclusions, count);
    ghost var sorted := exclusions[..count];
    SortedKeeps(collected, sorted);
    MergeCorrect(sorted);
    var mergedCount := MergeExclusions(exclusions, count);
    var merged := exclusions[..mergedCount];
    assert forall p: nat :: Covers(merged, p) <==> Withdrawn(all, p) by {
      assert SameCoverage(merged, sorted);
    }
    allocator := new StackFrameAllocator();
    for k := 0 to |ram|
      invariant fresh(allocator)
      invariant allocator.recycled == [] && allocator.recycledSet == {}
      invariant allocator.managedPages == Managed(allocator.ranges)
      invariant Registered(allocator.ranges, ram, merged, k)
    {
      RegisterMore(allocator.ranges, ram, merged, k);
      SweepRam(allocator, Inward(ram[k]), merged);
    }
    RegisteredAll(allocator.ranges, ram, merged);
  }

  /** The ranges registered for the first n RAM ranges: disjoint, untouched, and exact. */
  ghost predicate Registered(ranges: seq<FrameRange>, ram: seq<Span>, merged: seq<Span>, n: nat)
    requires n <= |ram|
  {
    && GoodRanges(ranges) && Homed(ranges, ram, n)
    && forall p: nat :: Manages(ranges, p) <==> WholeRam(ram[..n], p) && !Covers(merged, p)
  }

  lemma RegisterMore(ranges: seq<FrameRange>, ram: seq<Span>, merged: seq<Span>, k: nat)
    requires k < |ram| && DisjointRam(ram) && Merged(merged) && Registered(ranges, ram, merged, k)
    ensures var page := Inward(ram[k]);
      Registered(ranges + if page.lo < page.hi then Sweep(page, merged, 0, page.lo) else [], ram, merged, k + 1)
  {
    var page := Inward(ram[k]);
    var added := if page.lo < page.hi then Sweep(page, merged, 0, page.lo) else [];
    if page.lo < page.hi {
      SweepOrdered(page, merged, 0, page.lo);
    }
    AppendGood(ranges, added, ram, k);
    forall p: nat
      ensures Manages(ranges + added, p) <==> WholeRam(ram[..k + 1], p) && !Covers(merged, p)
    {
      ManagesSplit(ranges, added, p);
      WholeRamAppend(ram, k, p);
      assert Manages(ranges, p) <==> WholeRam(ram[..k], p) && !Covers(merged, p);
      if page.lo < page.hi {
        SweepExact(page, merged, 0, page.lo, p);
      }
    }
  }

  lemma RegisteredAll(ranges: seq<FrameRange>, ram: seq<Span>, merged: seq<Span>)
    requires Registered(ranges, ram, merged, |ram|)
    ensures forall i :: 0 <= i < |ranges| ==> ranges[i].current == ranges[i].start
    ensures forall p: nat :: Manages(ranges, p) <==> WholeRam(ram, p) && !Covers(merged, p)
  {
    assert ram[..|ram|] == ram;
    forall i | 0 <= i < |ranges|
      ensures ranges[i].current == ranges[i].start
    {
      assert HasHome(ranges[i], ram, |ram|);
    }
  }

  /** Sorting keeps the covered pages and the non-emptiness of the spans. */
  lemma SortedKeeps(s: seq<Span>, t: seq<Span>)
    requires multiset(s) == multiset(t) && NonEmpty(s)
    ensures NonEmpty(t)
    ensures forall p: nat :: Covers(s, p) <==> Covers(t, p)
  {
    forall p: nat
      ensures Covers(s, p) <==> Covers(t, p)
    {
      if Covers(s, p) {
        SameCover(s, t, p);
      }
      if Covers(t, p) {
        SameCover(t, s, p);
      }
    }
    forall i | 0 <= i < |t|
      ensures t[i].lo < t[i].hi
    {
      assert t[i] in multiset(s);
    }
  }
}
