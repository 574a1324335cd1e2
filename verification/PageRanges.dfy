/** Lists of page ranges (src/mm/memory_set/range.rs), as used for locked ranges and rollback. */
module PageRanges {
  import opened FrameBoot

  /** Sorted by start, the ranges so far are covered by separated spans. */
  ghost predicate MergedTo(acc: seq<Span>, sorted: seq<Span>, k: nat)
    requires k <= |sorted|
  {
    && Merged(acc) && SameCoverage(acc, sorted[..k])
    && (acc != [] ==> k > 0 && acc[|acc| - 1].lo <= sorted[k - 1].lo)
  }

  /** push_range_merged: an empty range is skipped, a touching one widens the last. */
  function PushMerged(acc: seq<Span>, x: Span): seq<Span> {
    if x.hi <= x.lo then acc else MergeInto(acc, x)
  }

  lemma PushKeeps(acc: seq<Span>, sorted: seq<Span>, k: nat)
    requires k < |sorted| && SortedByLo(sorted) && MergedTo(acc, sorted, k)
    ensures MergedTo(PushMerged(acc, sorted[k]), sorted, k + 1)
  {
    var x := sorted[k];
    assert sorted[..k + 1] == sorted[..k] + [x];
    if x.hi <= x.lo {
      forall p: nat
        ensures Covers(sorted[..k + 1], p) <==> Covers(acc, p)
      {
        CoverAppend(sorted[..k], x, p);
        assert Covers(acc, p) <==> Covers(sorted[..k], p);
      }
    } else {
      assert k > 0 ==> sorted[k - 1].lo <= x.lo;
      MergeIntoCorrect(acc, sorted[..k], x);
    }
  }

  /** normalize_ranges: separated non-empty ranges that cover the same pages. */
  method NormalizeRanges(ranges: seq<Span>) returns (merged: seq<Span>)
    ensures Merged(merged) && SameCoverage(merged, ranges)
  {
    var sorted := SortByLo(ranges);
    SortSorts(ranges);
    merged := [];
    assert sorted[..0] == [];
    for k := 0 to |sorted|
      invariant MergedTo(merged, sorted, k)
    {
      PushKeeps(merged, sorted, k);
      merged := PushMerged(merged, sorted[k]);
    }
    assert sorted[..|sorted|] == sorted;
    SortCovers(ranges, sorted, merged);
  }

  lemma SortCovers(ranges: seq<Span>, sorted: seq<Span>, merged: seq<Span>)
    requires sorted == SortByLo(ranges) && SameCoverage(merged, sorted)
    ensures SameCoverage(merged, ranges)
  {
    SortPermutes(ranges);
    forall p: nat
      ensures Covers(merged, p) <==> Covers(ranges, p)
    {
      assert Covers(merged, p) <==> Covers(sorted, p);
      if Covers(sorted, p) {
        SameCover(sorted, ranges, p);
      }
      if Covers(ranges, p) {
        SameCover(ranges, sorted, p);
      }
    }
  }

  /** The parts of a range before and after [s, e). */
  function Rests(r: Span, s: nat, e: nat): seq<Span> {
    if e <= r.lo || s >= r.hi then [r]
    else (if s > r.lo then [Span(r.lo, s)] else []) + (if e < r.hi then [Span(e, r.hi)] else [])
  }

  lemma RestsMeaning(r: Span, s: nat, e: nat, p: nat)
    requires s < e
    ensures Covers(Rests(r, s, e), p) <==> In(p, r) && !(s <= p < e)
  {
    var rests := Rests(r, s, e);
    if In(p, r) && !(s <= p < e) {
      if |rests| == 2 && p >= e {
        assert In(p, rests[1]);
      } else {
        assert In(p, rests[0]);
      }
    }
  }

  lemma CoverJoin(s: seq<Span>, t: seq<Span>, p: nat)
    ensures Covers(s + t, p) <==> Covers(s, p) || Covers(t, p)
  {
    if Covers(s, p) {
      var i :| 0 <= i < |s| && In(p, s[i]);
      assert In(p, (s + t)[i]);
    }
    if Covers(t, p) {
      var i :| 0 <= i < |t| && In(p, t[i]);
      assert In(p, (s + t)[|s| + i]);
    }
    if Covers(s + t, p) {
      var i :| 0 <= i < |s + t| && In(p, (s + t)[i]);
      if i < |s| {
        assert In(p, s[i]);
      } else {
        assert In(p, t[i - |s|]);
      }
    }
  }

  /** What the list `out` covers once the ranges `seen` have been visited. */
  ghost predicate TrimmedTo(seen: seq<Span>, out: seq<Span>, s: nat, e: nat) {
    forall p: nat :: Covers(out, p) <==> Covers(seen, p) && !(s <= p < e)
  }

  ghost predicate ClippedTo(seen: seq<Span>, out: seq<Span>, s: nat, e: nat) {
    forall p: nat :: Covers(out, p) <==> Covers(seen, p) && s <= p < e
  }

  /** trim_ranges: exactly the pages [s, e) go. */
  method TrimRanges(ranges: seq<Span>, s: nat, e: nat) returns (r: seq<Span>)
    ensures TrimmedTo(ranges, r, s, e)
  {
    if e <= s {
      return ranges;
    }
    var next: seq<Span> := [];
    for k := 0 to |ranges|
      invariant TrimmedTo(ranges[..k], next, s, e)
    {
      TrimNext(ranges, k, next, s, e);
      next := next + Rests(ranges[k], s, e);
    }
    assert ranges[..|ranges|] == ranges;
    r := NormalizeRanges(next);
    assert forall p: nat :: Covers(r, p) <==> Covers(next, p);
  }

  lemma TrimNext(ranges: seq<Span>, k: nat, out: seq<Span>, s: nat, e: nat)
    requires k < |ranges| && s < e && TrimmedTo(ranges[..k], out, s, e)
    ensures TrimmedTo(ranges[..k + 1], out + Rests(ranges[k], s, e), s, e)
  {
    assert ranges[..k + 1] == ranges[..k] + [ranges[k]];
    forall p: nat
      ensures Covers(out + Rests(ranges[k], s, e), p) <==> Covers(ranges[..k + 1], p) && !(s <= p < e)
    {
      CoverJoin(out, Rests(ranges[k], s, e), p);
      RestsMeaning(ranges[k], s, e, p);
      CoverAppend(ranges[..k], ranges[k], p);
      assert Covers(out, p) <==> Covers(ranges[..k], p) && !(s <= p < e);
    }
  }

  /** The overlaps of the ranges with [s, e). */
  method ClipRanges(ranges: seq<Span>, s: nat, e: nat) returns (r: seq<Span>)
    ensures ClippedTo(ranges, r, s, e)
  {
    r := [];
    for k := 0 to |ranges|
      invariant ClippedTo(ranges[..k], r, s, e)
    {
      var lo := if s >= ranges[k].lo then s else ranges[k].lo;
      var hi := if e <= ranges[k].hi then e else ranges[k].hi;
      ClipNext(ranges, k, r, s, e, Span(lo, hi));
      if lo < hi {
        r := r + [Span(lo, hi)];
      }
    }
    assert ranges[..|ranges|] == ranges;
  }

  lemma ClipNext(ranges: seq<Span>, k: nat, out: seq<Span>, s: nat, e: nat, x: Span)
    requires k < |ranges| && ClippedTo(ranges[..k], out, s, e)
    requires forall p: nat :: In(p, x) <==> In(p, ranges[k]) && s <= p < e
    ensures ClippedTo(ranges[..k + 1], if x.lo < x.hi then out + [x] else out, s, e)
  {
    assert ranges[..k + 1] == ranges[..k] + [ranges[k]];
    var after := if x.lo < x.hi then out + [x] else out;
    forall p: nat
      ensures Covers(after, p) <==> Covers(ranges[..k + 1], p) && s <= p < e
    {
      CoverAppend(out, x, p);
      CoverAppend(ranges[..k], ranges[k], p);
      assert Covers(out, p) <==> Covers(ranges[..k], p) && s <= p < e;
      assert In(p, x) <==> In(p, ranges[k]) && s <= p < e;
    }
  }
}
