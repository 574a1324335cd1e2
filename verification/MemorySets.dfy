/** Unmapping, snapshot and rollback of a range of user pages (src/mm/memory_set.rs). Ranges are
    given in page numbers, as for page-aligned addresses. */
module MemorySets {
  import opened CowFork
  import opened MapAreas
  import Frames = FrameAllocator
  import Boot = FrameBoot
  import Ranges = PageRanges

  // ----- unmapping -----

  /** What unmapping [s, e) does to page v. */
  ghost predicate UnmappedAt(a0: seq<MapArea>, p0: map<Vpn, Pte>, a1: seq<MapArea>, p1: map<Vpn, Pte>,
                             s: Vpn, e: Vpn, v: Vpn) {
    && UserPage(a1, p1, v) == (if s <= v < e then {} else UserPage(a0, p0, v))
    && UserCount(a1, v) == (if s <= v < e then 0 else UserCount(a0, v))
    && KernelCount(a1, v) == KernelCount(a0, v)
    && Lookup(p1, v) == (if s <= v < e && UserCount(a0, v) > 0 then None else Lookup(p0, v))
  }

  ghost predicate Unmapped(a0: seq<MapArea>, p0: map<Vpn, Pte>, a1: seq<MapArea>, p1: map<Vpn, Pte>, s: Vpn, e: Vpn) {
    && (forall v :: UnmappedAt(a0, p0, a1, p1, s, e, v))
    && (forall a :: SameKernel(a0, a1, a))
    && AllTidy(a1)
  }

  predicate SameKernel(a0: seq<MapArea>, a1: seq<MapArea>, a: MapArea) {
    !a.user ==> Occurs(a1, a) == Occurs(a0, a)
  }

  function Outside<T>(m: map<Vpn, T>, s: Vpn, e: Vpn): map<Vpn, T> { map k | k in m && !(s <= k < e) :: m[k] }

  lemma OutsideNext<T>(m: map<Vpn, T>, s: Vpn, v: Vpn)
    requires s <= v
    ensures Outside(m, s, v) - {v} == Outside(m, s, v + 1)
  {
  }

  /** The area once the pages [s, e) are unmapped from it. */
  function Cleared(a: MapArea, s: Vpn, e: Vpn): MapArea {
    a.(frames := if a.mapType.Identical? then a.frames else Outside(a.frames, s, e), saved := Outside(a.saved, s, e))
  }

  lemma SplitCleared(a: MapArea, x: Vpn, y: Vpn)
    ensures SplitAround(Cleared(a, x, y), x, y).0 == SplitAround(a, x, y).0
    ensures SplitAround(Cleared(a, x, y), x, y).2 == SplitAround(a, x, y).2
  {
    var f, c := FramesOf(a), FramesOf(Cleared(a, x, y));
    assert Before(Before(c, y), x) == Before(Before(f, y), x);
    assert From(c, y) == From(f, y);
    assert Before(Before(Outside(a.saved, x, y), y), x) == Before(Before(a.saved, y), x);
    assert From(Outside(a.saved, x, y), y) == From(a.saved, y);
  }

  lemma RebuiltAt(a0: seq<MapArea>, p0: map<Vpn, Pte>, p1: map<Vpn, Pte>, s: Vpn, e: Vpn, v: Vpn)
    requires AllTidy(a0) && s < e
    requires Lookup(p1, v) == if s <= v < e && UserCount(a0, v) > 0 then None else Lookup(p0, v)
    ensures UnmappedAt(a0, p0, UnmapAreas(a0, s, e), p1, s, e, v)
  {
    UnmapMeaning(a0, s, e, p1, v);
    if !(s <= v < e) {
      SameEntry(a0, p0, p1, v);
    }
  }

  lemma RemovedAt(a0: seq<MapArea>, i: nat, p0: map<Vpn, Pte>, p1: map<Vpn, Pte>, s: Vpn, e: Vpn, v: Vpn)
    requires i < |a0| && a0[i].user && a0[i].start == s && a0[i].end == e && CountAt(a0, v) <= 1
    requires Lookup(p1, v) == if s <= v < e then None else Lookup(p0, v)
    ensures UnmappedAt(a0, p0, a0[..i] + a0[i + 1..], p1, s, e, v)
  {
    var l, r := a0[..i], a0[i + 1..];
    assert a0 == (l + [a0[i]]) + r;
    ListJoin(l + [a0[i]], r, p1, v);
    ListJoin(l, [a0[i]], p1, v);
    ListOne(a0[i], p1, v);
    ListJoin(l, r, p1, v);
    HeldMeansPage(l + r, p1, v);
    if !(s <= v < e) {
      SameEntry(a0, p0, p1, v);
    }
  }

  lemma RemovedKernel(a0: seq<MapArea>, i: nat, a: MapArea)
    requires i < |a0| && a0[i].user
    ensures SameKernel(a0, a0[..i] + a0[i + 1..], a)
  {
    var l, r := a0[..i], a0[i + 1..];
    assert a0 == (l + [a0[i]]) + r;
    OccursJoin(l + [a0[i]], r, a);
    OccursJoin(l, [a0[i]], a);
    OccursOne(a0[i], a);
    OccursJoin(l, r, a);
  }

  /** Unmapping keeps the areas apart. */
  lemma UnmapConsistent(a0: seq<MapArea>, p0: map<Vpn, Pte>, a1: seq<MapArea>, p1: map<Vpn, Pte>, s: Vpn, e: Vpn)
    requires Consistent(a0) && Unmapped(a0, p0, a1, p1, s, e)
    ensures Consistent(a1)
  {
    forall v
      ensures CountAt(a1, v) <= 1
    {
      assert UnmappedAt(a0, p0, a1, p1, s, e, v);
      assert CountAt(a0, v) <= 1;
    }
  }

  class MemorySet {
    var areas: seq<MapArea>
    var ptes: map<Vpn, Pte>
    var locked: seq<Boot.Span>   // mlocked_ranges

    constructor (areas: seq<MapArea>, ptes: map<Vpn, Pte>)
      ensures this.areas == areas && this.ptes == ptes && locked == []
    {
      this.areas, this.ptes, locked := areas, ptes, [];
    }

    ghost predicate Valid()
      reads this
    {
      Consistent(areas)
    }

    /** unmap_range_maybe: page by page, the frame, the saved flags and the entry go. */
    method UnmapRangeMaybe(a: MapArea, s: Vpn, e: Vpn) returns (r: MapArea)
      requires s <= e
      modifies this`ptes
      ensures r == Cleared(a, s, e) && ptes == Outside(old(ptes), s, e)
    {
      r := a;
      assert Cleared(a, s, s) == a && Outside(ptes, s, s) == ptes;
      for v := s to e
        invariant r == Cleared(a, s, v) && ptes == Outside(old(ptes), s, v)
      {
        OutsideNext(a.frames, s, v);
        OutsideNext(a.saved, s, v);
        OutsideNext(old(ptes), s, v);
        if !r.mapType.Identical? {
          r := r.(frames := r.frames - {v});
        }
        r := r.(saved := r.saved - {v});
        ptes := ptes - {v};
      }
    }

    /** unmap_user_range: no user page is left in [s, e), every other page is untouched. */
    method UnmapUserRange(s: Vpn, e: Vpn)
      requires Valid()
      modifies this`areas, this`ptes
      ensures Valid()
      ensures if s >= e then areas == old(areas) && ptes == old(ptes)
              else Unmapped(old(areas), old(ptes), areas, ptes, s, e)
    {
      if s >= e {
        return;
      }
      var i := 0;
      while i < |areas| && !(areas[i].user && areas[i].start == s && areas[i].end == e)
        invariant i <= |areas|
      {
        i := i + 1;
      }
      if i < |areas| {
        RemoveExact(i, s, e);
      } else {
        Rebuild(s, e);
      }
      UnmapConsistent(old(areas), old(ptes), areas, ptes, s, e);
    }

    /** The fast path: one user area is exactly the range. */
    method RemoveExact(i: nat, s: Vpn, e: Vpn)
      requires Valid() && s < e && i < |areas| && areas[i].user && areas[i].start == s && areas[i].end == e
      modifies this`areas, this`ptes
      ensures Unmapped(old(areas), old(ptes), areas, ptes, s, e)
    {
      var a := areas[i];
      areas := areas[..i] + areas[i + 1..];
      var _ := UnmapRangeMaybe(a, a.start, a.end);
      forall v
        ensures UnmappedAt(old(areas), old(ptes), areas, ptes, s, e, v)
      {
        assert CountAt(old(areas), v) <= 1;
        RemovedAt(old(areas), i, old(ptes), ptes, s, e, v);
      }
      forall k
        ensures SameKernel(old(areas), areas, k)
      {
        RemovedKernel(old(areas), i, k);
      }
    }

    /** The slow path: rebuild the list, cutting the areas that overlap the range. */
    method Rebuild(s: Vpn, e: Vpn)
      requires Valid() && s < e
      modifies this`areas, this`ptes
      ensures Unmapped(old(areas), old(ptes), areas, ptes, s, e)
    {
      var all := areas;
      var newAreas: seq<MapArea> := [];
      areas := [];
      for k := 0 to |all|
        invariant newAreas == UnmapAreas(all[..k], s, e)
        invariant forall v :: LeftAt(all[..k], old(ptes), ptes, s, e, v)
      {
        assert all[..k + 1] == all[..k] + [all[k]] && all[..k + 1][..k] == all[..k];
        var pieces := CutArea(all[k], s, e, all[..k], old(ptes));
        newAreas := newAreas + pieces;
      }
      assert all[..|all|] == all;
      areas := Sorted(newAreas);
      RebuiltSorted(all, old(ptes), ptes, s, e);
    }

    /** One turn of the rebuild: unmap what overlaps and return the rests. */
    method CutArea(a: MapArea, s: Vpn, e: Vpn, ghost seen: seq<MapArea>, ghost p0: map<Vpn, Pte>)
      returns (pieces: seq<MapArea>)
      requires Tidy(a) && s < e && forall v :: LeftAt(seen, p0, ptes, s, e, v)
      modifies this`ptes
      ensures pieces == UnmapOne(a, s, e)
      ensures forall v :: LeftAt(seen + [a], p0, ptes, s, e, v)
    {
      ghost var before := ptes;
      if !a.user || !Overlaps(a, s, e) {
        pieces := [a];
      } else {
        var x, y := Max(s, a.start), Min(e, a.end);
        var cleared := UnmapRangeMaybe(a, x, y);
        SplitCleared(a, x, y);
        var (left, _, right) := SplitAround(cleared, x, y);
        pieces := ToSeq(left) + ToSeq(right);
      }
      forall v
        ensures LeftAt(seen + [a], p0, ptes, s, e, v)
      {
        assert LeftAt(seen, p0, before, s, e, v);
        ListJoin(seen, [a], p0, v);
        ListOne(a, p0, v);
      }
    }

    /** snapshot_user_range: the middles of the overlapping user areas, their valid entries and the
        overlaps of the locked ranges. */
    method SnapshotUserRange(s: Vpn, e: Vpn) returns (snap: Snapshot)
      requires Valid()
      ensures snap.start == s && snap.end == e && SnapshotOf(snap, areas, ptes)
      ensures Ranges.ClippedTo(locked, snap.locked, s, e)
    {
      var kept: seq<MapArea> := [];
      var entries: seq<(Vpn, Pte)> := [];
      for k := 0 to |areas|
        invariant kept == KeepAreas(areas[..k], s, e)
        invariant EntriesFrom(entries, ptes)
        invariant forall v :: ListedAt(areas[..k], ptes, entries, s, e, v)
      {
        assert areas[..k + 1] == areas[..k] + [areas[k]] && areas[..k + 1][..k] == areas[..k];
        var a := areas[k];
        if a.user && Overlaps(a, s, e) && Max(s, a.start) < Min(e, a.end) {
          var more := ListEntries(Max(s, a.start), Min(e, a.end));
          AddEntries(areas[..k], ptes, entries, more, a, s, e);
          entries := entries + more;
          kept := kept + [SplitAround(a, Max(s, a.start), Min(e, a.end)).1];
        } else {
          AddEntries(areas[..k], ptes, entries, [], a, s, e);
          assert entries + [] == entries;
        }
      }
      assert areas[..|areas|] == areas;
      var overlaps := Ranges.ClipRanges(locked, s, e);
      snap := Snapshot(s, e, kept, entries, overlaps);
      KeptAll(snap, areas, ptes);
    }

    /** Map the listed entries back. A page that is still mapped would be a panic. */
    method MapEntries(entries: seq<(Vpn, Pte)>, ghost pA: map<Vpn, Pte>)
      requires EntriesFrom(entries, pA)
      requires forall v :: Room(entries, ptes, pA, v)
      modifies this`ptes
      ensures ptes == pA
    {
      ghost var p1 := ptes;
      for k := 0 to |entries|
        invariant forall v :: MappedAt(entries[..k], p1, pA, ptes, v)
      {
        var (w, pte) := entries[k];
        EntryStep(entries, k);
        assert Room(entries, p1, pA, w) && MappedAt(entries[..k], p1, pA, ptes, w);
        assert w !in ptes;
        MappedNext(entries, k, entries[..k + 1], p1, pA, ptes, ptes[w := pte]);
        ptes := ptes[w := pte];
      }
      assert entries[..|entries|] == entries;
      AllMapped(entries, p1, pA, ptes);
    }

    /** unmap_user_vma_range, for pages and locked ranges. */
    method UnmapUserVmaRange(s: Vpn, e: Vpn)
      requires Valid()
      modifies this
      ensures Valid() && Unmapped(old(areas), old(ptes), areas, ptes, s, e)
      ensures Ranges.TrimmedTo(old(locked), locked, s, e)
    {
      UnmapUserRange(s, e);
      UnmappedAll(old(areas), old(ptes), areas, ptes, s, e);
      locked := Ranges.TrimRanges(locked, s, e);
    }

    /** restore_user_range: with the state at the snapshot given by aA, pA and lA, and whatever has
        happened to user mappings since, every page inside the range is exactly as it was at the
        snapshot, and every page outside is left as it is. */
    method RestoreUserRange(snap: Snapshot, ghost aA: seq<MapArea>, ghost pA: map<Vpn, Pte>, ghost lA: seq<Boot.Span>)
      requires Valid() && Consistent(aA) && SnapshotOf(snap, aA, pA)
      requires Ranges.ClippedTo(lA, snap.locked, snap.start, snap.end)
      requires forall v :: KernelAgrees(aA, pA, areas, ptes, v)
      modifies this
      ensures Valid()
      ensures forall v :: Back(snap, aA, pA, old(areas), old(ptes), areas, ptes, v)
      ensures forall v :: LockBack(snap, lA, old(locked), locked, v)
      ensures forall a :: SameKernel(old(areas), areas, a)
    {
      UnmapUserVmaRange(snap.start, snap.end);
      ghost var a1, p1, l1 := areas, ptes, locked;
      RoomForAll(snap, aA, pA, old(areas), old(ptes), a1, p1);
      Restored(snap, aA, pA, old(areas), old(ptes), a1, p1);
      areas := Sorted(areas + snap.areas);
      MapEntries(snap.ptes, Mixed(pA, old(ptes), snap.start, snap.end));
      locked := Ranges.NormalizeRanges(locked + snap.locked);
      LocksRestored(snap, lA, old(locked), l1, locked);
    }

    /** The valid entries of a run of pages, in order. */
    method ListEntries(x: Vpn, y: Vpn) returns (entries: seq<(Vpn, Pte)>)
      requires x <= y
      ensures EntriesFrom(entries, ptes)
      ensures forall v: Vpn :: EntryCount(entries, v) == if x <= v < y && v in ptes then 1 else 0
    {
      entries := [];
      for w := x to y
        invariant EntriesFrom(entries, ptes)
        invariant forall v: Vpn :: EntryCount(entries, v) == if x <= v < w && v in ptes then 1 else 0
      {
        if w in ptes {
          forall v: Vpn
            ensures EntryCount(entries + [(w, ptes[w])], v) == EntryCount(entries, v) + if v == w then 1 else 0
          {
            assert (entries + [(w, ptes[w])])[..|entries|] == entries;
          }
          entries := entries + [(w, ptes[w])];
        }
      }
    }
  }

  // ----- snapshots -----

  /** UserRangeSnapshot: the areas, entries and locked ranges of the user pages in [start, end). */
  datatype Snapshot = Snapshot(
    start: Vpn, end: Vpn, areas: seq<MapArea>, ptes: seq<(Vpn, Pte)>, locked: seq<Boot.Span>)

  function EntryCount(entries: seq<(Vpn, Pte)>, v: Vpn): nat {
    if entries == [] then 0
    else EntryCount(entries[..|entries| - 1], v) + if entries[|entries| - 1].0 == v then 1 else 0
  }

  predicate EntriesFrom(entries: seq<(Vpn, Pte)>, p: map<Vpn, Pte>) {
    forall x :: x in entries ==> x.0 in p && p[x.0] == x.1
  }

  /** The entries listed for page v once the given areas have been visited. */
  ghost predicate ListedAt(areas: seq<MapArea>, p: map<Vpn, Pte>, entries: seq<(Vpn, Pte)>, s: Vpn, e: Vpn, v: Vpn) {
    EntryCount(entries, v) == if s <= v < e && v in p then UserCount(areas, v) else 0
  }

  ghost predicate KeptAt(snap: Snapshot, a0: seq<MapArea>, p0: map<Vpn, Pte>, v: Vpn) {
    && UserPage(snap.areas, p0, v) == (if snap.start <= v < snap.end then UserPage(a0, p0, v) else {})
    && UserCount(snap.areas, v) == (if snap.start <= v < snap.end then UserCount(a0, v) else 0)
    && KernelCount(snap.areas, v) == 0
    && ListedAt(a0, p0, snap.ptes, snap.start, snap.end, v)
  }

  predicate NoKernel(areas: seq<MapArea>, a: MapArea) { !a.user ==> Occurs(areas, a) == 0 }

  /** The snapshot holds exactly the user pages of the range, as they were. */
  ghost predicate SnapshotOf(snap: Snapshot, a0: seq<MapArea>, p0: map<Vpn, Pte>) {
    && (forall v :: KeptAt(snap, a0, p0, v))
    && EntriesFrom(snap.ptes, p0)
    && AllTidy(snap.areas) && (forall a :: NoKernel(snap.areas, a))
  }

  lemma {:induction false} EntryJoin(xs: seq<(Vpn, Pte)>, ys: seq<(Vpn, Pte)>, v: Vpn)
    ensures EntryCount(xs + ys, v) == EntryCount(xs, v) + EntryCount(ys, v)
  {
    if ys == [] {
      assert xs + ys == xs;
    } else {
      EntryJoin(xs, ys[..|ys| - 1], v);
      assert (xs + ys)[..|xs + ys| - 1] == xs + ys[..|ys| - 1];
    }
  }

  lemma AddEntries(seen: seq<MapArea>, p: map<Vpn, Pte>, entries: seq<(Vpn, Pte)>,
                   more: seq<(Vpn, Pte)>, a: MapArea, s: Vpn, e: Vpn)
    requires forall v :: ListedAt(seen, p, entries, s, e, v)
    requires forall v: Vpn :: EntryCount(more, v) == if s <= v < e && v in p then UserOne(a, v) else 0
    ensures forall v :: ListedAt(seen + [a], p, entries + more, s, e, v)
  {
    forall v
      ensures ListedAt(seen + [a], p, entries + more, s, e, v)
    {
      assert ListedAt(seen, p, entries, s, e, v);
      EntryJoin(entries, more, v);
      ListJoin(seen, [a], p, v);
      ListOne(a, p, v);
    }
  }

  lemma KeptAll(snap: Snapshot, a0: seq<MapArea>, p0: map<Vpn, Pte>)
    requires AllTidy(a0) && snap.areas == KeepAreas(a0, snap.start, snap.end) && EntriesFrom(snap.ptes, p0)
    requires forall v :: ListedAt(a0, p0, snap.ptes, snap.start, snap.end, v)
    ensures SnapshotOf(snap, a0, p0)
  {
    forall v
      ensures KeptAt(snap, a0, p0, v)
    {
      assert ListedAt(a0, p0, snap.ptes, snap.start, snap.end, v);
      KeepMeaning(a0, snap.start, snap.end, p0, v);
    }
    KeepMeaning(a0, snap.start, snap.end, p0, 0);
    forall a
      ensures NoKernel(snap.areas, a)
    {
      if !a.user {
        UnmapKeepsKernel(a0, snap.start, snap.end, a);
      }
    }
  }

  /** The entry at v once the listed areas have been visited. */
  ghost predicate LeftAt(seen: seq<MapArea>, p0: map<Vpn, Pte>, p: map<Vpn, Pte>, s: Vpn, e: Vpn, v: Vpn) {
    Lookup(p, v) == if s <= v < e && UserCount(seen, v) > 0 then None else Lookup(p0, v)
  }

  lemma RebuiltSorted(a0: seq<MapArea>, p0: map<Vpn, Pte>, p1: map<Vpn, Pte>, s: Vpn, e: Vpn)
    requires AllTidy(a0) && s < e && forall v :: LeftAt(a0, p0, p1, s, e, v)
    ensures Unmapped(a0, p0, Sorted(UnmapAreas(a0, s, e)), p1, s, e)
  {
    var a1 := UnmapAreas(a0, s, e);
    forall v
      ensures UnmappedAt(a0, p0, Sorted(a1), p1, s, e, v)
    {
      assert LeftAt(a0, p0, p1, s, e, v);
      RebuiltAt(a0, p0, p1, s, e, v);
      SortPage(a1, p1, v);
    }
    forall a
      ensures SameKernel(a0, Sorted(a1), a)
    {
      SortOccurs(a1, a);
      if !a.user {
        UnmapKeepsKernel(a0, s, e, a);
      }
    }
    UnmapMeaning(a0, s, e, p1, 0);
    SortTidy(a1);
  }

  // ----- rollback -----

  /** The page belongs to the kernel: it lies in a kernel area, or it is mapped outside all areas. */
  predicate Foreign(areas: seq<MapArea>, ptes: map<Vpn, Pte>, v: Vpn) {
    KernelCount(areas, v) > 0 || (UserCount(areas, v) == 0 && v in ptes)
  }

  /** Since the snapshot (A), the kernel's pages are the same and their entries are unchanged. */
  ghost predicate KernelAgrees(aA: seq<MapArea>, pA: map<Vpn, Pte>, aB: seq<MapArea>, pB: map<Vpn, Pte>, v: Vpn) {
    && KernelCount(aB, v) == KernelCount(aA, v)
    && (Foreign(aB, pB, v) <==> Foreign(aA, pA, v))
    && (Foreign(aA, pA, v) ==> Lookup(pB, v) == Lookup(pA, v))
  }

  /** Inside the range the page is locked as at the snapshot, outside as before the restore. */
  ghost predicate LockBack(snap: Snapshot, lA: seq<Boot.Span>, lB: seq<Boot.Span>, l: seq<Boot.Span>, v: Vpn) {
    Boot.Covers(l, v) <==> if snap.start <= v < snap.end then Boot.Covers(lA, v) else Boot.Covers(lB, v)
  }

  lemma LocksRestored(snap: Snapshot, lA: seq<Boot.Span>, lB: seq<Boot.Span>, l1: seq<Boot.Span>, l: seq<Boot.Span>)
    requires Ranges.ClippedTo(lA, snap.locked, snap.start, snap.end)
    requires Ranges.TrimmedTo(lB, l1, snap.start, snap.end) && Boot.SameCoverage(l, l1 + snap.locked)
    ensures forall v :: LockBack(snap, lA, lB, l, v)
  {
    forall v: Vpn
      ensures LockBack(snap, lA, lB, l, v)
    {
      Ranges.CoverJoin(l1, snap.locked, v);
      assert Boot.Covers(l, v) <==> Boot.Covers(l1 + snap.locked, v);
      assert Boot.Covers(l1, v) <==> Boot.Covers(lB, v) && !(snap.start <= v < snap.end);
      assert Boot.Covers(snap.locked, v) <==> Boot.Covers(lA, v) && snap.start <= v < snap.end;
    }
  }

  /** The page, its entry and its area counts are the same in both states. */
  ghost predicate SamePage(aA: seq<MapArea>, pA: map<Vpn, Pte>, a: seq<MapArea>, p: map<Vpn, Pte>, v: Vpn) {
    && UserPage(a, p, v) == UserPage(aA, pA, v) && Lookup(p, v) == Lookup(pA, v)
    && UserCount(a, v) == UserCount(aA, v) && KernelCount(a, v) == KernelCount(aA, v)
  }

  /** Inside the range the page is that of the snapshot, outside that of before the restore. */
  ghost predicate Back(snap: Snapshot, aA: seq<MapArea>, pA: map<Vpn, Pte>, aB: seq<MapArea>, pB: map<Vpn, Pte>,
                       a: seq<MapArea>, p: map<Vpn, Pte>, v: Vpn) {
    if snap.start <= v < snap.end then SamePage(aA, pA, a, p, v) else SamePage(aB, pB, a, p, v)
  }

  /** The entries of pA inside [s, e) and those of pB outside. */
  function Mixed(pA: map<Vpn, Pte>, pB: map<Vpn, Pte>, s: Vpn, e: Vpn): map<Vpn, Pte> {
    (map v | v in pA && s <= v < e :: pA[v]) + (map v | v in pB && !(s <= v < e) :: pB[v])
  }

  /** An entry to map back is listed once and finds its page free; every other page is as it was. */
  ghost predicate Room(entries: seq<(Vpn, Pte)>, p1: map<Vpn, Pte>, pA: map<Vpn, Pte>, v: Vpn) {
    && EntryCount(entries, v) <= 1
    && (if EntryCount(entries, v) > 0 then v !in p1 else Lookup(p1, v) == Lookup(pA, v))
  }

  ghost predicate MappedAt(entries: seq<(Vpn, Pte)>, p1: map<Vpn, Pte>, pA: map<Vpn, Pte>, p: map<Vpn, Pte>, v: Vpn) {
    Lookup(p, v) == if EntryCount(entries, v) > 0 then Lookup(pA, v) else Lookup(p1, v)
  }

  lemma EntryNext(entries: seq<(Vpn, Pte)>, k: nat, v: Vpn)
    requires k < |entries|
    ensures EntryCount(entries[..k + 1], v) == EntryCount(entries[..k], v) + if entries[k].0 == v then 1 else 0
  {
    assert entries[..k + 1][..k] == entries[..k];
  }

  lemma EntryStep(entries: seq<(Vpn, Pte)>, k: nat)
    requires k < |entries|
    ensures EntryCount(entries[..k], entries[k].0) < EntryCount(entries, entries[k].0)
  {
    var w := entries[k].0;
    EntryNext(entries, k, w);
    EntryJoin(entries[..k + 1], entries[k + 1..], w);
    assert entries == entries[..k + 1] + entries[k + 1..];
  }

  lemma MappedNext(entries: seq<(Vpn, Pte)>, k: nat, next: seq<(Vpn, Pte)>, p1: map<Vpn, Pte>, pA: map<Vpn, Pte>,
                   p: map<Vpn, Pte>, q: map<Vpn, Pte>)
    requires k < |entries| && EntriesFrom(entries, pA) && forall v :: MappedAt(entries[..k], p1, pA, p, v)
    requires next == entries[..k + 1] && q == p[entries[k].0 := entries[k].1]
    ensures forall v :: MappedAt(next, p1, pA, q, v)
  {
    forall v
      ensures MappedAt(next, p1, pA, q, v)
    {
      EntryNext(entries, k, v);
      assert MappedAt(entries[..k], p1, pA, p, v);
      assert entries[k] in entries;
    }
  }

  lemma AllMapped(entries: seq<(Vpn, Pte)>, p1: map<Vpn, Pte>, pA: map<Vpn, Pte>, p: map<Vpn, Pte>)
    requires forall v :: Room(entries, p1, pA, v)
    requires forall v :: MappedAt(entries, p1, pA, p, v)
    ensures p == pA
  {
    forall v: Vpn
      ensures Lookup(p, v) == Lookup(pA, v)
    {
      assert Room(entries, p1, pA, v) && MappedAt(entries, p1, pA, p, v);
    }
    forall v
      ensures v in p <==> v in pA
      ensures v in p && v in pA ==> p[v] == pA[v]
    {
      if v in p || v in pA {
        assert Lookup(p, v) == Lookup(pA, v);
      }
    }
  }

  /** The same for a range that is empty, where nothing is unmapped. */
  lemma UnmappedAll(a0: seq<MapArea>, p0: map<Vpn, Pte>, a1: seq<MapArea>, p1: map<Vpn, Pte>, s: Vpn, e: Vpn)
    requires AllTidy(a0)
    requires if s >= e then a1 == a0 && p1 == p0 else Unmapped(a0, p0, a1, p1, s, e)
    ensures Unmapped(a0, p0, a1, p1, s, e)
  {
  }

  /** All that is known about page v before the restore puts anything back. */
  ghost predicate Facts(snap: Snapshot, aA: seq<MapArea>, pA: map<Vpn, Pte>, aB: seq<MapArea>, pB: map<Vpn, Pte>,
                        a1: seq<MapArea>, p1: map<Vpn, Pte>, v: Vpn) {
    && KeptAt(snap, aA, pA, v)
    && KernelAgrees(aA, pA, aB, pB, v)
    && UnmappedAt(aB, pB, a1, p1, snap.start, snap.end, v)
    && CountAt(aA, v) <= 1 && CountAt(aB, v) <= 1
  }

  lemma AllFacts(snap: Snapshot, aA: seq<MapArea>, pA: map<Vpn, Pte>, aB: seq<MapArea>, pB: map<Vpn, Pte>,
                 a1: seq<MapArea>, p1: map<Vpn, Pte>, v: Vpn)
    requires Consistent(aA) && Consistent(aB) && SnapshotOf(snap, aA, pA)
    requires KernelAgrees(aA, pA, aB, pB, v)
    requires Unmapped(aB, pB, a1, p1, snap.start, snap.end)
    ensures Facts(snap, aA, pA, aB, pB, a1, p1, v)
  {
    assert KeptAt(snap, aA, pA, v) && UnmappedAt(aB, pB, a1, p1, snap.start, snap.end, v);
    assert CountAt(aA, v) <= 1 && CountAt(aB, v) <= 1;
  }

  lemma RoomAt(snap: Snapshot, aA: seq<MapArea>, pA: map<Vpn, Pte>, aB: seq<MapArea>, pB: map<Vpn, Pte>,
               a1: seq<MapArea>, p1: map<Vpn, Pte>, v: Vpn)
    requires Facts(snap, aA, pA, aB, pB, a1, p1, v)
    ensures Room(snap.ptes, p1, Mixed(pA, pB, snap.start, snap.end), v)
  {
  }

  lemma RoomForAll(snap: Snapshot, aA: seq<MapArea>, pA: map<Vpn, Pte>, aB: seq<MapArea>, pB: map<Vpn, Pte>,
                   a1: seq<MapArea>, p1: map<Vpn, Pte>)
    requires Consistent(aA) && Consistent(aB) && SnapshotOf(snap, aA, pA)
    requires forall v :: KernelAgrees(aA, pA, aB, pB, v)
    requires Unmapped(aB, pB, a1, p1, snap.start, snap.end)
    ensures forall v :: Room(snap.ptes, p1, Mixed(pA, pB, snap.start, snap.end), v)
    ensures EntriesFrom(snap.ptes, Mixed(pA, pB, snap.start, snap.end))
  {
    var pT := Mixed(pA, pB, snap.start, snap.end);
    forall v
      ensures Room(snap.ptes, p1, pT, v)
    {
      AllFacts(snap, aA, pA, aB, pB, a1, p1, v);
      RoomAt(snap, aA, pA, aB, pB, a1, p1, v);
    }
    forall x | x in snap.ptes
      ensures x.0 in pT && pT[x.0] == x.1
    {
      EntryListed(snap.ptes, x);
      assert KeptAt(snap, aA, pA, x.0);
    }
  }

  lemma EntryListed(entries: seq<(Vpn, Pte)>, x: (Vpn, Pte))
    requires x in entries
    ensures EntryCount(entries, x.0) > 0
  {
    var k :| 0 <= k < |entries| && entries[k] == x;
    EntryStep(entries, k);
  }

  /** Inside the range the page comes from the snapshot, outside from the areas left alone. */
  lemma JoinedPage(snap: Snapshot, aA: seq<MapArea>, pA: map<Vpn, Pte>, aB: seq<MapArea>, pB: map<Vpn, Pte>,
                   a1: seq<MapArea>, p1: map<Vpn, Pte>, pT: map<Vpn, Pte>, v: Vpn)
    requires Facts(snap, aA, pA, aB, pB, a1, p1, v) && pT == Mixed(pA, pB, snap.start, snap.end)
    ensures UserPage(a1, pT, v) + UserPage(snap.areas, pT, v) ==
            if snap.start <= v < snap.end then UserPage(aA, pA, v) else UserPage(aB, pB, v)
  {
    if snap.start <= v < snap.end {
      HeldMeansPage(a1, pT, v);
      SameEntry(snap.areas, pA, pT, v);
    } else {
      HeldMeansPage(snap.areas, pT, v);
      SameEntry(a1, p1, pT, v);
    }
  }

  lemma PageBack(snap: Snapshot, aA: seq<MapArea>, pA: map<Vpn, Pte>, aB: seq<MapArea>, pB: map<Vpn, Pte>,
                 a1: seq<MapArea>, p1: map<Vpn, Pte>, pT: map<Vpn, Pte>, v: Vpn)
    requires Facts(snap, aA, pA, aB, pB, a1, p1, v) && pT == Mixed(pA, pB, snap.start, snap.end)
    ensures Back(snap, aA, pA, aB, pB, Sorted(a1 + snap.areas), pT, v)
    ensures CountAt(Sorted(a1 + snap.areas), v) <= 1
  {
    JoinedPage(snap, aA, pA, aB, pB, a1, p1, pT, v);
    SortPage(a1 + snap.areas, pT, v);
    ListJoin(a1, snap.areas, pT, v);
  }

  lemma Restored(snap: Snapshot, aA: seq<MapArea>, pA: map<Vpn, Pte>, aB: seq<MapArea>, pB: map<Vpn, Pte>,
                 a1: seq<MapArea>, p1: map<Vpn, Pte>)
    requires Consistent(aA) && Consistent(aB) && SnapshotOf(snap, aA, pA)
    requires forall v :: KernelAgrees(aA, pA, aB, pB, v)
    requires Unmapped(aB, pB, a1, p1, snap.start, snap.end)
    ensures
      var a2, pT := Sorted(a1 + snap.areas), Mixed(pA, pB, snap.start, snap.end);
      && Consistent(a2)
      && (forall v :: Back(snap, aA, pA, aB, pB, a2, pT, v))
      && (forall a :: SameKernel(aB, a2, a))
  {
    var a2, pT := Sorted(a1 + snap.areas), Mixed(pA, pB, snap.start, snap.end);
    forall v
      ensures Back(snap, aA, pA, aB, pB, a2, pT, v) && CountAt(a2, v) <= 1
    {
      AllFacts(snap, aA, pA, aB, pB, a1, p1, v);
      PageBack(snap, aA, pA, aB, pB, a1, p1, pT, v);
    }
    forall a
      ensures SameKernel(aB, a2, a)
    {
      SortOccurs(a1 + snap.areas, a);
      OccursJoin(a1, snap.areas, a);
      assert SameKernel(aB, a1, a) && NoKernel(snap.areas, a);
    }
    SortTidy(a1 + snap.areas);
  }

  // ----- several ranges -----

  /** Snapshots of one state. */
  ghost predicate SnapshotsOf(snaps: seq<Snapshot>, aA: seq<MapArea>, pA: map<Vpn, Pte>, lA: seq<Boot.Span>) {
    forall k :: 0 <= k < |snaps| ==>
      SnapshotOf(snaps[k], aA, pA) && Ranges.ClippedTo(lA, snaps[k].locked, snaps[k].start, snaps[k].end)
  }

  /** The page is in one of the snapshots from number k on. */
  predicate InRest(snaps: seq<Snapshot>, k: nat, v: Vpn) {
    exists i :: k <= i < |snaps| && snaps[i].start <= v < snaps[i].end
  }

  predicate InSome(snaps: seq<Snapshot>, v: Vpn) { InRest(snaps, 0, v) }

  /** UserRangeRollback.capture: empty ranges are dropped and touching ones merged, and each of
      the resulting ranges is snapshotted. Together they cover exactly the given pages. */
  method Capture(m: MemorySet, ranges: seq<Boot.Span>) returns (snaps: seq<Snapshot>)
    requires m.Valid()
    ensures SnapshotsOf(snaps, m.areas, m.ptes, m.locked)
    ensures forall v: Vpn :: InSome(snaps, v) <==> Boot.Covers(ranges, v)
    ensures forall i, j :: 0 <= i < j < |snaps| ==> snaps[i].end < snaps[j].start
  {
    var merged := Ranges.NormalizeRanges(ranges);
    snaps := [];
    for i := 0 to |merged|
      invariant |snaps| == i && SnapshotsOf(snaps, m.areas, m.ptes, m.locked)
      invariant forall k :: 0 <= k < i ==> snaps[k].start == merged[k].lo && snaps[k].end == merged[k].hi
    {
      var snap := m.SnapshotUserRange(merged[i].lo, merged[i].hi);
      snaps := snaps + [snap];
    }
    forall v: Vpn
      ensures InSome(snaps, v) <==> Boot.Covers(ranges, v)
    {
      assert Boot.Covers(merged, v) <==> Boot.Covers(ranges, v);
      SameSpans(snaps, merged, v);
    }
  }

  lemma SameSpans(snaps: seq<Snapshot>, merged: seq<Boot.Span>, v: Vpn)
    requires |snaps| == |merged|
    requires forall k :: 0 <= k < |snaps| ==> snaps[k].start == merged[k].lo && snaps[k].end == merged[k].hi
    ensures InSome(snaps, v) <==> Boot.Covers(merged, v)
  {
    if InSome(snaps, v) {
      var k :| 0 <= k < |snaps| && snaps[k].start <= v < snaps[k].end;
      assert Boot.In(v, merged[k]);
    }
    if Boot.Covers(merged, v) {
      var k :| 0 <= k < |merged| && Boot.In(v, merged[k]);
      assert snaps[k].start <= v < snaps[k].end;
    }
  }

  /** UserRangeRollback.restore, last snapshot first: every page of every range is exactly as it
      was when the snapshots were taken, and every other page is left as it is. When nothing but
      user mappings inside the ranges has changed since, the whole page table and the whole page
      view are those of the snapshots. */
  method RestoreAll(m: MemorySet, snaps: seq<Snapshot>, ghost aA: seq<MapArea>,
                    ghost pA: map<Vpn, Pte>, ghost lA: seq<Boot.Span>)
    requires m.Valid() && Consistent(aA) && SnapshotsOf(snaps, aA, pA, lA)
    requires forall v :: KernelAgrees(aA, pA, m.areas, m.ptes, v)
    modifies m
    ensures m.Valid()
    ensures forall v :: BackIn(snaps, 0, aA, pA, old(m.areas), old(m.ptes), m.areas, m.ptes, v)
    ensures forall v :: LockIn(snaps, 0, lA, old(m.locked), m.locked, v)
    ensures (forall v :: InSome(snaps, v) || SamePage(aA, pA, old(m.areas), old(m.ptes), v)) ==>
      m.ptes == pA && forall v :: SamePage(aA, pA, m.areas, m.ptes, v)
    ensures (forall v: Vpn :: InSome(snaps, v) || (Boot.Covers(old(m.locked), v) <==> Boot.Covers(lA, v))) ==>
      Boot.SameCoverage(m.locked, lA)
  {
    ghost var aB, pB, lB := m.areas, m.ptes, m.locked;
    var k: nat := |snaps|;
    while k > 0
      invariant k <= |snaps| && m.Valid()
      invariant forall v :: KernelAgrees(aA, pA, m.areas, m.ptes, v)
      invariant forall v :: BackIn(snaps, k, aA, pA, aB, pB, m.areas, m.ptes, v)
      invariant forall v :: LockIn(snaps, k, lA, lB, m.locked, v)
    {
      k := k - 1;
      ghost var before, entries, locks := m.areas, m.ptes, m.locked;
      m.RestoreUserRange(snaps[k], aA, pA, lA);
      forall v
        ensures KernelAgrees(aA, pA, m.areas, m.ptes, v)
        ensures BackIn(snaps, k, aA, pA, aB, pB, m.areas, m.ptes, v)
      {
        assert KernelAgrees(aA, pA, before, entries, v) && BackIn(snaps, k + 1, aA, pA, aB, pB, before, entries, v);
        assert Back(snaps[k], aA, pA, before, entries, m.areas, m.ptes, v);
        BackStep(snaps, k, aA, pA, aB, pB, before, entries, m.areas, m.ptes, v);
      }
      forall v
        ensures LockIn(snaps, k, lA, lB, m.locked, v)
      {
        assert LockIn(snaps, k + 1, lA, lB, locks, v) && LockBack(snaps[k], lA, locks, m.locked, v);
        RestStep(snaps, k, v);
      }
    }
    RollbackExact(snaps, aA, pA, aB, pB, m.areas, m.ptes);
    LocksExact(snaps, lA, lB, m.locked);
  }

  ghost predicate BackIn(snaps: seq<Snapshot>, k: nat, aA: seq<MapArea>, pA: map<Vpn, Pte>,
                         aB: seq<MapArea>, pB: map<Vpn, Pte>, a: seq<MapArea>, p: map<Vpn, Pte>, v: Vpn) {
    if InRest(snaps, k, v) then SamePage(aA, pA, a, p, v) else SamePage(aB, pB, a, p, v)
  }

  ghost predicate LockIn(snaps: seq<Snapshot>, k: nat, lA: seq<Boot.Span>, lB: seq<Boot.Span>,
                         l: seq<Boot.Span>, v: Vpn) {
    Boot.Covers(l, v) <==> if InRest(snaps, k, v) then Boot.Covers(lA, v) else Boot.Covers(lB, v)
  }

  lemma RestStep(snaps: seq<Snapshot>, k: nat, v: Vpn)
    requires k < |snaps|
    ensures InRest(snaps, k, v) <==> InRest(snaps, k + 1, v) || snaps[k].start <= v < snaps[k].end
  {
  }

  lemma BackStep(snaps: seq<Snapshot>, k: nat, aA: seq<MapArea>, pA: map<Vpn, Pte>, aB: seq<MapArea>, pB: map<Vpn, Pte>,
                 a1: seq<MapArea>, p1: map<Vpn, Pte>, a: seq<MapArea>, p: map<Vpn, Pte>, v: Vpn)
    requires k < |snaps| && KernelAgrees(aA, pA, a1, p1, v)
    requires BackIn(snaps, k + 1, aA, pA, aB, pB, a1, p1, v) && Back(snaps[k], aA, pA, a1, p1, a, p, v)
    ensures KernelAgrees(aA, pA, a, p, v) && BackIn(snaps, k, aA, pA, aB, pB, a, p, v)
  {
    RestStep(snaps, k, v);
  }

  /** Pages unchanged outside the ranges and back inside them are all as they were. */
  lemma RollbackExact(snaps: seq<Snapshot>, aA: seq<MapArea>, pA: map<Vpn, Pte>, aB: seq<MapArea>, pB: map<Vpn, Pte>,
                      a: seq<MapArea>, p: map<Vpn, Pte>)
    requires forall v :: BackIn(snaps, 0, aA, pA, aB, pB, a, p, v)
    ensures (forall v :: InSome(snaps, v) || SamePage(aA, pA, aB, pB, v)) ==>
      p == pA && forall v :: SamePage(aA, pA, a, p, v)
  {
    if forall v :: InSome(snaps, v) || SamePage(aA, pA, aB, pB, v) {
      forall v
        ensures SamePage(aA, pA, a, p, v)
      {
        assert InSome(snaps, v) || SamePage(aA, pA, aB, pB, v);
        assert BackIn(snaps, 0, aA, pA, aB, pB, a, p, v);
      }
      SameEntries(aA, pA, a, p);
    }
  }

  lemma SameEntries(aA: seq<MapArea>, pA: map<Vpn, Pte>, a: seq<MapArea>, p: map<Vpn, Pte>)
    requires forall v :: SamePage(aA, pA, a, p, v)
    ensures p == pA
  {
    forall v
      ensures v in p <==> v in pA
      ensures v in p && v in pA ==> p[v] == pA[v]
    {
      if v in p || v in pA {
        assert SamePage(aA, pA, a, p, v);
      }
    }
  }

  lemma LocksExact(snaps: seq<Snapshot>, lA: seq<Boot.Span>, lB: seq<Boot.Span>, l: seq<Boot.Span>)
    requires forall v :: LockIn(snaps, 0, lA, lB, l, v)
    ensures (forall v: Vpn :: InSome(snaps, v) || (Boot.Covers(lB, v) <==> Boot.Covers(lA, v))) ==>
      Boot.SameCoverage(l, lA)
  {
    if forall v: Vpn :: InSome(snaps, v) || (Boot.Covers(lB, v) <==> Boot.Covers(lA, v)) {
      forall v: Vpn
        ensures Boot.Covers(l, v) <==> Boot.Covers(lA, v)
      {
        assert LockIn(snaps, 0, lA, lB, l, v);
        assert InSome(snaps, v) || (Boot.Covers(lB, v) <==> Boot.Covers(lA, v));
      }
    }
  }

  // ----- the frames of a snapshot -----

  /** Every frame a snapshot's areas track is held by a tracker of the snapshot's own. */
  ghost predicate ClonesHeld(fs: Frames.Sys, snap: Snapshot, clones: map<Vpn, nat>) {
    forall a, v :: a in snap.areas && v in a.frames ==>
      v in clones && clones[v] in fs.trackers && fs.trackers[clones[v]] == a.frames[v]
  }

  /** The cloned trackers pin the snapshot's frames: through any run of the frame allocator in
      which they are not dropped, no such frame is recycled or on its way back, so the entries
      mapped by the restore still name the frames of the snapshot. */
  lemma SnapshotPinsFrames(fs: Frames.Sys, events: seq<Frames.Event>, snap: Snapshot,
                           clones: map<Vpn, nat>, a: MapArea, v: Vpn)
    requires Frames.Inv(fs) && ClonesHeld(fs, snap, clones) && a in snap.areas && v in a.frames
    requires forall k :: 0 <= k < |events| ==> events[k] != Frames.Untrack(clones[v])
    ensures Frames.Run(fs, events).Next? && Pinned(Frames.Run(fs, events).s, a.frames[v])
  {
    Frames.TrackerPins(fs, events, clones[v]);
  }

  /** A counted frame that is neither free, nor handed out again, nor being returned. */
  ghost predicate Pinned(fs: Frames.Sys, f: Frame) {
    f in fs.counts && f !in fs.leaving && f !in fs.pool.recycledSet && f !in fs.arriving
  }
}
