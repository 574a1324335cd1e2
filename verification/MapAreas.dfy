/** Mapped areas of a user address space (src/mm/memory_set/map_area.rs) and the page view that
    unmapping, snapshot and rollback are stated on. */
module MapAreas {
  import opened CowFork

  datatype Option<+T> = None | Some(value: T)
  datatype MapType = Framed | Lazy | Identical

  /** `user` is the permission bit U, `perm` the other permission bits. */
  datatype MapArea = MapArea(
    start: Vpn, end: Vpn, mapType: MapType, user: bool, perm: nat,
    frames: map<Vpn, Frame>, saved: map<Vpn, Flags>)

  function Max(a: nat, b: nat): nat { if a >= b then a else b }
  function Min(a: nat, b: nat): nat { if a <= b then a else b }

  function Lookup<T>(m: map<Vpn, T>, v: Vpn): Option<T> { if v in m then Some(m[v]) else None }

  predicate Contains(a: MapArea, v: Vpn) { a.start <= v < a.end }
  predicate Overlaps(a: MapArea, s: Vpn, e: Vpn) { e > a.start && s < a.end }

  // ----- the page view -----

  /** All a page of an area shows: its permission, tracked frame, saved flags and entry. */
  datatype PageInfo = PageInfo(
    mapType: MapType, perm: nat, frame: Option<Frame>, saved: Option<Flags>, pte: Option<Pte>)

  function InfoOf(a: MapArea, ptes: map<Vpn, Pte>, v: Vpn): PageInfo {
    PageInfo(a.mapType, a.perm, Lookup(a.frames, v), Lookup(a.saved, v), Lookup(ptes, v))
  }

  function PageOne(a: MapArea, ptes: map<Vpn, Pte>, v: Vpn): set<PageInfo> {
    if a.user && Contains(a, v) then {InfoOf(a, ptes, v)} else {}
  }

  /** The user page at v: empty when no user area contains v. */
  function UserPage(areas: seq<MapArea>, ptes: map<Vpn, Pte>, v: Vpn): set<PageInfo> {
    if areas == [] then {} else UserPage(areas[..|areas| - 1], ptes, v) + PageOne(areas[|areas| - 1], ptes, v)
  }

  /** How many user areas, and how many kernel areas, contain a page. */
  function UserCount(areas: seq<MapArea>, v: Vpn): nat {
    if areas == [] then 0 else UserCount(areas[..|areas| - 1], v) + UserOne(areas[|areas| - 1], v)
  }

  function KernelCount(areas: seq<MapArea>, v: Vpn): nat {
    if areas == [] then 0 else KernelCount(areas[..|areas| - 1], v) + KernelOne(areas[|areas| - 1], v)
  }

  function UserOne(a: MapArea, v: Vpn): nat { if a.user && Contains(a, v) then 1 else 0 }
  function KernelOne(a: MapArea, v: Vpn): nat { if !a.user && Contains(a, v) then 1 else 0 }

  function CountAt(areas: seq<MapArea>, v: Vpn): nat { UserCount(areas, v) + KernelCount(areas, v) }

  /** No page lies in two areas. */
  ghost predicate Apart(areas: seq<MapArea>) {
    forall v :: CountAt(areas, v) <= 1
  }

  predicate Tidy(a: MapArea) { a.start <= a.end && (a.mapType.Identical? ==> a.frames == map[]) }

  /** Areas are well formed and do not overlap. Valid entries may lie outside all areas: user page
      tables of riscv64 share kernel entries that no area records. */
  ghost predicate Consistent(areas: seq<MapArea>) {
    Apart(areas) && AllTidy(areas)
  }

  // ----- split_around -----

  function Before<T>(m: map<Vpn, T>, v: Vpn): map<Vpn, T> { map k | k in m && k < v :: m[k] }
  function From<T>(m: map<Vpn, T>, v: Vpn): map<Vpn, T> { map k | k in m && k >= v :: m[k] }

  function Part(a: MapArea, s: Vpn, e: Vpn, frames: map<Vpn, Frame>, saved: map<Vpn, Flags>): MapArea {
    a.(start := s, end := e, frames := frames, saved := saved)
  }

  function FramesOf(a: MapArea): map<Vpn, Frame> { if a.mapType.Identical? then map[] else a.frames }

  /** The left rest, the middle [s, e) and the right rest of an area. */
  function SplitAround(a: MapArea, s: Vpn, e: Vpn): (Option<MapArea>, MapArea, Option<MapArea>) {
    var frames := FramesOf(a);
    ( if a.start < s then
        Some(Part(a, a.start, s, Before(Before(frames, e), s), Before(Before(a.saved, e), s)))
      else None,
      Part(a, s, e, From(Before(frames, e), s), From(Before(a.saved, e), s)),
      if e < a.end then Some(Part(a, e, a.end, From(frames, e), From(a.saved, e))) else None )
  }

  function ToSeq(o: Option<MapArea>): seq<MapArea> { match o case None => [] case Some(a) => [a] }

  /** What is left of an area once [s, e) is unmapped. */
  function UnmapOne(a: MapArea, s: Vpn, e: Vpn): seq<MapArea> {
    if !a.user || !Overlaps(a, s, e) then [a]
    else
      var (left, _, right) := SplitAround(a, Max(s, a.start), Min(e, a.end));
      ToSeq(left) + ToSeq(right)
  }

  function UnmapAreas(areas: seq<MapArea>, s: Vpn, e: Vpn): seq<MapArea> {
    if areas == [] then [] else UnmapAreas(areas[..|areas| - 1], s, e) + UnmapOne(areas[|areas| - 1], s, e)
  }

  /** The middles a snapshot of [s, e) keeps. */
  function KeepOne(a: MapArea, s: Vpn, e: Vpn): seq<MapArea> {
    if !a.user || !Overlaps(a, s, e) || Max(s, a.start) >= Min(e, a.end) then []
    else [SplitAround(a, Max(s, a.start), Min(e, a.end)).1]
  }

  function KeepAreas(areas: seq<MapArea>, s: Vpn, e: Vpn): seq<MapArea> {
    if areas == [] then [] else KeepAreas(areas[..|areas| - 1], s, e) + KeepOne(areas[|areas| - 1], s, e)
  }

  // ----- lists of areas -----

  predicate AllTidy(areas: seq<MapArea>) { forall a :: a in areas ==> Tidy(a) }

  lemma ListOne(a: MapArea, ptes: map<Vpn, Pte>, v: Vpn)
    ensures UserCount([a], v) == UserOne(a, v) && KernelCount([a], v) == KernelOne(a, v)
    ensures UserPage([a], ptes, v) == PageOne(a, ptes, v)
  {
    assert [a][..0] == [];
  }

  lemma {:induction false} ListJoin(xs: seq<MapArea>, ys: seq<MapArea>, ptes: map<Vpn, Pte>, v: Vpn)
    ensures UserCount(xs + ys, v) == UserCount(xs, v) + UserCount(ys, v)
    ensures KernelCount(xs + ys, v) == KernelCount(xs, v) + KernelCount(ys, v)
    ensures UserPage(xs + ys, ptes, v) == UserPage(xs, ptes, v) + UserPage(ys, ptes, v)
  {
    if ys == [] {
      assert xs + ys == xs;
    } else {
      ListJoin(xs, ys[..|ys| - 1], ptes, v);
      assert (xs + ys)[..|xs + ys| - 1] == xs + ys[..|ys| - 1];
    }
  }

  lemma {:induction false} HeldMeansPage(areas: seq<MapArea>, ptes: map<Vpn, Pte>, v: Vpn)
    ensures UserCount(areas, v) > 0 <==> UserPage(areas, ptes, v) != {}
  {
    if areas != [] {
      HeldMeansPage(areas[..|areas| - 1], ptes, v);
    }
  }

  /** Only the entry at v matters for the page at v. */
  lemma {:induction false} SameEntry(areas: seq<MapArea>, p: map<Vpn, Pte>, q: map<Vpn, Pte>, v: Vpn)
    requires Lookup(p, v) == Lookup(q, v)
    ensures UserPage(areas, p, v) == UserPage(areas, q, v)
  {
    if areas != [] {
      SameEntry(areas[..|areas| - 1], p, q, v);
    }
  }

  /** How often an area occurs in a list. */
  function Occurs(areas: seq<MapArea>, a: MapArea): nat {
    if areas == [] then 0 else Occurs(areas[..|areas| - 1], a) + if areas[|areas| - 1] == a then 1 else 0
  }

  lemma {:induction false} OccursJoin(xs: seq<MapArea>, ys: seq<MapArea>, a: MapArea)
    ensures Occurs(xs + ys, a) == Occurs(xs, a) + Occurs(ys, a)
  {
    if ys == [] {
      assert xs + ys == xs;
    } else {
      OccursJoin(xs, ys[..|ys| - 1], a);
      assert (xs + ys)[..|xs + ys| - 1] == xs + ys[..|ys| - 1];
    }
  }

  lemma OccursOne(b: MapArea, a: MapArea)
    ensures Occurs([b], a) == if b == a then 1 else 0
  {
    assert [b][..0] == [];
  }

  lemma {:induction false} OccursIn(areas: seq<MapArea>, a: MapArea)
    ensures Occurs(areas, a) > 0 <==> a in areas
  {
    if areas != [] {
      var n := |areas| - 1;
      OccursIn(areas[..n], a);
      assert areas == areas[..n] + [areas[n]];
    }
  }

  // ----- what unmapping and keeping leave -----

  /** The three parts of a split hold the area's pages on their side, unchanged. */
  lemma SplitMeaning(a: MapArea, x: Vpn, y: Vpn, ptes: map<Vpn, Pte>, v: Vpn)
    requires Tidy(a) && a.start <= x <= y <= a.end
    ensures
      var (left, mid, right) := SplitAround(a, x, y);
      && Tidy(mid) && Contains(mid, v) == (x <= v < y)
      && PageOne(mid, ptes, v) == (if x <= v < y then PageOne(a, ptes, v) else {})
      && (left.None? ==> !(Contains(a, v) && v < x)) && (right.None? ==> !(Contains(a, v) && v >= y))
      && (left.Some? ==> Tidy(left.value) && Contains(left.value, v) == (Contains(a, v) && v < x))
      && (left.Some? ==> PageOne(left.value, ptes, v) == if v < x then PageOne(a, ptes, v) else {})
      && (right.Some? ==> Tidy(right.value) && Contains(right.value, v) == (Contains(a, v) && v >= y))
      && (right.Some? ==> PageOne(right.value, ptes, v) == if v >= y then PageOne(a, ptes, v) else {})
  {
  }

  lemma ListOption(o: Option<MapArea>, ptes: map<Vpn, Pte>, v: Vpn)
    ensures UserCount(ToSeq(o), v) == if o.Some? then UserOne(o.value, v) else 0
    ensures KernelCount(ToSeq(o), v) == if o.Some? then KernelOne(o.value, v) else 0
    ensures UserPage(ToSeq(o), ptes, v) == if o.Some? then PageOne(o.value, ptes, v) else {}
  {
    if o.Some? {
      ListOne(o.value, ptes, v);
    }
  }

  /** The pieces left by unmapping hold the area's pages outside [s, e), unchanged. */
  lemma UnmapOneMeaning(a: MapArea, s: Vpn, e: Vpn, ptes: map<Vpn, Pte>, v: Vpn)
    requires Tidy(a) && s < e
    ensures UserPage(UnmapOne(a, s, e), ptes, v) == if s <= v < e then {} else PageOne(a, ptes, v)
    ensures UserCount(UnmapOne(a, s, e), v) == if s <= v < e then 0 else UserOne(a, v)
    ensures KernelCount(UnmapOne(a, s, e), v) == KernelOne(a, v)
    ensures AllTidy(UnmapOne(a, s, e))
  {
    if !a.user || !Overlaps(a, s, e) {
      ListOne(a, ptes, v);
    } else {
      var x, y := Max(s, a.start), Min(e, a.end);
      var (left, _, right) := SplitAround(a, x, y);
      SplitMeaning(a, x, y, ptes, v);
      ListJoin(ToSeq(left), ToSeq(right), ptes, v);
      ListOption(left, ptes, v);
      ListOption(right, ptes, v);
    }
  }

  /** The kept middle holds the area's pages inside [s, e), unchanged. */
  lemma KeepOneMeaning(a: MapArea, s: Vpn, e: Vpn, ptes: map<Vpn, Pte>, v: Vpn)
    requires Tidy(a)
    ensures UserPage(KeepOne(a, s, e), ptes, v) == if s <= v < e then PageOne(a, ptes, v) else {}
    ensures UserCount(KeepOne(a, s, e), v) == if s <= v < e then UserOne(a, v) else 0
    ensures KernelCount(KeepOne(a, s, e), v) == 0
    ensures AllTidy(KeepOne(a, s, e))
  {
    if KeepOne(a, s, e) != [] {
      ListOne(KeepOne(a, s, e)[0], ptes, v);
    }
  }

  lemma {:induction false} UnmapMeaning(areas: seq<MapArea>, s: Vpn, e: Vpn, ptes: map<Vpn, Pte>, v: Vpn)
    requires AllTidy(areas) && s < e
    ensures UserPage(UnmapAreas(areas, s, e), ptes, v) == if s <= v < e then {} else UserPage(areas, ptes, v)
    ensures UserCount(UnmapAreas(areas, s, e), v) == if s <= v < e then 0 else UserCount(areas, v)
    ensures KernelCount(UnmapAreas(areas, s, e), v) == KernelCount(areas, v)
    ensures AllTidy(UnmapAreas(areas, s, e))
  {
    if areas != [] {
      var n := |areas| - 1;
      UnmapMeaning(areas[..n], s, e, ptes, v);
      UnmapOneMeaning(areas[n], s, e, ptes, v);
      ListJoin(UnmapAreas(areas[..n], s, e), UnmapOne(areas[n], s, e), ptes, v);
    }
  }

  lemma {:induction false} KeepMeaning(areas: seq<MapArea>, s: Vpn, e: Vpn, ptes: map<Vpn, Pte>, v: Vpn)
    requires AllTidy(areas)
    ensures UserPage(KeepAreas(areas, s, e), ptes, v) == if s <= v < e then UserPage(areas, ptes, v) else {}
    ensures UserCount(KeepAreas(areas, s, e), v) == if s <= v < e then UserCount(areas, v) else 0
    ensures KernelCount(KeepAreas(areas, s, e), v) == 0
    ensures AllTidy(KeepAreas(areas, s, e))
  {
    if areas != [] {
      var n := |areas| - 1;
      KeepMeaning(areas[..n], s, e, ptes, v);
      KeepOneMeaning(areas[n], s, e, ptes, v);
      ListJoin(KeepAreas(areas[..n], s, e), KeepOne(areas[n], s, e), ptes, v);
    }
  }

  lemma UnmapOneKernel(b: MapArea, s: Vpn, e: Vpn, a: MapArea)
    requires !a.user
    ensures Occurs(UnmapOne(b, s, e), a) == (if b == a then 1 else 0) && Occurs(KeepOne(b, s, e), a) == 0
  {
    OccursOne(b, a);
    if b.user && Overlaps(b, s, e) {
      var (left, mid, right) := SplitAround(b, Max(s, b.start), Min(e, b.end));
      OccursJoin(ToSeq(left), ToSeq(right), a);
      OccursOne(mid, a);
      if left.Some? {
        OccursOne(left.value, a);
      }
      if right.Some? {
        OccursOne(right.value, a);
      }
    }
  }

  /** Kernel areas are left alone. */
  lemma {:induction false} UnmapKeepsKernel(areas: seq<MapArea>, s: Vpn, e: Vpn, a: MapArea)
    requires !a.user
    ensures Occurs(UnmapAreas(areas, s, e), a) == Occurs(areas, a) && Occurs(KeepAreas(areas, s, e), a) == 0
  {
    if areas != [] {
      var n := |areas| - 1;
      UnmapKeepsKernel(areas[..n], s, e, a);
      UnmapOneKernel(areas[n], s, e, a);
      OccursJoin(UnmapAreas(areas[..n], s, e), UnmapOne(areas[n], s, e), a);
      OccursJoin(KeepAreas(areas[..n], s, e), KeepOne(areas[n], s, e), a);
    }
  }

  // ----- sorting -----

  function Insert(areas: seq<MapArea>, a: MapArea): seq<MapArea> {
    if areas == [] || areas[|areas| - 1].start <= a.start then areas + [a]
    else Insert(areas[..|areas| - 1], a) + [areas[|areas| - 1]]
  }

  function Sorted(areas: seq<MapArea>): seq<MapArea> {
    if areas == [] then [] else Insert(Sorted(areas[..|areas| - 1]), areas[|areas| - 1])
  }

  lemma SwapUnion(x: set<PageInfo>, y: set<PageInfo>, z: set<PageInfo>)
    ensures x + y + z == x + z + y
  {
  }

  lemma {:induction false} InsertPage(areas: seq<MapArea>, a: MapArea, ptes: map<Vpn, Pte>, v: Vpn)
    ensures UserCount(Insert(areas, a), v) == UserCount(areas, v) + UserOne(a, v)
    ensures KernelCount(Insert(areas, a), v) == KernelCount(areas, v) + KernelOne(a, v)
    ensures UserPage(Insert(areas, a), ptes, v) == UserPage(areas, ptes, v) + PageOne(a, ptes, v)
  {
    if areas == [] || areas[|areas| - 1].start <= a.start {
      assert (areas + [a])[..|areas|] == areas;
    } else {
      var n := |areas| - 1;
      InsertPage(areas[..n], a, ptes, v);
      var rest := Insert(areas[..n], a);
      assert (rest + [areas[n]])[..|rest|] == rest;
      SwapUnion(UserPage(areas[..n], ptes, v), PageOne(a, ptes, v), PageOne(areas[n], ptes, v));
    }
  }

  /** Sorting changes nothing a page shows. */
  lemma {:induction false} SortPage(areas: seq<MapArea>, ptes: map<Vpn, Pte>, v: Vpn)
    ensures UserCount(Sorted(areas), v) == UserCount(areas, v)
    ensures KernelCount(Sorted(areas), v) == KernelCount(areas, v)
    ensures UserPage(Sorted(areas), ptes, v) == UserPage(areas, ptes, v)
  {
    if areas != [] {
      var n := |areas| - 1;
      SortPage(areas[..n], ptes, v);
      InsertPage(Sorted(areas[..n]), areas[n], ptes, v);
    }
  }

  lemma {:induction false} InsertOccurs(areas: seq<MapArea>, b: MapArea, a: MapArea)
    ensures Occurs(Insert(areas, b), a) == Occurs(areas, a) + if b == a then 1 else 0
  {
    if areas == [] || areas[|areas| - 1].start <= b.start {
      OccursOne(b, a);
      OccursJoin(areas, [b], a);
    } else {
      var n := |areas| - 1;
      InsertOccurs(areas[..n], b, a);
      OccursOne(areas[n], a);
      OccursJoin(Insert(areas[..n], b), [areas[n]], a);
    }
  }

  /** Sorting is a permutation. */
  lemma {:induction false} SortOccurs(areas: seq<MapArea>, a: MapArea)
    ensures Occurs(Sorted(areas), a) == Occurs(areas, a)
  {
    if areas != [] {
      var n := |areas| - 1;
      SortOccurs(areas[..n], a);
      InsertOccurs(Sorted(areas[..n]), areas[n], a);
    }
  }

  predicate EndsBy(areas: seq<MapArea>, start: Vpn) { areas == [] || areas[|areas| - 1].start <= start }

  /** In order of start. */
  predicate Ordered(areas: seq<MapArea>) {
    areas == [] || (Ordered(areas[..|areas| - 1]) && EndsBy(areas[..|areas| - 1], areas[|areas| - 1].start))
  }

  lemma {:induction false} InsertOrders(areas: seq<MapArea>, a: MapArea)
    requires Ordered(areas)
    ensures Ordered(Insert(areas, a))
    ensures forall k :: EndsBy(areas, k) && a.start <= k ==> EndsBy(Insert(areas, a), k)
  {
    if areas == [] || areas[|areas| - 1].start <= a.start {
      assert (areas + [a])[..|areas|] == areas;
    } else {
      var n := |areas| - 1;
      InsertOrders(areas[..n], a);
      var rest := Insert(areas[..n], a);
      assert (rest + [areas[n]])[..|rest|] == rest;
    }
  }

  lemma {:induction false} SortOrders(areas: seq<MapArea>)
    ensures Ordered(Sorted(areas))
  {
    if areas != [] {
      SortOrders(areas[..|areas| - 1]);
      InsertOrders(Sorted(areas[..|areas| - 1]), areas[|areas| - 1]);
    }
  }

  lemma SortTidy(areas: seq<MapArea>)
    requires AllTidy(areas)
    ensures AllTidy(Sorted(areas))
  {
    forall a | a in Sorted(areas)
      ensures Tidy(a)
    {
      OccursIn(Sorted(areas), a);
      SortOccurs(areas, a);
      OccursIn(areas, a);
    }
  }
}
