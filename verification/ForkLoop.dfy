/** The loop of from_existed_user_cow (src/mm/memory_set.rs) over the areas and tracked frames of
    the parent, proved to perform the fork of module CowFork. */
module ForkLoop {
  import opened CowFork
  import opened MapAreas
  import opened MemorySets

  /** Physical memory and the frames the allocator has left to hand out. */
  class PhysMemory {
    var bytes: map<Frame, Page>
    var free: seq<Frame>

    method FrameAlloc() returns (f: Option<Frame>)
      modifies this`free
      ensures if old(free) == [] then f == None && free == []
              else f == Some(old(free)[|old(free)| - 1]) && free == old(free)[..|old(free)| - 1]
    {
      if free == [] {
        return None;
      }
      f := Some(free[|free| - 1]);
      free := free[..|free| - 1];
    }
  }

  /** The frames a list of areas tracks. */
  function Held(areas: seq<MapArea>): map<Vpn, Frame> {
    if areas == [] then map[] else Held(areas[..|areas| - 1]) + areas[|areas| - 1].frames
  }

  /** The area without the frames it tracks and the flags it has saved. */
  function Layout(a: MapArea): MapArea { a.(frames := map[], saved := map[]) }

  predicate SameLayout(a: seq<MapArea>, b: seq<MapArea>) {
    |a| == |b| && forall i :: 0 <= i < |a| ==> Layout(a[i]) == Layout(b[i])
  }

  lemma {:induction false} LayoutCounts(a: seq<MapArea>, b: seq<MapArea>, v: Vpn)
    requires SameLayout(a, b)
    ensures CountAt(a, v) == CountAt(b, v)
  {
    if a != [] {
      var n := |a| - 1;
      LayoutCounts(a[..n], b[..n], v);
      assert Layout(a[n]) == Layout(b[n]);
      assert Contains(a[n], v) == Contains(Layout(a[n]), v) && Contains(b[n], v) == Contains(Layout(b[n]), v);
      assert a[n].user == Layout(a[n]).user && b[n].user == Layout(b[n]).user;
    }
  }

  predicate TrackedOnce(areas: seq<MapArea>) {
    forall i, j :: 0 <= i < j < |areas| ==> areas[i].frames.Keys !! areas[j].frames.Keys
  }

  ghost function View(m: MemorySet): Space
    reads m
  {
    Space(m.ptes, Held(m.areas))
  }

  /** Every valid entry names the frame its area tracks, and that frame has contents. */
  ghost predicate Resident(s: Space, mem: map<Frame, Page>) {
    forall v :: v in s.ptes ==> v in s.held && s.held[v] == s.ptes[v].frame && s.ptes[v].frame in mem
  }

  ghost predicate FreshSupply(s: Space, free: seq<Frame>) {
    && (forall i, j :: 0 <= i < j < |free| ==> free[i] != free[j])
    && (forall v :: v in s.held ==> s.held[v] !in free)
  }

  // ----- how far the loop has come -----

  /** Frames handed out so far: one for each visited kernel-only page while the supply lasts. */
  ghost predicate Supplied(s: Space, free0: seq<Frame>, done: set<Vpn>, news: map<Vpn, Frame>, free: seq<Frame>) {
    && free <= free0 && |free| + |news| == |free0|
    && news.Keys <= KernelOnly(s) && news.Keys <= done
    && (forall v :: v in news ==> news[v] in free0 && news[v] !in free)
    && (forall v, w :: v in news && w in news && v != w ==> news[v] != news[w])
    && (free == [] || forall v :: v in KernelOnly(s) && v in done ==> v in news)
  }

  /** The loop after the pages `done`: the parent's entries, the child, memory and the supply. */
  datatype Loop = Loop(s: Space, mem0: map<Frame, Page>, free0: seq<Frame>, done: set<Vpn>, news: map<Vpn, Frame>,
                       ptes: map<Vpn, Pte>, child: Space, mem: map<Frame, Page>, free: seq<Frame>)

  ghost predicate Halfway(l: Loop) {
    && Resident(l.s, l.mem0) && FreshSupply(l.s, l.free0)
    && l.ptes == ParentTo(l.s, l.done).ptes
    && l.child == ChildTo(l.s, l.done, l.news)
    && ForkMemory(l.mem0, l.mem, l.s, l.news)
    && Supplied(l.s, l.free0, l.done, l.news, l.free)
  }

  predicate Look(k: nat) { k == 0 }

  /** Halfway, opened only where Look is mentioned. */
  ghost predicate Progress(l: Loop) {
    forall k {:trigger Look(k)} :: Look(k) ==> Halfway(l)
  }

  lemma Open(l: Loop)
    ensures Progress(l) <==> Halfway(l)
  {
    assert Look(0);
  }

  lemma Begin(s: Space, mem: map<Frame, Page>, free: seq<Frame>)
    requires Resident(s, mem) && FreshSupply(s, free)
    ensures Progress(Loop(s, mem, free, {}, map[], s.ptes, Space(map[], map[]), mem, free))
  {
    Open(Loop(s, mem, free, {}, map[], s.ptes, Space(map[], map[]), mem, free));
  }

  /** A page not yet visited is still the parent's own, and the child has nothing there. */
  lemma Unvisited(l: Loop, v: Vpn)
    requires Progress(l) && v !in l.done
    ensures Lookup(l.ptes, v) == Lookup(l.s.ptes, v) && v !in l.child.ptes
    ensures v in l.s.ptes ==> v in l.s.held && l.s.held[v] == l.s.ptes[v].frame
  {
    Open(l);
  }

  lemma ParentStep(s: Space, done: set<Vpn>, v: Vpn)
    ensures ParentTo(s, done + {v}).ptes ==
            if v in s.ptes then ParentTo(s, done).ptes[v := ParentPte(s.ptes[v])] else ParentTo(s, done).ptes
  {
  }

  /** A kernel-only page keeps its flags in the parent. */
  lemma ParentKernel(s: Space, done: set<Vpn>, v: Vpn)
    requires v in s.ptes && !s.ptes[v].flags.u
    ensures ParentTo(s, done + {v}).ptes == ParentTo(s, done).ptes
  {
  }

  lemma ChildSkips(s: Space, done: set<Vpn>, news: map<Vpn, Frame>, v: Vpn)
    requires !Given(s, {v}, news, v)
    ensures ChildTo(s, done + {v}, news) == ChildTo(s, done, news)
  {
    assert ChildTo(s, done + {v}, news).ptes == ChildTo(s, done, news).ptes;
    assert ChildTo(s, done + {v}, news).held == ChildTo(s, done, news).held;
  }

  lemma ShareAt(s: Space, done: set<Vpn>, news: map<Vpn, Frame>, v: Vpn, w: Vpn)
    requires v in s.ptes && s.ptes[v].flags.u && w in s.ptes
    ensures Given(s, done + {v}, news, w) <==> w == v || Given(s, done, news, w)
    ensures w == v ==>
      ChildPte(s.ptes[w], w, news) == ParentPte(s.ptes[v]) && ParentPte(s.ptes[v]).frame == s.ptes[v].frame
  {
  }

  lemma ChildShares(s: Space, done: set<Vpn>, news: map<Vpn, Frame>, v: Vpn)
    requires v in s.ptes && s.ptes[v].flags.u
    ensures ChildTo(s, done + {v}, news) == SetPage(ChildTo(s, done, news), v, ParentPte(s.ptes[v]))
  {
    var after, before := ChildTo(s, done + {v}, news), SetPage(ChildTo(s, done, news), v, ParentPte(s.ptes[v]));
    forall w | w in s.ptes
      ensures w in after.ptes <==> w in before.ptes
      ensures w in after.ptes ==> after.ptes[w] == before.ptes[w] && after.held[w] == before.held[w]
    {
      ShareAt(s, done, news, v, w);
    }
    assert after.ptes == before.ptes;
    assert after.held == before.held;
  }

  lemma CopyAt(s: Space, done: set<Vpn>, news: map<Vpn, Frame>, v: Vpn, f: Frame, w: Vpn)
    requires v in s.ptes && !s.ptes[v].flags.u && v !in done && w in s.ptes
    ensures Given(s, done + {v}, news[v := f], w) <==> w == v || Given(s, done, news, w)
    ensures ChildPte(s.ptes[w], w, news[v := f]) ==
      (if w == v then s.ptes[v].(frame := f) else ChildPte(s.ptes[w], w, news))
  {
  }

  lemma ChildCopies(s: Space, done: set<Vpn>, news: map<Vpn, Frame>, v: Vpn, f: Frame)
    requires v in s.ptes && !s.ptes[v].flags.u && v !in done
    ensures ChildTo(s, done + {v}, news[v := f]) == SetPage(ChildTo(s, done, news), v, s.ptes[v].(frame := f))
  {
    var more, grown := news[v := f], done + {v};
    var after, before := ChildTo(s, grown, more), SetPage(ChildTo(s, done, news), v, s.ptes[v].(frame := f));
    forall w | w in s.ptes
      ensures w in after.ptes <==> w in before.ptes
      ensures w in after.ptes ==> after.ptes[w] == before.ptes[w] && after.held[w] == before.held[w]
    {
      CopyAt(s, done, news, v, f, w);
    }
    assert after.ptes == before.ptes;
    assert after.held == before.held;
  }

  lemma SupplyNone(s: Space, free0: seq<Frame>, done: set<Vpn>, news: map<Vpn, Frame>, free: seq<Frame>, v: Vpn)
    requires Supplied(s, free0, done, news, free) && (v !in KernelOnly(s) || free == [])
    ensures Supplied(s, free0, done + {v}, news, free)
  {
  }

  function Visit(l: Loop, v: Vpn): Loop { l.(done := l.done + {v}) }

  /** A page without a valid entry, or a kernel-only page for which no frame is left. */
  lemma Skip(l: Loop, v: Vpn)
    requires Progress(l) && v !in l.done && (v !in l.s.ptes || (!l.s.ptes[v].flags.u && l.free == []))
    ensures Progress(Visit(l, v))
  {
    Open(l);
    Open(Visit(l, v));
    if v in l.s.ptes {
      ParentKernel(l.s, l.done, v);
    } else {
      ParentStep(l.s, l.done, v);
    }
    ChildSkips(l.s, l.done, l.news, v);
    SupplyNone(l.s, l.free0, l.done, l.news, l.free, v);
  }

  function Share(l: Loop, v: Vpn, pte: Pte): Loop {
    Visit(l, v).(ptes := l.ptes[v := pte], child := SetPage(l.child, v, pte))
  }

  lemma ShareUser(l: Loop, v: Vpn)
    requires Progress(l) && v !in l.done && v in l.s.ptes && l.s.ptes[v].flags.u
    ensures Progress(Share(l, v, ParentPte(l.s.ptes[v])))
  {
    Open(l);
    Open(Share(l, v, ParentPte(l.s.ptes[v])));
    ParentStep(l.s, l.done, v);
    ChildShares(l.s, l.done, l.news, v);
    SupplyNone(l.s, l.free0, l.done, l.news, l.free, v);
  }

  function Copy(l: Loop, v: Vpn, pte: Pte): Loop
    requires l.free != [] && pte.frame in l.mem
  {
    var f := l.free[|l.free| - 1];
    Visit(l, v).(news := l.news[v := f], child := SetPage(l.child, v, pte.(frame := f)),
      mem := l.mem[f := l.mem[pte.frame]], free := l.free[..|l.free| - 1])
  }

  lemma CopyMaps(l: Loop, v: Vpn)
    requires Progress(l) && v !in l.done && v in l.s.ptes && !l.s.ptes[v].flags.u && l.free != []
    ensures l.ptes == ParentTo(l.s, l.done + {v}).ptes
    ensures
      var f := l.free[|l.free| - 1];
      ChildTo(l.s, l.done + {v}, l.news[v := f]) == SetPage(l.child, v, l.s.ptes[v].(frame := f))
  {
    Open(l);
    ParentKernel(l.s, l.done, v);
    ChildCopies(l.s, l.done, l.news, v, l.free[|l.free| - 1]);
  }

  lemma CopyMemory(l: Loop, v: Vpn)
    requires Progress(l) && v !in l.done && v in l.s.ptes && !l.s.ptes[v].flags.u && l.free != []
    ensures l.s.ptes[v].frame in l.mem && Resident(l.s, l.mem0) && FreshSupply(l.s, l.free0)
    ensures var f := l.free[|l.free| - 1]; ForkMemory(l.mem0, l.mem[f := l.mem[l.s.ptes[v].frame]], l.s, l.news[v := f])
  {
    Open(l);
    CopyOne(l.s, l.mem0, l.free0, l.news, l.mem, l.free, v);
  }

  lemma CopySupply(l: Loop, v: Vpn)
    requires Progress(l) && v !in l.done && v in l.s.ptes && !l.s.ptes[v].flags.u && l.free != []
    ensures Supplied(l.s, l.free0, l.done + {v}, l.news[v := l.free[|l.free| - 1]], l.free[..|l.free| - 1])
  {
    Open(l);
    SupplyOne(l.s, l.free0, l.done, l.news, l.free, v);
  }

  lemma CopyKernel(l: Loop, v: Vpn)
    requires Progress(l) && v !in l.done && v in l.s.ptes && !l.s.ptes[v].flags.u && l.free != []
    ensures l.s.ptes[v].frame in l.mem && Progress(Copy(l, v, l.s.ptes[v]))
  {
    CopyMaps(l, v);
    CopyMemory(l, v);
    CopySupply(l, v);
    Open(Copy(l, v, l.s.ptes[v]));
  }

  lemma SupplyOne(s: Space, free0: seq<Frame>, done: set<Vpn>, news: map<Vpn, Frame>, free: seq<Frame>, v: Vpn)
    requires Supplied(s, free0, done, news, free) && v !in done && v in KernelOnly(s) && free != []
    requires forall i, j :: 0 <= i < j < |free0| ==> free0[i] != free0[j]
    ensures Supplied(s, free0, done + {v}, news[v := free[|free| - 1]], free[..|free| - 1])
  {
    var n := |free| - 1;
    assert free[n] == free0[n];
    assert free[..n] <= free0;
    assert free[n] !in free[..n];
  }

  lemma CopyOne(s: Space, mem0: map<Frame, Page>, free0: seq<Frame>, news: map<Vpn, Frame>,
                mem: map<Frame, Page>, free: seq<Frame>, v: Vpn)
    requires ForkMemory(mem0, mem, s, news) && Resident(s, mem0) && FreshSupply(s, free0)
    requires free <= free0 && free != [] && v in s.ptes && v !in news
    requires forall w :: w in news ==> news[w] in free0 && news[w] !in free
    ensures s.ptes[v].frame in mem
    ensures ForkMemory(mem0, mem[free[|free| - 1] := mem[s.ptes[v].frame]], s, news[v := free[|free| - 1]])
  {
    var f, src := free[|free| - 1], s.ptes[v].frame;
    assert !IsFresh(news, src);
    var more, after := news[v := f], mem[f := mem[src]];
    assert more[v] == f;
    forall g | g in mem0 && !IsFresh(more, g)
      ensures g in after && after[g] == mem0[g]
    {
      assert !IsFresh(news, g) by {
        forall w | w in news
          ensures news[w] != g
        {
          assert w in more && (w == v || more[w] == news[w]);
        }
      }
    }
  }

  /** Once every tracked page has been visited, the fork is complete. */
  lemma Finish(l: Loop)
    requires Progress(l) && l.s.ptes.Keys <= l.done
    ensures l.ptes == ForkParent(l.s).ptes && l.child == ForkChild(l.s, l.news)
      && ForkMemory(l.mem0, l.mem, l.s, l.news)
    ensures |l.free0| >= |KernelOnly(l.s)| ==> l.news.Keys == KernelOnly(l.s)
    ensures forall v :: v in l.news ==> l.news[v] in l.free0
    ensures forall v, w :: v in l.news && w in l.news && v != w ==> l.news[v] != l.news[w]
  {
    Open(l);
    WholeFork(l.s, l.done, l.news);
    if l.free == [] && |l.free0| >= |KernelOnly(l.s)| {
      SubsetFull(l.news.Keys, KernelOnly(l.s));
    }
  }

  lemma WholeFork(s: Space, done: set<Vpn>, news: map<Vpn, Frame>)
    requires s.ptes.Keys <= done
    ensures ForkParent(s).ptes == ParentTo(s, done).ptes && ForkChild(s, news) == ChildTo(s, done, news)
  {
    assert ForkParent(s).ptes == ParentTo(s, done).ptes;
    assert ForkChild(s, news).ptes == ChildTo(s, done, news).ptes;
    assert ForkChild(s, news).held == ChildTo(s, done, news).held;
  }

  lemma {:induction false} SubsetFull(a: set<Vpn>, b: set<Vpn>)
    requires a <= b && |a| >= |b|
    ensures a == b
  {
    if x :| x in b && x !in a {
      SubsetSize(a, b - {x});
    }
  }

  lemma {:induction false} SubsetSize(a: set<Vpn>, b: set<Vpn>)
    requires a <= b
    ensures |a| <= |b|
    decreases b
  {
    if b != {} {
      var x :| x in b;
      SubsetSize(a - {x}, b - {x});
    }
  }

  // ----- the loop -----

  /** The loop record names the actual state. */
  ghost predicate Tracks(l: Loop, ptes: map<Vpn, Pte>, child: map<Vpn, Pte>,
                         held: map<Vpn, Frame>, mem: map<Frame, Page>, free: seq<Frame>) {
    l.ptes == ptes && l.child == Space(child, held) && l.mem == mem && l.free == free
  }

  /** Two points of one loop. */
  ghost predicate Same(l: Loop, m: Loop) {
    m.s == l.s && m.mem0 == l.mem0 && m.free0 == l.free0
  }

  /** One tracked page of the parent. The child so far has the entries `ptes` and tracks `held`;
      the result says which frame it tracks at v from now on, if any. */
  method ForkPage(parent: MemorySet, phys: PhysMemory, ptes: map<Vpn, Pte>, v: Vpn, tracked: Frame,
                  ghost held: map<Vpn, Frame>, ghost l: Loop)
    returns (ptes': map<Vpn, Pte>, got: Option<Frame>, ghost l': Loop)
    requires v in l.s.held && l.s.held[v] == tracked && v !in l.done
    requires Progress(l) && Tracks(l, parent.ptes, ptes, held, phys.bytes, phys.free)
    modifies parent`ptes, phys
    ensures Progress(l') && l'.done == l.done + {v} && Same(l, l')
    ensures Tracks(l', parent.ptes, ptes', if got.Some? then held[v := got.value] else held, phys.bytes, phys.free)
  {
    Unvisited(l, v);
    ptes', got, l' := ptes, None, Visit(l, v);
    if v !in parent.ptes {
      Skip(l, v);
      return;
    }
    var src := parent.ptes[v];
    if !src.flags.u {
      if phys.free == [] {
        Skip(l, v);
        return;
      }
      CopyKernel(l, v);
      l' := Copy(l, v, src);
      got := phys.FrameAlloc();
      phys.bytes := phys.bytes[got.value := phys.bytes[src.frame]];
      ptes' := ptes[v := src.(frame := got.value)];
      return;
    }
    ShareUser(l, v);
    l' := Share(l, v, ParentPte(src));
    ptes' := DemoteAndShare(parent, ptes, v, src);
    got := Some(tracked);
  }

  /** Drop W and D and set COW in the parent where needed, then map the same entry in the child. */
  method DemoteAndShare(parent: MemorySet, ptes: map<Vpn, Pte>, v: Vpn, src: Pte) returns (ptes': map<Vpn, Pte>)
    requires v in parent.ptes && parent.ptes[v] == src && src.flags.u
    modifies parent`ptes
    ensures parent.ptes == old(parent.ptes)[v := ParentPte(src)] && ptes' == ptes[v := ParentPte(src)]
    ensures Granted(ptes'[v].flags) == Granted(src.flags) && (ptes'[v].flags.shared || !Writable(ptes'[v].flags))
  {
    var flags := src.flags;
    if Writable(flags) && !flags.shared {
      flags := flags.(w := false, d := false, cow := true);
      parent.ptes := parent.ptes[v := src.(flags := flags)];
    } else {
      assert parent.ptes[v := ParentPte(src)] == parent.ptes;
    }
    ptes' := ptes[v := src.(flags := flags)];
  }

  lemma NextDone(done: set<Vpn>, keys: set<Vpn>, rest: set<Vpn>, v: Vpn)
    requires v in rest && rest <= keys
    ensures done + (keys - rest) + {v} == done + (keys - (rest - {v}))
  {
  }

  lemma MergeUpdate(before: map<Vpn, Frame>, frames: map<Vpn, Frame>, v: Vpn, f: Frame)
    ensures before + frames[v := f] == (before + frames)[v := f]
  {
  }

  lemma UpdateUnder(before: map<Vpn, Frame>, frames: map<Vpn, Frame>, v: Vpn, f: Frame)
    requires v !in frames
    ensures before[v := f] + frames == (before + frames)[v := f]
  {
  }

  /** All tracked pages of one area. */
  method ForkArea(parent: MemorySet, phys: PhysMemory, ptes: map<Vpn, Pte>, area: MapArea,
                  ghost before: map<Vpn, Frame>, ghost l: Loop)
    returns (ptes': map<Vpn, Pte>, frames: map<Vpn, Frame>, ghost l': Loop)
    requires forall v :: v in area.frames ==> v in l.s.held && l.s.held[v] == area.frames[v] && v !in l.done
    requires Progress(l) && Tracks(l, parent.ptes, ptes, before, phys.bytes, phys.free)
    modifies parent`ptes, phys
    ensures Progress(l') && Tracks(l', parent.ptes, ptes', before + frames, phys.bytes, phys.free)
    ensures l'.done == l.done + area.frames.Keys && Same(l, l')
  {
    ptes', frames, l' := ptes, map[], l;
    var rest := area.frames.Keys;
    assert before + frames == before;
    while rest != {}
      invariant rest <= area.frames.Keys && l'.done == l.done + (area.frames.Keys - rest) && Same(l, l')
      invariant Progress(l') && Tracks(l', parent.ptes, ptes', before + frames, phys.bytes, phys.free)
      decreases rest
    {
      var v :| v in rest;
      NextDone(l.done, area.frames.Keys, rest, v);
      ptes', frames, l' := ForkTracked(parent, phys, ptes', frames, v, area.frames[v], before, l');
      rest := rest - {v};
    }
  }

  /** One tracked page, recorded among the frames of the child's current area. */
  method ForkTracked(parent: MemorySet, phys: PhysMemory, ptes: map<Vpn, Pte>,
                     frames: map<Vpn, Frame>, v: Vpn, tracked: Frame,
                     ghost before: map<Vpn, Frame>, ghost l: Loop)
    returns (ptes': map<Vpn, Pte>, frames': map<Vpn, Frame>, ghost l': Loop)
    requires v in l.s.held && l.s.held[v] == tracked && v !in l.done
    requires Progress(l) && Tracks(l, parent.ptes, ptes, before + frames, phys.bytes, phys.free)
    modifies parent`ptes, phys
    ensures Progress(l') && l'.done == l.done + {v} && Same(l, l')
    ensures Tracks(l', parent.ptes, ptes', before + frames', phys.bytes, phys.free)
  {
    var got;
    ptes', got, l' := ForkPage(parent, phys, ptes, v, tracked, before + frames, l);
    frames' := frames;
    if got.Some? {
      MergeUpdate(before, frames, v, got.value);
      frames' := frames[v := got.value];
    }
  }

  /** The pages tracked by the first k areas. */
  function TrackedTo(areas: seq<MapArea>, k: nat): set<Vpn>
    requires k <= |areas|
  {
    if k == 0 then {} else TrackedTo(areas, k - 1) + areas[k - 1].frames.Keys
  }

  lemma {:induction false} TrackedMeaning(areas: seq<MapArea>, k: nat, v: Vpn)
    requires k <= |areas|
    ensures v in TrackedTo(areas, k) <==> exists i :: 0 <= i < k && v in areas[i].frames
    ensures v in TrackedTo(areas, k) <==> v in Held(areas[..k])
  {
    if k > 0 {
      TrackedMeaning(areas, k - 1, v);
      assert areas[..k][..k - 1] == areas[..k - 1];
    }
  }

  lemma {:induction false} HeldAt(areas: seq<MapArea>, n: nat, i: nat, v: Vpn)
    requires i < n <= |areas| && TrackedOnce(areas) && v in areas[i].frames
    ensures v in Held(areas[..n]) && Held(areas[..n])[v] == areas[i].frames[v]
  {
    assert areas[..n][..n - 1] == areas[..n - 1];
    if i < n - 1 {
      HeldAt(areas, n - 1, i, v);
      assert areas[i].frames.Keys !! areas[n - 1].frames.Keys;
    }
  }

  lemma AreaReady(areas: seq<MapArea>, k: nat, v: Vpn)
    requires k < |areas| && TrackedOnce(areas) && v in areas[k].frames
    ensures v in Held(areas) && Held(areas)[v] == areas[k].frames[v] && v !in TrackedTo(areas, k)
  {
    HeldAt(areas, |areas|, k, v);
    assert areas[..|areas|] == areas;
    TrackedMeaning(areas, k, v);
    forall i | 0 <= i < k
      ensures v !in areas[i].frames
    {
      assert areas[i].frames.Keys !! areas[k].frames.Keys;
    }
  }

  /** The space is a member of the fork tree, the child's id is new, and the free frames are used
      nowhere in the tree. */
  ghost predicate InTree(sys: Sys, p: nat, c: nat, s: Space, mem: map<Frame, Page>, free: seq<Frame>) {
    && p in sys.spaces && sys.spaces[p] == s && sys.mem == mem && c !in sys.spaces
    && forall f :: f in free ==> Unused(sys, f)
  }

  /** The tree with the two spaces in place is reached by a possible step, which keeps frames
      backed and isolated. */
  ghost predicate ForkedTo(sys: Sys, p: nat, c: nat, parent: Space, child: Space,
                           mem: map<Frame, Page>, news: map<Vpn, Frame>) {
    var e := Fork(p, c, news, mem);
    && Enabled(sys, e)
    && Step(sys, e) == Sys(sys.spaces[p := parent][c := child], mem)
    && (CowFork.Inv(sys) ==> CowFork.Inv(Step(sys, e)))
  }

  /** from_existed_user_cow, for address spaces without identity-mapped areas: parent, child and
      memory are those of the fork, with a new frame for every kernel-only page if enough frames
      are free. In that case any fork tree the parent belongs to takes a step. */
  method FromExistedUserCow(parent: MemorySet, phys: PhysMemory, ghost sys: Sys, ghost p: nat, ghost c: nat)
    returns (child: MemorySet, ghost news: map<Vpn, Frame>)
    requires TrackedOnce(parent.areas) && forall a :: a in parent.areas ==> !a.mapType.Identical?
    requires Resident(View(parent), phys.bytes) && FreshSupply(View(parent), phys.free)
    modifies parent, phys
    ensures View(parent) == ForkParent(old(View(parent))) && View(child) == ForkChild(old(View(parent)), news)
    ensures parent.areas == old(parent.areas) && SameLayout(child.areas, parent.areas)
    ensures ForkMemory(old(phys.bytes), phys.bytes, old(View(parent)), news)
    ensures |old(phys.free)| >= |KernelOnly(old(View(parent)))| ==> news.Keys == KernelOnly(old(View(parent)))
    ensures InTree(sys, p, c, old(View(parent)), old(phys.bytes), old(phys.free)) ==>
      |old(phys.free)| < |KernelOnly(old(View(parent)))| ||
      ForkedTo(sys, p, c, View(parent), View(child), phys.bytes, news)
  {
    ghost var s := View(parent);
    var ptes, areas;
    ghost var l;
    ptes, areas, l := ForkAreas(parent, phys);
    AllTracked(parent.areas, s);
    Finish(l);
    news := l.news;
    child := new MemorySet(areas, ptes);
    if |l.free0| >= |KernelOnly(s)| && InTree(sys, p, c, s, l.mem0, l.free0) {
      ForkIsAStep(sys, p, c, l.free0, news, phys.bytes);
    }
  }

  /** The loop over the parent's areas. */
  method ForkAreas(parent: MemorySet, phys: PhysMemory)
    returns (ptes: map<Vpn, Pte>, areas: seq<MapArea>, ghost l: Loop)
    requires TrackedOnce(parent.areas)
    requires Resident(View(parent), phys.bytes) && FreshSupply(View(parent), phys.free)
    modifies parent`ptes, phys
    ensures l.s == old(View(parent)) && l.mem0 == old(phys.bytes) && l.free0 == old(phys.free)
    ensures l.done == TrackedTo(parent.areas, |parent.areas|)
    ensures Progress(l) && Tracks(l, parent.ptes, ptes, Held(areas), phys.bytes, phys.free)
    ensures SameLayout(areas, parent.areas)
  {
    var all := parent.areas;
    ghost var s := View(parent);
    l := Loop(s, phys.bytes, phys.free, {}, map[], s.ptes, Space(map[], map[]), phys.bytes, phys.free);
    ptes, areas := map[], [];
    Begin(s, phys.bytes, phys.free);
    for k := 0 to |all|
      invariant l.done == TrackedTo(all, k)
      invariant l.s == s && l.mem0 == old(phys.bytes) && l.free0 == old(phys.free)
      invariant |areas| == k && forall i :: 0 <= i < k ==> Layout(areas[i]) == Layout(all[i])
      invariant Progress(l) && Tracks(l, parent.ptes, ptes, Held(areas), phys.bytes, phys.free)
    {
      AreaAllReady(all, k);
      var newArea;
      ptes, newArea, l := ForkNextArea(parent, phys, ptes, areas, all[k], l);
      areas := areas + [newArea];
    }
  }

  /** One area of the parent becomes the next area of the child. */
  method ForkNextArea(parent: MemorySet, phys: PhysMemory, ptes: map<Vpn, Pte>, areas: seq<MapArea>,
                      area: MapArea, ghost l: Loop)
    returns (ptes': map<Vpn, Pte>, newArea: MapArea, ghost l': Loop)
    requires forall v :: v in area.frames ==> v in l.s.held && l.s.held[v] == area.frames[v] && v !in l.done
    requires Progress(l) && Tracks(l, parent.ptes, ptes, Held(areas), phys.bytes, phys.free)
    modifies parent`ptes, phys
    ensures Progress(l') && Tracks(l', parent.ptes, ptes', Held(areas + [newArea]), phys.bytes, phys.free)
    ensures l'.done == l.done + area.frames.Keys && Same(l, l')
      && Layout(newArea) == Layout(area) && newArea.saved == map[]
  {
    var frames;
    ptes', frames, l' := ForkArea(parent, phys, ptes, area, Held(areas), l);
    newArea := area.(frames := frames, saved := map[]);
    assert (areas + [newArea])[..|areas|] == areas;
  }

  lemma AreaAllReady(areas: seq<MapArea>, k: nat)
    requires k < |areas| && TrackedOnce(areas)
    ensures forall v :: v in areas[k].frames ==>
      v in Held(areas) && Held(areas)[v] == areas[k].frames[v] && v !in TrackedTo(areas, k)
  {
    forall v | v in areas[k].frames
      ensures v in Held(areas) && Held(areas)[v] == areas[k].frames[v] && v !in TrackedTo(areas, k)
    {
      AreaReady(areas, k, v);
    }
  }

  lemma AllTracked(areas: seq<MapArea>, s: Space)
    requires s.held == Held(areas) && s.ptes.Keys <= s.held.Keys
    ensures s.ptes.Keys <= TrackedTo(areas, |areas|)
  {
    forall v | v in s.ptes
      ensures v in TrackedTo(areas, |areas|)
    {
      TrackedMeaning(areas, |areas|, v);
      assert areas[..|areas|] == areas;
    }
  }

  lemma ForkIsAStep(sys: Sys, p: nat, c: nat, free: seq<Frame>, news: map<Vpn, Frame>, after: map<Frame, Page>)
    requires p in sys.spaces && c !in sys.spaces && (forall f :: f in free ==> Unused(sys, f))
    requires news.Keys == KernelOnly(sys.spaces[p]) && (forall v :: v in news ==> news[v] in free)
    requires forall v, w :: v in news && w in news && v != w ==> news[v] != news[w]
    requires ForkMemory(sys.mem, after, sys.spaces[p], news)
    ensures ForkedTo(sys, p, c, ForkParent(sys.spaces[p]), ForkChild(sys.spaces[p], news), after, news)
  {
    if CowFork.Inv(sys) {
      CowFork.StepInv(sys, Fork(p, c, news, after));
    }
  }

  // ----- the copy-on-write fault -----

  lemma {:induction false} CountHas(areas: seq<MapArea>, i: nat, v: Vpn)
    requires i < |areas| && Contains(areas[i], v)
    ensures CountAt(areas, v) > 0
  {
    if i < |areas| - 1 {
      CountHas(areas[..|areas| - 1], i, v);
    }
  }

  /** Only one area of the list contains v. */
  lemma ContainsOnce(areas: seq<MapArea>, i: nat, j: nat, v: Vpn)
    requires i < |areas| && j < |areas| && Contains(areas[i], v) && Contains(areas[j], v) && CountAt(areas, v) <= 1
    ensures i == j
  {
    if i != j {
      var k, n := if i < j then j else i, if i < j then i else j;
      assert areas == areas[..k] + areas[k..];
      ListJoin(areas[..k], areas[k..], map[], v);
      CountHas(areas[..k], n, v);
      CountHas(areas[k..], 0, v);
      assert false;
    }
  }

  function Retrack(a: MapArea, v: Vpn, f: Frame): MapArea { a.(frames := a.frames[v := f]) }

  lemma {:induction false} HeldUpdate(areas: seq<MapArea>, i: nat, v: Vpn, f: Frame)
    requires i < |areas| && forall j :: 0 <= j < |areas| && j != i ==> v !in areas[j].frames
    ensures Held(areas[i := Retrack(areas[i], v, f)]) == Held(areas)[v := f]
  {
    var n := |areas| - 1;
    if i == n {
      assert areas[i := Retrack(areas[i], v, f)][..n] == areas[..n];
      MergeUpdate(Held(areas[..n]), areas[n].frames, v, f);
    } else {
      HeldUpdate(areas[..n], i, v, f);
      assert areas[i := Retrack(areas[i], v, f)][..n] == areas[..n][i := Retrack(areas[i], v, f)];
      UpdateUnder(Held(areas[..n]), areas[n].frames, v, f);
    }
  }

  /** Frames are tracked by the area that contains their page. */
  predicate Located(areas: seq<MapArea>) {
    forall i, v :: 0 <= i < |areas| && v in areas[i].frames ==> Contains(areas[i], v) && !areas[i].mapType.Identical?
  }

  /** insert_tracked_frame in the first area that is not identity-mapped and contains the page. */
  method TrackNewFrame(m: MemorySet, v: Vpn, f: Frame)
    requires m.Valid() && Located(m.areas) && v in Held(m.areas)
    modifies m`areas
    ensures Held(m.areas) == old(Held(m.areas))[v := f] && SameLayout(m.areas, old(m.areas))
    ensures AllTidy(m.areas)
  {
    ghost var t := Tracker(m.areas, v);
    assert CountAt(m.areas, v) <= 1;
    var i := 0;
    while i < |m.areas| && (m.areas[i].mapType.Identical? || !Contains(m.areas[i], v))
      invariant i <= t
    {
      i := i + 1;
    }
    ContainsOnce(m.areas, i, t, v);
    forall j | 0 <= j < |m.areas| && j != i
      ensures v !in m.areas[j].frames
    {
      if v in m.areas[j].frames {
        ContainsOnce(m.areas, i, j, v);
        assert false;
      }
    }
    HeldUpdate(m.areas, i, v, f);
    m.areas := m.areas[i := Retrack(m.areas[i], v, f)];
  }

  /** An area that tracks a held page. */
  lemma {:induction false} Tracker(areas: seq<MapArea>, v: Vpn) returns (i: nat)
    requires v in Held(areas)
    ensures i < |areas| && v in areas[i].frames
  {
    if v in areas[|areas| - 1].frames {
      i := |areas| - 1;
    } else {
      i := Tracker(areas[..|areas| - 1], v);
    }
  }

  /** With an unused frame the fault is a step of the tree. */
  ghost predicate FaultedTo(sys: Sys, p: nat, v: Vpn, f: Frame, space: Space, mem: map<Frame, Page>) {
    Unused(sys, f) ==>
      Enabled(sys, CowFault(p, v, f)) && Step(sys, CowFault(p, v, f)) == Sys(sys.spaces[p := space], mem)
  }

  /** resolve_cow_fault: a private copy-on-write page gets a frame of its own with the same
      contents and becomes writable; every other page and frame is untouched. It is refused when
      the region does not allow it, the entry is not copy-on-write, or no frame is left. Any fork
      tree the space belongs to takes a fault step. */
  method ResolveCowFault(m: MemorySet, phys: PhysMemory, v: Vpn, allowed: bool, ghost sys: Sys, ghost p: nat)
    returns (ok: bool)
    requires m.Valid() && Located(m.areas) && Resident(View(m), phys.bytes) && FreshSupply(View(m), phys.free)
    modifies m, phys
    ensures m.Valid() && SameLayout(m.areas, old(m.areas))
    ensures ok <==>
      && allowed && v in old(m.ptes) && old(m.ptes)[v].flags.cow && !old(m.ptes)[v].flags.shared
      && old(phys.free) != []
    ensures !ok ==> View(m) == old(View(m)) && phys.bytes == old(phys.bytes)
    ensures ok ==>
      var was, f := old(m.ptes)[v], old(phys.free)[|old(phys.free)| - 1];
      && v in m.ptes && View(m) == SetPage(old(View(m)), v, m.ptes[v]) && m.ptes[v].frame == f
      && m.ptes[v].flags == Flags(was.flags.u, true, true, false, false, was.flags.rest)
      && was.frame in old(phys.bytes) && phys.bytes == old(phys.bytes)[f := old(phys.bytes)[was.frame]]
    ensures ok && p in sys.spaces && sys.spaces[p] == old(View(m)) && sys.mem == old(phys.bytes) ==>
      FaultedTo(sys, p, v, old(phys.free)[|old(phys.free)| - 1], View(m), phys.bytes)
  {
    if !allowed || v !in m.ptes {
      return false;
    }
    var pte := m.ptes[v];
    if !pte.flags.cow || pte.flags.shared {
      return false;
    }
    var frame := phys.FrameAlloc();
    if frame.None? {
      return false;
    }
    phys.bytes := phys.bytes[frame.value := phys.bytes[pte.frame]];
    var flags := pte.flags.(cow := false, w := true, d := true);
    TrackNewFrame(m, v, frame.value);
    m.ptes := m.ptes[v := Pte(frame.value, flags)];
    StaysConsistent(old(m.areas), m.areas);
    return true;
  }

  /** Retracking a page keeps the areas apart. */
  lemma StaysConsistent(a: seq<MapArea>, b: seq<MapArea>)
    requires Consistent(a) && SameLayout(b, a) && AllTidy(b)
    ensures Consistent(b)
  {
    forall v
      ensures CountAt(b, v) <= 1
    {
      LayoutCounts(b, a, v);
      assert CountAt(a, v) <= 1;
    }
  }
}
