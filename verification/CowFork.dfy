/** Copy-on-write fork (from_existed_user_cow in src/mm/memory_set.rs) and the copy-on-write fault
    (src/mm/memory_set/fault.rs) over any number of address spaces, against a machine that copies
    every private page at the fork. */
module CowFork {

  type Page = seq<bv8>
  type Vpn = nat
  type Frame = nat

  /** The bits of a page-table entry that matter here; `rest` is all the others. */
  datatype Flags = Flags(u: bool, w: bool, d: bool, shared: bool, cow: bool, rest: nat)
  datatype Pte = Pte(frame: Frame, flags: Flags)

  /** The valid entries of one address space and the frames its areas track. A tracked page
      without a valid entry has been made inaccessible. */
  datatype Space = Space(ptes: map<Vpn, Pte>, held: map<Vpn, Frame>)

  predicate Writable(f: Flags) { f.w || f.d }

  /** The flags of a user page after a fork, in the parent and in the child. */
  function Demoted(f: Flags): Flags {
    if f.u && Writable(f) && !f.shared then f.(w := false, d := false, cow := true) else f
  }

  function KernelOnly(s: Space): set<Vpn> { set v | v in s.ptes && !s.ptes[v].flags.u }

  // ----- one fork -----

  function ParentPte(p: Pte): Pte { p.(flags := Demoted(p.flags)) }

  function ChildPte(p: Pte, v: Vpn, news: map<Vpn, Frame>): Pte {
    if !p.flags.u && v in news then p.(frame := news[v]) else ParentPte(p)
  }

  /** The parent after the pages in `done` have been visited. */
  function ParentTo(s: Space, done: set<Vpn>): Space {
    s.(ptes := map v | v in s.ptes :: if v in done then ParentPte(s.ptes[v]) else s.ptes[v])
  }

  /** Pages the child gets: every visited user page, and the kernel-only pages a frame was found for. */
  predicate Given(s: Space, done: set<Vpn>, news: map<Vpn, Frame>, v: Vpn) {
    v in s.ptes && v in done && (s.ptes[v].flags.u || v in news)
  }

  function ChildTo(s: Space, done: set<Vpn>, news: map<Vpn, Frame>): Space {
    Space(
      map v | v in s.ptes && Given(s, done, news, v) :: ChildPte(s.ptes[v], v, news),
      map v | v in s.ptes && Given(s, done, news, v) :: ChildPte(s.ptes[v], v, news).frame)
  }

  function ForkParent(s: Space): Space { ParentTo(s, s.ptes.Keys) }
  function ForkChild(s: Space, news: map<Vpn, Frame>): Space { ChildTo(s, s.ptes.Keys, news) }

  predicate IsFresh(news: map<Vpn, Frame>, f: Frame) { exists v :: v in news && news[v] == f }

  /** The new frames hold copies of the kernel-only pages; every other frame is unchanged. */
  ghost predicate ForkMemory(mem: map<Frame, Page>, after: map<Frame, Page>, s: Space, news: map<Vpn, Frame>) {
    && (forall f :: f in mem && !IsFresh(news, f) ==> f in after && after[f] == mem[f])
    && (forall v :: v in news && v in s.ptes && s.ptes[v].frame in mem ==>
          news[v] in after && after[news[v]] == mem[s.ptes[v].frame])
  }

  // ----- any run of forks, faults, stores and mappings -----

  datatype Sys = Sys(spaces: map<nat, Space>, mem: map<Frame, Page>)

  datatype Event =
    | Fork(parent: nat, child: nat, news: map<Vpn, Frame>, after: map<Frame, Page>)
    | CowFault(pid: nat, v: Vpn, frame: Frame)
    | Store(pid: nat, v: Vpn, page: Page)
    | MapNew(pid: nat, v: Vpn, frame: Frame, flags: Flags, page: Page)
    | Attach(pid: nat, v: Vpn, from: nat, w: Vpn)      // map a SHARED page of another space
    | Unmap(pid: nat, v: Vpn)
    | Create(pid: nat)
    | Exit(pid: nat)

  predicate Mapped(s: Sys, p: nat, v: Vpn) { p in s.spaces && v in s.spaces[p].ptes }

  function PteAt(s: Sys, p: nat, v: Vpn): Pte
    requires Mapped(s, p, v)
  {
    s.spaces[p].ptes[v]
  }

  /** A frame no area of any space tracks; only such frames leave the allocator. */
  ghost predicate Unused(s: Sys, f: Frame) {
    forall p, v :: p in s.spaces && v in s.spaces[p].held ==> s.spaces[p].held[v] != f
  }

  ghost predicate GoodFresh(s: Sys, sp: Space, news: map<Vpn, Frame>) {
    && news.Keys == KernelOnly(sp)
    && (forall v :: v in news ==> Unused(s, news[v]))
    && (forall v, w :: v in news && w in news && v != w ==> news[v] != news[w])
  }

  /** A page several spaces are meant to see together. */
  predicate Common(f: Flags) { f.u && f.shared }

  /** The flags after a copy-on-write fault. */
  function Promoted(f: Flags): Flags { f.(cow := false, w := true, d := true) }

  ghost predicate Enabled(s: Sys, e: Event) {
    match e
    case Fork(p, c, news, after) =>
      && p in s.spaces && c !in s.spaces
      && GoodFresh(s, s.spaces[p], news) && ForkMemory(s.mem, after, s.spaces[p], news)
    case CowFault(p, v, f) =>
      Mapped(s, p, v) && PteAt(s, p, v).flags.cow && !PteAt(s, p, v).flags.shared && Unused(s, f)
    case Store(p, v, _) => Mapped(s, p, v) && (PteAt(s, p, v).flags.u ==> Writable(PteAt(s, p, v).flags))
    case MapNew(p, v, f, _, _) => p in s.spaces && v !in s.spaces[p].held && Unused(s, f)
    case Attach(p, v, q, w) =>
      p in s.spaces && v !in s.spaces[p].held && Mapped(s, q, w) && Common(PteAt(s, q, w).flags)
    case Unmap(p, _) => p in s.spaces
    case Create(p) => p !in s.spaces
    case Exit(_) => true
  }

  function SetPage(sp: Space, v: Vpn, pte: Pte): Space {
    Space(sp.ptes[v := pte], sp.held[v := pte.frame])
  }

  function Step(s: Sys, e: Event): Sys
    requires Enabled(s, e)
  {
    match e
    case Fork(p, c, news, after) =>
      Sys(s.spaces[p := ForkParent(s.spaces[p])][c := ForkChild(s.spaces[p], news)], after)
    case CowFault(p, v, f) =>
      var was := PteAt(s, p, v);
      Sys(s.spaces[p := SetPage(s.spaces[p], v, Pte(f, Promoted(was.flags)))],
          if was.frame in s.mem then s.mem[f := s.mem[was.frame]] else s.mem)
    case Store(p, v, page) => s.(mem := s.mem[PteAt(s, p, v).frame := page])
    case MapNew(p, v, f, flags, page) =>
      Sys(s.spaces[p := SetPage(s.spaces[p], v, Pte(f, flags))], s.mem[f := page])
    case Attach(p, v, q, w) => s.(spaces := s.spaces[p := SetPage(s.spaces[p], v, PteAt(s, q, w))])
    case Unmap(p, v) => s.(spaces := s.spaces[p := Space(s.spaces[p].ptes - {v}, s.spaces[p].held - {v})])
    case Create(p) => s.(spaces := s.spaces[p := Space(map[], map[])])
    case Exit(p) => s.(spaces := s.spaces - {p})
  }

  // ----- what every run keeps -----

  ghost predicate Backed(s: Sys) {
    forall p, v :: Mapped(s, p, v) ==>
      && v in s.spaces[p].held && s.spaces[p].held[v] == PteAt(s, p, v).frame
      && PteAt(s, p, v).frame in s.mem
  }

  /** Two entries for one frame: both SHARED user pages, or both private user pages and neither
      writable. A kernel-only page never shares its frame. */
  predicate Compatible(a: Flags, b: Flags) {
    || (Common(a) && Common(b))
    || (a.u && b.u && !a.shared && !b.shared && !Writable(a) && !Writable(b))
  }

  ghost predicate PairOk(s: Sys, p: nat, v: Vpn, q: nat, w: Vpn) {
    Mapped(s, p, v) && Mapped(s, q, w) && (p != q || v != w) && PteAt(s, p, v).frame == PteAt(s, q, w).frame ==>
      Compatible(PteAt(s, p, v).flags, PteAt(s, q, w).flags)
  }

  ghost predicate Isolated(s: Sys) {
    forall p, v, q, w :: PairOk(s, p, v, q, w)
  }

  ghost predicate Inv(s: Sys) {
    Backed(s) && Isolated(s)
  }

  lemma UnusedUnmapped(s: Sys, f: Frame, p: nat, v: Vpn)
    requires Backed(s) && Unused(s, f) && Mapped(s, p, v)
    ensures PteAt(s, p, v).frame != f
  {
    assert v in s.spaces[p].held;
  }

  /** Where an entry of the state after a fork comes from in the state before. */
  lemma ForkOrigin(s: Sys, e: Event, q: nat, w: Vpn)
    requires e.Fork? && Enabled(s, e) && Mapped(Step(s, e), q, w)
    ensures
      var o := if q == e.child then e.parent else q;
      && Mapped(s, o, w)
      && PteAt(Step(s, e), q, w) ==
         if q == e.child then ChildPte(PteAt(s, o, w), w, e.news)
         else if q == e.parent then ParentPte(PteAt(s, o, w)) else PteAt(s, o, w)
  {
  }

  lemma ForkPair(s: Sys, e: Event, p: nat, v: Vpn, q: nat, w: Vpn)
    requires e.Fork? && Enabled(s, e) && Inv(s)
    ensures PairOk(Step(s, e), p, v, q, w)
  {
    var t := Step(s, e);
    if Mapped(t, p, v) && Mapped(t, q, w) && (p != q || v != w) {
      ForkOrigin(s, e, p, v);
      ForkOrigin(s, e, q, w);
      var po := if p == e.child then e.parent else p;
      var qo := if q == e.child then e.parent else q;
      assert PairOk(s, po, v, qo, w);
    }
  }

  lemma OtherPair(s: Sys, e: Event, p: nat, v: Vpn, q: nat, w: Vpn)
    requires !e.Fork? && Enabled(s, e) && Inv(s)
    ensures PairOk(Step(s, e), p, v, q, w)
  {
    var t := Step(s, e);
    if Mapped(t, p, v) && Mapped(t, q, w) && (p != q || v != w) {
      Origin(s, e, p, v);
      Origin(s, e, q, w);
      assert PairOk(s, p, v, q, w);
      if e.Attach? {
        assert PairOk(s, e.from, e.w, q, w) && PairOk(s, p, v, e.from, e.w);
      }
    }
  }

  /** The entry a step puts in place of the one at (pid, v), if any. */
  predicate Placed(s: Sys, e: Event, p: nat, v: Vpn) {
    (e.CowFault? || e.MapNew? || e.Attach?) && p == e.pid && v == e.v
  }

  /** Outside the placed page, a step other than a fork only removes entries. A placed page has an
      unused frame or, when attached, the frame of a common page. */
  lemma Origin(s: Sys, e: Event, p: nat, v: Vpn)
    requires !e.Fork? && Enabled(s, e) && Backed(s) && Mapped(Step(s, e), p, v)
    ensures !Placed(s, e, p, v) ==> Mapped(s, p, v) && PteAt(Step(s, e), p, v) == PteAt(s, p, v)
    ensures Placed(s, e, p, v) && e.Attach? ==> PteAt(Step(s, e), p, v) == PteAt(s, e.from, e.w)
    ensures Placed(s, e, p, v) && !e.Attach? ==> PteAt(Step(s, e), p, v).frame == e.frame
    ensures !e.Attach? && (e.CowFault? || e.MapNew?) && Mapped(s, p, v) ==> PteAt(s, p, v).frame != e.frame
  {
    if (e.CowFault? || e.MapNew?) && Mapped(s, p, v) {
      UnusedUnmapped(s, e.frame, p, v);
    }
  }

  lemma BackedAt(s: Sys, e: Event, p: nat, v: Vpn)
    requires Enabled(s, e) && Backed(s) && Mapped(Step(s, e), p, v)
    ensures
      var t := Step(s, e);
      && v in t.spaces[p].held && t.spaces[p].held[v] == PteAt(t, p, v).frame
      && PteAt(t, p, v).frame in t.mem
  {
    if e.Fork? {
      ForkOrigin(s, e, p, v);
      var o := if p == e.child then e.parent else p;
      UsedNotNew(s, e, o, v);
    } else {
      Origin(s, e, p, v);
    }
  }

  /** A mapped frame is none of the new frames of a fork. */
  lemma UsedNotNew(s: Sys, e: Event, p: nat, v: Vpn)
    requires e.Fork? && Enabled(s, e) && Backed(s) && Mapped(s, p, v)
    ensures !IsFresh(e.news, PteAt(s, p, v).frame) && PteAt(s, p, v).frame in e.after
    ensures e.after[PteAt(s, p, v).frame] == s.mem[PteAt(s, p, v).frame]
  {
    var f := PteAt(s, p, v).frame;
    forall w | w in e.news
      ensures e.news[w] != f
    {
      UnusedUnmapped(s, e.news[w], p, v);
    }
  }

  lemma StepInv(s: Sys, e: Event)
    requires Enabled(s, e) && Inv(s)
    ensures Inv(Step(s, e))
  {
    forall p, v | Mapped(Step(s, e), p, v)
      ensures v in Step(s, e).spaces[p].held && Step(s, e).spaces[p].held[v] == PteAt(Step(s, e), p, v).frame
      ensures PteAt(Step(s, e), p, v).frame in Step(s, e).mem
    {
      BackedAt(s, e, p, v);
    }
    forall p, v, q, w
      ensures PairOk(Step(s, e), p, v, q, w)
    {
      if e.Fork? {
        ForkPair(s, e, p, v, q, w);
      } else {
        OtherPair(s, e, p, v, q, w);
      }
    }
  }

  // ----- the machine that copies at the fork -----

  /** What a space may do with a page: whether user mode sees it, whether it may be written, and
      the other bits. Copy on write does not exist on this machine. */
  datatype Perms = Perms(user: bool, write: bool, rest: nat)

  /** The rights a page was mapped with: a copy-on-write page is one that may be written. */
  function Granted(f: Flags): Perms {
    Perms(f.u, !f.u || Writable(f) || (f.cow && !f.shared), f.rest)
  }

  /** A page is either the space's own or refers to a common page. */
  datatype Slot = Own(page: Page, perms: Perms) | Ref(frame: Frame, perms: Perms)
  datatype Eager = Eager(spaces: map<nat, map<Vpn, Slot>>, commons: map<Frame, Page>)

  function SetSlot(slots: map<Vpn, Slot>, v: Vpn, slot: Slot): map<Vpn, Slot> { slots[v := slot] }

  function EagerStep(a: Eager, e: Event): Eager {
    match e
    case Fork(p, c, _, _) => if p in a.spaces then a.(spaces := a.spaces[c := a.spaces[p]]) else a
    case CowFault(_, _, _) => a
    case Store(p, v, page) =>
      if p !in a.spaces || v !in a.spaces[p] then a
      else if a.spaces[p][v].Own? then
        a.(spaces := a.spaces[p := SetSlot(a.spaces[p], v, Own(page, a.spaces[p][v].perms))])
      else a.(commons := a.commons[a.spaces[p][v].frame := page])
    case MapNew(p, v, f, flags, page) =>
      if p !in a.spaces then a
      else if Common(flags) then
        Eager(a.spaces[p := SetSlot(a.spaces[p], v, Ref(f, Granted(flags)))], a.commons[f := page])
      else a.(spaces := a.spaces[p := SetSlot(a.spaces[p], v, Own(page, Granted(flags)))])
    case Attach(p, v, q, w) =>
      if p !in a.spaces || q !in a.spaces || w !in a.spaces[q] then a
      else a.(spaces := a.spaces[p := SetSlot(a.spaces[p], v, a.spaces[q][w])])
    case Unmap(p, v) => if p in a.spaces then a.(spaces := a.spaces[p := a.spaces[p] - {v}]) else a
    case Create(p) => a.(spaces := a.spaces[p := map[]])
    case Exit(p) => a.(spaces := a.spaces - {p})
  }

  predicate Present(a: Eager, p: nat, v: Vpn) { p in a.spaces && v in a.spaces[p] }

  /** The slot tells what the entry shows. */
  predicate Shows(slot: Slot, pte: Pte, mem: map<Frame, Page>, commons: map<Frame, Page>) {
    pte.frame in mem &&
    if Common(pte.flags) then
      slot == Ref(pte.frame, Granted(pte.flags)) && pte.frame in commons && commons[pte.frame] == mem[pte.frame]
    else slot == Own(mem[pte.frame], Granted(pte.flags))
  }

  ghost predicate MatchAt(s: Sys, a: Eager, p: nat, v: Vpn) {
    && (Mapped(s, p, v) <==> Present(a, p, v))
    && (Mapped(s, p, v) && Present(a, p, v) ==> Shows(a.spaces[p][v], PteAt(s, p, v), s.mem, a.commons))
  }

  ghost predicate Matches(s: Sys, a: Eager) {
    s.spaces.Keys == a.spaces.Keys && forall p, v :: MatchAt(s, a, p, v)
  }

  lemma ForkMatch(s: Sys, a: Eager, e: Event, p: nat, v: Vpn)
    requires e.Fork? && Enabled(s, e) && Inv(s) && Matches(s, a)
    ensures MatchAt(Step(s, e), EagerStep(a, e), p, v)
  {
    var t, b := Step(s, e), EagerStep(a, e);
    var o := if p == e.child then e.parent else p;
    assert MatchAt(s, a, o, v);
    assert Mapped(t, p, v) <==> Mapped(s, o, v);
    if Mapped(s, o, v) {
      ForkOrigin(s, e, p, v);
      UsedNotNew(s, e, o, v);
    }
  }

  lemma StoreMatch(s: Sys, a: Eager, e: Event, p: nat, v: Vpn)
    requires e.Store? && Enabled(s, e) && Inv(s) && Matches(s, a)
    ensures MatchAt(Step(s, e), EagerStep(a, e), p, v)
  {
    assert MatchAt(s, a, p, v) && MatchAt(s, a, e.pid, e.v);
    assert PairOk(s, p, v, e.pid, e.v);
  }

  lemma PlaceMatch(s: Sys, a: Eager, e: Event, p: nat, v: Vpn)
    requires (e.CowFault? || e.MapNew? || e.Attach?) && Enabled(s, e) && Inv(s) && Matches(s, a)
    ensures MatchAt(Step(s, e), EagerStep(a, e), p, v)
  {
    assert MatchAt(s, a, p, v);
    if e.Attach? {
      assert MatchAt(s, a, e.from, e.w);
    } else if Mapped(s, p, v) {
      UnusedUnmapped(s, e.frame, p, v);
    }
  }

  lemma StepMatches(s: Sys, a: Eager, e: Event)
    requires Enabled(s, e) && Inv(s) && Matches(s, a)
    ensures Matches(Step(s, e), EagerStep(a, e))
  {
    forall p, v
      ensures MatchAt(Step(s, e), EagerStep(a, e), p, v)
    {
      match e
      case Fork(_, _, _, _) => ForkMatch(s, a, e, p, v);
      case Store(_, _, _) => StoreMatch(s, a, e, p, v);
      case CowFault(_, _, _) => PlaceMatch(s, a, e, p, v);
      case MapNew(_, _, _, _, _) => PlaceMatch(s, a, e, p, v);
      case Attach(_, _, _, _) => PlaceMatch(s, a, e, p, v);
      case _ => assert MatchAt(s, a, p, v);
    }
  }

  // ----- whole runs -----

  /** Every event of the run is possible where it happens. */
  ghost predicate Possible(s: Sys, events: seq<Event>)
    decreases |events|
  {
    events == [] || (Enabled(s, events[0]) && Possible(Step(s, events[0]), events[1..]))
  }

  ghost function Run(s: Sys, events: seq<Event>): Sys
    requires Possible(s, events)
    decreases |events|
  {
    if events == [] then s else Run(Step(s, events[0]), events[1..])
  }

  function EagerRun(a: Eager, events: seq<Event>): Eager
    decreases |events|
  {
    if events == [] then a else EagerRun(EagerStep(a, events[0]), events[1..])
  }

  lemma {:induction false} RunMatches(s: Sys, a: Eager, events: seq<Event>)
    requires Inv(s) && Matches(s, a) && Possible(s, events)
    ensures Inv(Run(s, events)) && Matches(Run(s, events), EagerRun(a, events))
    decreases |events|
  {
    if events != [] {
      StepInv(s, events[0]);
      StepMatches(s, a, events[0]);
      RunMatches(Step(s, events[0]), EagerStep(a, events[0]), events[1..]);
    }
  }

  const Start := Sys(map[], map[])
  const EagerStart := Eager(map[], map[])

  /** Fork-tree isolation: over any run a frame mapped by private user entries in two places is
      writable in neither, and a kernel-only page has a frame of its own. */
  lemma ForkTreeIsolated(events: seq<Event>, p: nat, v: Vpn, q: nat, w: Vpn)
    requires Possible(Start, events)
    ensures
      var s := Run(Start, events);
      Mapped(s, p, v) && Mapped(s, q, w) && (p != q || v != w) && PteAt(s, p, v).frame == PteAt(s, q, w).frame ==>
        Compatible(PteAt(s, p, v).flags, PteAt(s, q, w).flags)
  {
    RunMatches(Start, EagerStart, events);
    assert PairOk(Run(Start, events), p, v, q, w);
  }

  /** What a task reads at a page. */
  function ReadPage(s: Sys, p: nat, v: Vpn): Page
    requires Mapped(s, p, v) && PteAt(s, p, v).frame in s.mem
  {
    s.mem[PteAt(s, p, v).frame]
  }

  function EagerRead(a: Eager, p: nat, v: Vpn): Page
    requires Present(a, p, v) && (a.spaces[p][v].Ref? ==> a.spaces[p][v].frame in a.commons)
  {
    match a.spaces[p][v] case Own(page, _) => page case Ref(f, _) => a.commons[f]
  }

  /** Copy on write is invisible: over any run every page of every space reads exactly as on the
      machine that copies all private pages at the fork. */
  lemma CowReadsAsEager(events: seq<Event>, p: nat, v: Vpn)
    requires Possible(Start, events)
    ensures
      var s, a := Run(Start, events), EagerRun(EagerStart, events);
      && (Mapped(s, p, v) <==> Present(a, p, v))
      && (Mapped(s, p, v) ==>
            && PteAt(s, p, v).frame in s.mem && (a.spaces[p][v].Ref? ==> a.spaces[p][v].frame in a.commons)
            && ReadPage(s, p, v) == EagerRead(a, p, v))
  {
    RunMatches(Start, EagerStart, events);
    assert MatchAt(Run(Start, events), EagerRun(EagerStart, events), p, v);
  }

  /** A store reaches the page, at once or after one copy-on-write fault that any unused frame
      serves; after the fault both the bit riscv64 looks at and the one loongarch64 looks at
      are set. */
  ghost predicate CanStore(s: Sys, p: nat, v: Vpn, page: Page) {
    || Enabled(s, Store(p, v, page))
    || forall f :: Unused(s, f) ==>
         && Enabled(s, CowFault(p, v, f)) && Enabled(Step(s, CowFault(p, v, f)), Store(p, v, page))
         && PteAt(Step(s, CowFault(p, v, f)), p, v).flags.w && PteAt(Step(s, CowFault(p, v, f)), p, v).flags.d
  }

  /** No right is lost and none is gained by copy on write: over any run every space sees every
      page with the rights it has on the machine that copies at the fork. Where that machine lets
      the space write, a store is possible, if need be after a fault; where it does not, neither
      is. */
  lemma CowWritesAsEager(events: seq<Event>, p: nat, v: Vpn, page: Page)
    requires Possible(Start, events) && Mapped(Run(Start, events), p, v)
    ensures
      var s, a := Run(Start, events), EagerRun(EagerStart, events);
      && Present(a, p, v)
      && var perms := a.spaces[p][v].perms;
         && PteAt(s, p, v).flags.u == perms.user && PteAt(s, p, v).flags.rest == perms.rest
         && (perms.write ==> CanStore(s, p, v, page))
         && (!perms.write ==> !Enabled(s, Store(p, v, page)) && forall f :: !Enabled(s, CowFault(p, v, f)))
  {
    RunMatches(Start, EagerStart, events);
    assert MatchAt(Run(Start, events), EagerRun(EagerStart, events), p, v);
  }
}
