/** Truncating a regular file while several open descriptions hold pending writes: the registry of
    pending buffers (src/fs/inode.rs) and the two-phase protocol around truncate_regular_inode
    (src/syscall/filesystem/inode_utils.rs). */
module InodeTruncate {
  import opened InodeBuffer

  const CHUNK: nat := 4096

  datatype Outcome = Done | IsDirectory | Invalid
  datatype Kind = Regular | Directory | Other

  /** The write buffer of one open description. `inode` stands for the device and inode numbers. */
  datatype Inner = Inner(inode: nat, off: nat, data: Bytes, counted: bool, readValid: nat)
  datatype Registration = Registration(inode: nat, end: nat)

  type Inners = map<nat, Inner>

  function End(b: Inner): nat { b.off + |b.data| }

  // ----- the logical file -----

  /** Description id holds pending bytes of the inode. */
  predicate Pending(inners: Inners, inode: nat, id: nat) {
    id in inners && inners[id].inode == inode && inners[id].data != []
  }

  predicate Covers(b: Inner, i: nat) { b.off <= i < End(b) }

  ghost predicate CoveredBy(inners: Inners, inode: nat, ids: set<nat>, i: nat) {
    exists id :: id in ids && Pending(inners, inode, id) && Covers(inners[id], i)
  }

  /** Every pending byte of these descriptions shows through in the file. */
  ghost predicate Shows(file: Bytes, inners: Inners, inode: nat, ids: set<nat>) {
    forall id, i: nat :: id in ids && Pending(inners, inode, id) && Covers(inners[id], i) ==>
      ByteAt(file, i) == inners[id].data[i - inners[id].off]
  }

  /** The file is long enough for the inode and every pending buffer, and no longer. */
  ghost predicate LongEnough(len: nat, disk: Bytes, inners: Inners, inode: nat) {
    && |disk| <= len
    && (forall id :: Pending(inners, inode, id) ==> End(inners[id]) <= len)
    && (len == |disk| || exists id :: Pending(inners, inode, id) && End(inners[id]) == len)
  }

  /** `file` is the inode with all its pending buffers on top. */
  ghost predicate IsLogical(file: Bytes, disk: Bytes, inners: Inners, inode: nat) {
    && LongEnough(|file|, disk, inners, inode)
    && Shows(file, inners, inode, inners.Keys)
    && forall i: nat :: CoveredBy(inners, inode, inners.Keys, i) || ByteAt(file, i) == ByteAt(disk, i)
  }

  /** Pending buffers of one inode cover disjoint ranges. */
  ghost predicate Disjoint(inners: Inners, inode: nat) {
    forall a, b :: Pending(inners, inode, a) && Pending(inners, inode, b) && a != b ==>
      End(inners[a]) <= inners[b].off || End(inners[b]) <= inners[a].off
  }

  /** There is at most one logical file. */
  lemma LogicalUnique(f: Bytes, g: Bytes, disk: Bytes, inners: Inners, inode: nat)
    requires IsLogical(f, disk, inners, inode) && IsLogical(g, disk, inners, inode)
    ensures f == g
  {
    forall i: nat
      ensures ByteAt(f, i) == ByteAt(g, i)
    {
      if CoveredBy(inners, inode, inners.Keys, i) {
        var id :| id in inners.Keys && Pending(inners, inode, id) && Covers(inners[id], i);
      }
    }
    SameBytes(f, g);
  }

  /** Laying one more disjoint buffer on top. */
  lemma AddBuffer(f: Bytes, disk: Bytes, inners: Inners, inode: nat, id: nat, b: Inner)
    requires id !in inners && b.inode == inode && b.data != []
    requires IsLogical(f, disk, inners, inode) && Disjoint(inners[id := b], inode)
    ensures IsLogical(Overlay(f, b.off, b.data), disk, inners[id := b], inode)
  {
    var more := inners[id := b];
    var g := Overlay(f, b.off, b.data);
    OverlayMeaning(f, b.off, b.data);
    forall k, i: nat | k in more.Keys && Pending(more, inode, k) && Covers(more[k], i)
      ensures ByteAt(g, i) == more[k].data[i - more[k].off]
    {
      if k != id {
        assert Pending(inners, inode, k) && Pending(more, inode, id);
      }
    }
    forall i: nat
      ensures CoveredBy(more, inode, more.Keys, i) || ByteAt(g, i) == ByteAt(disk, i)
    {
      if Covers(b, i) {
        assert Pending(more, inode, id) && Covers(more[id], i);
      } else if CoveredBy(inners, inode, inners.Keys, i) {
        var k :| k in inners.Keys && Pending(inners, inode, k) && Covers(inners[k], i);
        assert k in more.Keys && Pending(more, inode, k) && Covers(more[k], i);
      }
    }
    AddedLength(f, disk, inners, inode, id, b);
  }

  lemma AddedLength(f: Bytes, disk: Bytes, inners: Inners, inode: nat, id: nat, b: Inner)
    requires id !in inners && b.inode == inode && b.data != []
    requires LongEnough(|f|, disk, inners, inode)
    ensures LongEnough(Max(|f|, End(b)), disk, inners[id := b], inode)
  {
    var more := inners[id := b];
    forall k | Pending(more, inode, k)
      ensures End(more[k]) <= Max(|f|, End(b))
    {
      if k != id {
        assert Pending(inners, inode, k);
      }
    }
    if End(b) >= |f| {
      assert Pending(more, inode, id);
    } else if |f| != |disk| {
      var k :| Pending(inners, inode, k) && End(inners[k]) == |f|;
      assert Pending(more, inode, k);
    }
  }

  /** Buffers over disjoint ranges always have a logical file. */
  lemma {:induction false} LogicalExists(disk: Bytes, inners: Inners, inode: nat) returns (file: Bytes)
    requires Disjoint(inners, inode)
    ensures IsLogical(file, disk, inners, inode)
    decreases |inners|
  {
    if inners == map[] {
      file := disk;
    } else {
      var id :| id in inners;
      var fewer := inners - {id};
      assert fewer[id := inners[id]] == inners;
      assert Disjoint(fewer, inode) by {
        forall a, b | Pending(fewer, inode, a) && Pending(fewer, inode, b) && a != b
          ensures End(fewer[a]) <= fewer[b].off || End(fewer[b]) <= fewer[a].off
        {
          assert Pending(inners, inode, a) && Pending(inners, inode, b);
        }
      }
      file := LogicalExists(disk, fewer, inode);
      if Pending(inners, inode, id) {
        AddBuffer(file, disk, fewer, inode, id, inners[id]);
        file := Overlay(file, inners[id].off, inners[id].data);
      } else {
        SamePending(file, disk, fewer, inners, inode);
      }
    }
  }

  lemma SamePending(file: Bytes, disk: Bytes, a: Inners, b: Inners, inode: nat)
    requires forall id :: Pending(a, inode, id) <==> Pending(b, inode, id)
    requires forall id :: Pending(a, inode, id) && id in b ==> a[id] == b[id]
    requires IsLogical(file, disk, a, inode)
    ensures IsLogical(file, disk, b, inode)
  {
    forall i: nat
      ensures CoveredBy(b, inode, b.Keys, i) || ByteAt(file, i) == ByteAt(disk, i)
    {
      if CoveredBy(a, inode, a.Keys, i) {
        var id :| id in a.Keys && Pending(a, inode, id) && Covers(a[id], i);
        assert id in b.Keys && Pending(b, inode, id) && Covers(b[id], i);
      }
    }
  }

  // ----- what the flush phase achieves -----

  /** The part of a pending buffer that lies before n. */
  function KeptPart(b: Inner, n: nat): Bytes {
    Before(b.off, b.data, n)
  }

  /** Before n, the inode agrees with the file everywhere except under buffers still to do. */
  ghost predicate FlushedTo(file: Bytes, n: nat, disk: Bytes, inners: Inners, inode: nat, todo: set<nat>) {
    && Shows(file, inners, inode, todo)
    && forall i: nat :: i < n ==> CoveredBy(inners, inode, todo, i) || ByteAt(disk, i) == ByteAt(file, i)
  }

  /** Whatever is still pending and not on the list ends past n. */
  ghost predicate KeptPast(n: nat, inners: Inners, inode: nat, todo: set<nat>) {
    forall id :: Pending(inners, inode, id) && id !in todo ==> End(inners[id]) > n
  }

  /** The ids from position k on. */
  function Tail(ids: seq<nat>, k: nat): set<nat>
    requires k <= |ids|
    decreases |ids| - k
  {
    if k == |ids| then {} else {ids[k]} + Tail(ids, k + 1)
  }

  lemma {:induction false} TailHasAll(ids: seq<nat>, k: nat)
    requires k <= |ids|
    ensures forall id :: id in Tail(ids, k) <==> exists j :: k <= j < |ids| && ids[j] == id
    decreases |ids| - k
  {
    if k < |ids| {
      TailHasAll(ids, k + 1);
    }
  }

  lemma TailStep(ids: seq<nat>, k: nat)
    requires k < |ids| && forall a, b :: 0 <= a < b < |ids| ==> ids[a] != ids[b]
    ensures Tail(ids, k) - {ids[k]} == Tail(ids, k + 1) && ids[k] in Tail(ids, k)
  {
    TailHasAll(ids, k + 1);
  }

  /** The description's record after its buffer has been flushed up to n. */
  function AfterFlush(b: Inner, n: nat): Inner {
    if b.off >= n then b
    else if End(b) <= n then b.(data := [], counted := false, readValid := 0)
    else b.(readValid := 0)
  }

  /** Flushing one buffer up to n takes it off the list. */
  lemma FlushOne(file: Bytes, n: nat, disk: Bytes, inners: Inners, inode: nat, todo: set<nat>, id: nat)
    requires FlushedTo(file, n, disk, inners, inode, todo) && KeptPast(n, inners, inode, todo)
    requires id in todo && Pending(inners, inode, id)
    ensures
      var flushed := Overlay(disk, inners[id].off, KeptPart(inners[id], n));
      var after := inners[id := AfterFlush(inners[id], n)];
      && FlushedTo(file, n, flushed, after, inode, todo - {id})
      && KeptPast(n, after, inode, todo - {id})
      && OthersKept(inners, after, inode)
  {
    var was := inners[id];
    var rest, after := todo - {id}, inners[id := AfterFlush(was, n)];
    OverlayMeaning(disk, was.off, KeptPart(was, n));
    forall k | k in rest
      ensures Pending(after, inode, k) <==> Pending(inners, inode, k)
    {
    }
    forall i: nat | i < n
      ensures CoveredBy(after, inode, rest, i) || ByteAt(Overlay(disk, was.off, KeptPart(was, n)), i) == ByteAt(file, i)
    {
      if CoveredBy(inners, inode, todo, i) {
        var k :| k in todo && Pending(inners, inode, k) && Covers(inners[k], i);
        if k != id {
          assert k in rest && Pending(after, inode, k) && Covers(after[k], i);
        }
      }
    }
  }

  /** A description without pending bytes can be left out. */
  lemma SkipOne(file: Bytes, n: nat, disk: Bytes, inners: Inners, inode: nat, todo: set<nat>, id: nat)
    requires FlushedTo(file, n, disk, inners, inode, todo) && !Pending(inners, inode, id)
    ensures FlushedTo(file, n, disk, inners, inode, todo - {id})
  {
    forall i: nat | i < n && CoveredBy(inners, inode, todo, i)
      ensures CoveredBy(inners, inode, todo - {id}, i)
    {
      var k :| k in todo && Pending(inners, inode, k) && Covers(inners[k], i);
      assert k in todo - {id};
    }
  }

  lemma FlushStarts(file: Bytes, n: nat, disk: Bytes, inners: Inners, inode: nat, todo: set<nat>)
    requires IsLogical(file, disk, inners, inode)
    requires forall id :: Pending(inners, inode, id) ==> id in todo
    ensures FlushedTo(file, n, disk, inners, inode, todo)
  {
    forall i: nat | i < n && CoveredBy(inners, inode, inners.Keys, i)
      ensures CoveredBy(inners, inode, todo, i)
    {
      var k :| k in inners.Keys && Pending(inners, inode, k) && Covers(inners[k], i);
      assert k in todo;
    }
  }

  /** Once nothing is left to flush, cutting the inode cuts the file. */
  lemma FlushEnds(file: Bytes, n: nat, disk: Bytes, inners: Inners, inode: nat)
    requires FlushedTo(file, n, disk, inners, inode, {})
    ensures Resize(disk, n) == Resize(file, n)
  {
    forall i: nat
      ensures ByteAt(Resize(disk, n), i) == ByteAt(Resize(file, n), i)
    {
      ResizeMeaning(disk, n, i);
      ResizeMeaning(file, n, i);
    }
    SameBytes(Resize(disk, n), Resize(file, n));
  }

  /** Growing to a length no buffer exceeds leaves the buffers in place. */
  lemma Grown(file: Bytes, n: nat, disk: Bytes, inners: Inners, inode: nat)
    requires IsLogical(file, disk, inners, inode) && |file| <= n
    ensures IsLogical(Resize(file, n), Resize(disk, n), inners, inode)
  {
    forall i: nat
      ensures ByteAt(Resize(file, n), i) == ByteAt(file, i) && ByteAt(Resize(disk, n), i) == ByteAt(disk, i)
    {
      ResizeMeaning(disk, n, i);
      ResizeMeaning(file, n, i);
    }
  }

  // ----- the registry -----

  /** A live description is counted and registered exactly while it holds pending bytes. An entry
      without a live description is stale. */
  ghost predicate Registered(inners: Inners, registry: map<nat, Registration>) {
    forall id :: id in inners ==>
      && (inners[id].counted <==> inners[id].data != [])
      && (inners[id].data != [] <==> id in registry)
      && (id in registry ==> registry[id] == Registration(inners[id].inode, End(inners[id])))
  }

  /** The same descriptions of the same inodes, untouched for other inodes. */
  ghost predicate OthersKept(before: Inners, after: Inners, inode: nat) {
    && after.Keys == before.Keys
    && (forall id :: id in before ==> after[id].inode == before[id].inode)
    && (forall id :: id in before && before[id].inode != inode ==> after[id] == before[id])
  }

  ghost predicate DisksKept(before: map<nat, Bytes>, after: map<nat, Bytes>, inode: nat) {
    after.Keys == before.Keys && forall k :: k in before && k != inode ==> after[k] == before[k]
  }

  predicate Names(registry: map<nat, Registration>, id: nat, inode: nat) {
    id in registry && registry[id].inode == inode
  }

  /** The larger of the inode's length and the largest end registered for it among these ids. */
  ghost predicate VisibleIs(len: nat, diskLen: nat, registry: map<nat, Registration>, ids: set<nat>, inode: nat) {
    && diskLen <= len
    && (forall id :: Names(registry, id, inode) && id in ids ==> registry[id].end <= len)
    && (len == diskLen || exists id :: Names(registry, id, inode) && id in ids && registry[id].end == len)
  }

  /** No file is longer than its visible length; without stale entries it is exactly as long. */
  lemma VisibleCovers(len: nat, file: Bytes, disk: Bytes, inners: Inners, registry: map<nat, Registration>, inode: nat)
    requires VisibleIs(len, |disk|, registry, registry.Keys, inode)
    requires Registered(inners, registry) && IsLogical(file, disk, inners, inode)
    ensures |file| <= len
    ensures (forall id :: Names(registry, id, inode) ==> id in inners) ==> |file| == len
  {
    if |file| != |disk| {
      var id :| Pending(inners, inode, id) && End(inners[id]) == |file|;
      assert Names(registry, id, inode);
    }
    if len != |disk| && forall id :: Names(registry, id, inode) ==> id in inners {
      var id :| Names(registry, id, inode) && id in registry.Keys && registry[id].end == len;
      assert Pending(inners, inode, id);
    }
  }

  class PendingWrites {
    var disks: map<nat, Bytes>
    var inners: Inners                      // live open descriptions, by registry id
    var registry: map<nat, Registration>    // PENDING_WRITE_REGISTRY
    var count: nat                          // PENDING_WRITE_BUFFERS

    ghost predicate Valid()
      reads this
    {
      count == |registry| && Registered(inners, registry)
    }

    /** mark_write_buf_dirty, after the buffer of a description has been given pending bytes. */
    method MarkDirty(id: nat, off: nat, data: Bytes)
      requires Valid() && id in inners && data != []
      modifies this`inners, this`registry, this`count
      ensures Valid()
      ensures inners == old(inners)[id := old(inners[id]).(off := off, data := data, counted := true)]
      ensures registry == old(registry)[id := Registration(old(inners[id]).inode, off + |data|)]
    {
      var b := inners[id];
      if !b.counted {
        count := count + 1;
      }
      inners := inners[id := b.(off := off, data := data, counted := true)];
      registry := registry[id := Registration(b.inode, off + |data|)];
    }

    /** mark_write_buf_clean, with the description's emptied buffer b. */
    method MarkClean(id: nat, b: Inner)
      requires Valid() && id in inners && b.inode == inners[id].inode && b.data == []
      modifies this`inners, this`registry, this`count
      ensures Valid()
      ensures inners == old(inners)[id := b.(counted := false)] && registry == old(registry) - {id}
    {
      if inners[id].counted {
        count := count - 1;
      }
      inners := inners[id := b.(counted := false)];
      registry := registry - {id};
    }

    /** remove_stale_pending_write_entry. */
    method RemoveStale(id: nat)
      requires Valid() && id !in inners
      modifies this`registry, this`count
      ensures Valid() && registry == old(registry) - {id}
    {
      if id in registry {
        registry := registry - {id};
        count := count - 1;
      }
    }

    /** pending_inode_write_inners: the registered ids of an inode, each once. */
    method PendingIds(inode: nat) returns (ids: seq<nat>)
      requires Valid()
      ensures forall id :: id in ids <==> id in registry && registry[id].inode == inode
      ensures forall a, b :: 0 <= a < b < |ids| ==> ids[a] != ids[b]
    {
      ids := [];
      if count == 0 {
        return;
      }
      var rest := registry.Keys;
      while rest != {}
        invariant rest <= registry.Keys
        invariant forall id :: id in ids <==> id in registry && id !in rest && registry[id].inode == inode
        invariant forall a, b :: 0 <= a < b < |ids| ==> ids[a] != ids[b]
        decreases |rest|
      {
        var id :| id in rest;
        rest := rest - {id};
        if registry[id].inode == inode {
          ids := ids + [id];
        }
      }
    }

    /** inode_visible_size_with_disk_size. */
    method VisibleLen(inode: nat) returns (len: nat)
      requires Valid() && inode in disks
      ensures VisibleIs(len, |disks[inode]|, registry, registry.Keys, inode)
    {
      len := |disks[inode]|;
      if count == 0 {
        return;
      }
      var rest := registry.Keys;
      while rest != {}
        invariant rest <= registry.Keys && VisibleIs(len, |disks[inode]|, registry, registry.Keys - rest, inode)
        decreases |rest|
      {
        var id :| id in rest;
        rest := rest - {id};
        if registry[id].inode == inode {
          assert Names(registry, id, inode);
          len := Max(len, registry[id].end);
        }
      }
    }

    /** One turn of flush_inode_pending_writes_before_truncate. */
    method FlushTurn(inode: nat, n: nat, id: nat, ghost file: Bytes, ghost todo: set<nat>)
      requires Valid() && inode in disks
      requires FlushedTo(file, n, disks[inode], inners, inode, todo)
      requires KeptPast(n, inners, inode, todo) && id in todo
      modifies this
      ensures Valid() && OthersKept(old(inners), inners, inode) && DisksKept(old(disks), disks, inode)
      ensures FlushedTo(file, n, disks[inode], inners, inode, todo - {id})
      ensures KeptPast(n, inners, inode, todo - {id})
    {
      if id !in inners {
        SkipOne(file, n, disks[inode], inners, inode, todo, id);
        RemoveStale(id);
        return;
      }
      var b := inners[id];
      if b.inode != inode {
        SkipOne(file, n, disks[inode], inners, inode, todo, id);
        return;
      }
      if !b.counted || b.data == [] {
        SkipOne(file, n, disks[inode], inners, inode, todo, id);
        assert inners[id := b.(counted := false)] == inners;
        MarkClean(id, b);
        return;
      }
      FlushOne(file, n, disks[inode], inners, inode, todo, id);
      FlushPending(inode, n, id);
    }

    /** The write of one pending buffer up to n. */
    method FlushPending(inode: nat, n: nat, id: nat)
      requires Valid() && inode in disks && Pending(inners, inode, id)
      modifies this
      ensures Valid() && inners == old(inners)[id := AfterFlush(old(inners)[id], n)]
      ensures disks ==
        old(disks)[inode := Overlay(old(disks)[inode], old(inners)[id].off, KeptPart(old(inners)[id], n))]
    {
      var b := inners[id];
      if b.off >= n {
        assert inners[id := b] == inners;
        assert disks[inode := disks[inode]] == disks;
      } else if End(b) <= n {
        assert KeptPart(b, n) == b.data;
        disks := disks[inode := Overlay(disks[inode], b.off, b.data)];
        MarkClean(id, b.(data := [], readValid := 0));
      } else {
        disks := disks[inode := Overlay(disks[inode], b.off, b.data[..n - b.off])];
        inners := inners[id := b.(readValid := 0)];
      }
    }

    /** flush_inode_pending_writes_before_truncate, when the inode accepts every write: before n
        the inode now agrees with the file, and what stays pending ends past n. */
    method FlushBefore(inode: nat, n: nat, ghost file: Bytes)
      requires Valid() && inode in disks && IsLogical(file, disks[inode], inners, inode)
      modifies this
      ensures Valid() && OthersKept(old(inners), inners, inode) && DisksKept(old(disks), disks, inode)
      ensures FlushedTo(file, n, disks[inode], inners, inode, {})
      ensures KeptPast(n, inners, inode, {})
    {
      var ids := PendingIds(inode);
      TailHasAll(ids, 0);
      FlushStarts(file, n, disks[inode], inners, inode, Tail(ids, 0));
      FlushAll(inode, n, ids, file);
    }

    method FlushAll(inode: nat, n: nat, ids: seq<nat>, ghost file: Bytes)
      requires Valid() && inode in disks
      requires forall a, b :: 0 <= a < b < |ids| ==> ids[a] != ids[b]
      requires FlushedTo(file, n, disks[inode], inners, inode, Tail(ids, 0))
      requires KeptPast(n, inners, inode, Tail(ids, 0))
      modifies this
      ensures Valid() && OthersKept(old(inners), inners, inode) && DisksKept(old(disks), disks, inode)
      ensures FlushedTo(file, n, disks[inode], inners, inode, {}) && KeptPast(n, inners, inode, {})
    {
      for k := 0 to |ids|
        invariant Valid() && OthersKept(old(inners), inners, inode) && DisksKept(old(disks), disks, inode)
        invariant FlushedTo(file, n, disks[inode], inners, inode, Tail(ids, k))
        invariant KeptPast(n, inners, inode, Tail(ids, k))
      {
        TailStep(ids, k);
        FlushTurn(inode, n, ids[k], file, Tail(ids, k));
      }
    }

    /** One turn of discard_inode_pending_writes_after_truncate. */
    method DiscardTurn(inode: nat, n: nat, id: nat)
      requires Valid()
      modifies this`inners, this`registry, this`count
      ensures Valid() && OthersKept(old(inners), inners, inode)
      ensures forall k :: Pending(inners, inode, k) <==>
        Pending(old(inners), inode, k) && (k == id ==> End(old(inners)[k]) <= n)
      ensures forall k :: Pending(inners, inode, k) ==> inners[k] == old(inners)[k]
    {
      if id !in inners {
        RemoveStale(id);
        return;
      }
      var b := inners[id];
      if b.inode != inode {
        return;
      }
      if !b.counted || b.data == [] {
        MarkClean(id, b);
        return;
      }
      if End(b) > n {
        MarkClean(id, b.(data := [], readValid := 0));
      }
    }

    /** discard_inode_pending_writes_after_truncate: no pending buffer ends past n. */
    method DiscardAfter(inode: nat, n: nat)
      requires Valid()
      modifies this`inners, this`registry, this`count
      ensures Valid() && OthersKept(old(inners), inners, inode)
      ensures forall k :: Pending(inners, inode, k) <==> Pending(old(inners), inode, k) && End(old(inners)[k]) <= n
      ensures forall k :: Pending(inners, inode, k) ==> inners[k] == old(inners)[k]
    {
      var ids := PendingIds(inode);
      for k := 0 to |ids|
        invariant Valid() && OthersKept(old(inners), inners, inode)
        invariant forall id :: Pending(inners, inode, id) <==>
          Pending(old(inners), inode, id) && (id in ids[..k] ==> End(old(inners)[id]) <= n)
        invariant forall id :: Pending(inners, inode, id) ==> inners[id] == old(inners)[id]
      {
        DiscardTurn(inode, n, ids[k]);
        assert ids[..k + 1] == ids[..k] + [ids[k]];
      }
    }

    /** The truncation of the inode itself: clear and rewrite the kept prefix, or append zeros in
        chunks, each of which the inode may take only in part. */
    method ResizeInode(inode: nat, n: nat)
      requires inode in disks
      modifies this`disks
      ensures DisksKept(old(disks), disks, inode) && disks[inode] == Resize(old(disks)[inode], n)
    {
      var oldLen := |disks[inode]|;
      if n == oldLen {
      } else if n == 0 {
        disks := disks[inode := []];
      } else if n < oldLen {
        var kept := SliceAt(disks[inode], 0, n);
        SliceMeaning(disks[inode], 0, n);
        OverlayMeaning([], 0, kept);
        SameBytes(Overlay([], 0, kept), kept);
        disks := disks[inode := Overlay([], 0, kept)];
      } else {
        AppendZeros(inode, n);
      }
    }

    method AppendZeros(inode: nat, n: nat)
      requires inode in disks && |disks[inode]| < n
      modifies this`disks
      ensures DisksKept(old(disks), disks, inode) && disks[inode] == Resize(old(disks)[inode], n)
    {
      var off := |disks[inode]|;
      while off < n
        invariant |old(disks)[inode]| <= off <= n
        invariant DisksKept(old(disks), disks, inode) && disks[inode] == Resize(old(disks)[inode], off)
      {
        var chunk := Min(CHUNK, n - off);
        var written: nat :| 1 <= written <= chunk;
        ZerosExtend(old(disks)[inode], off, written);
        disks := disks[inode := Overlay(disks[inode], off, Zeros(written))];
        off := off + written;
      }
    }

    /** truncate_regular_inode: whatever the file is before, afterwards it is that file cut or
        zero-extended to n, whatever number of buffers were pending; the dirty count still equals
        the registry's size, and no other inode is touched. */
    method Truncate(inode: nat, kind: Kind, n: nat, ghost file: Bytes) returns (r: Outcome)
      requires Valid() && inode in disks && IsLogical(file, disks[inode], inners, inode)
      modifies this
      ensures Valid() && OthersKept(old(inners), inners, inode) && DisksKept(old(disks), disks, inode)
      ensures r == (match kind case Directory => IsDirectory case Other => Invalid case Regular => Outcome.Done)
      ensures IsLogical(if kind.Regular? then Resize(file, n) else file, disks[inode], inners, inode)
    {
      if kind.Directory? {
        return IsDirectory;
      }
      if !kind.Regular? {
        return Invalid;
      }
      var visible := VisibleLen(inode);
      if n < visible {
        Shrink(inode, n, file);
      } else {
        VisibleCovers(visible, file, disks[inode], inners, registry, inode);
        Grown(file, n, disks[inode], inners, inode);
        ResizeInode(inode, n);
      }
      r := Outcome.Done;
    }

    /** The three phases of a truncate below the visible length. */
    method Shrink(inode: nat, n: nat, ghost file: Bytes)
      requires Valid() && inode in disks && IsLogical(file, disks[inode], inners, inode)
      modifies this
      ensures Valid() && OthersKept(old(inners), inners, inode) && DisksKept(old(disks), disks, inode)
      ensures IsLogical(Resize(file, n), disks[inode], inners, inode)
    {
      FlushBefore(inode, n, file);
      FlushEnds(file, n, disks[inode], inners, inode);
      ResizeInode(inode, n);
      DiscardAfter(inode, n);
      OnlyDisk(disks[inode], inners, inode);
    }
  }

  lemma OnlyDisk(disk: Bytes, inners: Inners, inode: nat)
    requires forall id :: !Pending(inners, inode, id)
    ensures IsLogical(disk, disk, inners, inode)
  {
  }

  lemma ZerosExtend(f: Bytes, off: nat, k: nat)
    requires |f| <= off
    ensures Overlay(Resize(f, off), off, Zeros(k)) == Resize(f, off + k)
  {
    OverlayMeaning(Resize(f, off), off, Zeros(k));
    forall i: nat
      ensures ByteAt(Overlay(Resize(f, off), off, Zeros(k)), i) == ByteAt(Resize(f, off + k), i)
    {
      ResizeMeaning(f, off, i);
      ResizeMeaning(f, off + k, i);
    }
    SameBytes(Overlay(Resize(f, off), off, Zeros(k)), Resize(f, off + k));
  }
}
