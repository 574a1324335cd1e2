/** The exclusion between writing and executing a file (src/fs/inode.rs): the per-inode counters,
    the write-open state of open files, and exec reservations. */
module TextAccess {

  type Key = (nat, nat)    // device and inode number
  datatype Option<+T> = None | Some(value: T)
  datatype Access = Access(writeOpen: nat, executing: nat)
  type Table = map<Key, Access>

  predicate ValidKey(k: Key) { k.0 != 0 || k.1 != 0 }

  function At(t: Table, k: Key): Access { if k in t then t[k] else Access(0, 0) }

  function Pruned(t: Table, k: Key): Table {
    if k in t && t[k] == Access(0, 0) then t - {k} else t
  }

  function AddWriter(t: Table, k: Key): Table { t[k := At(t, k).(writeOpen := At(t, k).writeOpen + 1)] }

  function AddExec(t: Table, k: Key): Table { t[k := At(t, k).(executing := At(t, k).executing + 1)] }

  function DropWriter(t: Table, k: Key): Table {
    if k in t && t[k].writeOpen > 0 then Pruned(t[k := t[k].(writeOpen := t[k].writeOpen - 1)], k) else Pruned(t, k)
  }

  function DropExec(t: Table, k: Key): Table {
    if k in t && t[k].executing > 0 then Pruned(t[k := t[k].(executing := t[k].executing - 1)], k) else Pruned(t, k)
  }

  /** INODE_TEXT_ACCESS. A refused call reports the error ETXTBSY. */
  class InodeTextAccess {
    var access: Table

    constructor ()
      ensures access == map[]
    {
      access := map[];
    }

    method Prune(k: Key)
      modifies this
      ensures access == Pruned(old(access), k)
    {
      if k in access && access[k].writeOpen == 0 && access[k].executing == 0 {
        access := access - {k};
      }
    }

    method RegisterWriteOpen(k: Key) returns (ok: bool)
      modifies this
      ensures ok <==> !ValidKey(k) || At(old(access), k).executing == 0
      ensures access == if ok && ValidKey(k) then AddWriter(old(access), k) else old(access)
    {
      if k == (0, 0) {
        return true;
      }
      var state := At(access, k);
      if state.executing > 0 {
        return false;
      }
      access := access[k := state.(writeOpen := state.writeOpen + 1)];
      return true;
    }

    method UnregisterWriteOpen(k: Key)
      modifies this
      ensures access == if ValidKey(k) then DropWriter(old(access), k) else old(access)
    {
      if !ValidKey(k) {
        return;
      }
      if k in access && access[k].writeOpen > 0 {
        access := access[k := access[k].(writeOpen := access[k].writeOpen - 1)];
      }
      Prune(k);
    }

    /** register_executing_inode, which checks nothing. */
    method RegisterExecuting(k: Key)
      modifies this
      ensures access == if ValidKey(k) then AddExec(old(access), k) else old(access)
    {
      if !ValidKey(k) {
        return;
      }
      var state := At(access, k);
      access := access[k := state.(executing := state.executing + 1)];
    }

    /** try_register_executing_inode. The two looks at the pending writes of the inode are inputs. */
    method TryRegisterExecuting(k: Key, pendingFirst: bool, pendingSecond: bool) returns (ok: bool)
      modifies this
      ensures ok <==> !ValidKey(k) || (!pendingFirst && !pendingSecond && At(old(access), k).writeOpen == 0)
      ensures access == if ok && ValidKey(k) then AddExec(old(access), k) else old(access)
    {
      if !ValidKey(k) {
        return true;
      }
      if pendingFirst {
        return false;
      }
      if k in access && access[k].writeOpen > 0 {
        return false;
      }
      if pendingSecond {
        return false;
      }
      RegisterExecuting(k);
      return true;
    }

    method UnregisterExecuting(k: Key)
      modifies this
      ensures access == if ValidKey(k) then DropExec(old(access), k) else old(access)
    {
      if !ValidKey(k) {
        return;
      }
      if k in access && access[k].executing > 0 {
        access := access[k := access[k].(executing := access[k].executing - 1)];
      }
      Prune(k);
    }
  }

  // ----- open files -----

  /** The WriteOpenState of an open file: the key it holds, if any, and its descriptor count. */
  datatype Open = Open(key: Option<Key>, fdRefs: nat)

  function Installed(o: Open): Open { if o.key.Some? then o.(fdRefs := o.fdRefs + 1) else o }

  /** The state after a descriptor is closed and the key to release, taken at most once. */
  function Closed(o: Open): (Open, Option<Key>) {
    if o.fdRefs == 0 then (o, None)
    else if o.fdRefs == 1 then (Open(None, 0), o.key)
    else (o.(fdRefs := o.fdRefs - 1), None)
  }

  /** register_for_inode: only a writable regular file takes a key, and it is refused while the
      inode executes. */
  method RegisterForInode(access: InodeTextAccess, writable: bool, isFile: bool, k: Key) returns (r: Option<Open>)
    modifies access
    ensures r.None? <==> writable && isFile && ValidKey(k) && At(old(access.access), k).executing > 0
    ensures r.Some? ==> r.value == Open(if writable && isFile then Some(k) else None, 0)
    ensures access.access ==
            if r.Some? && writable && isFile && ValidKey(k) then AddWriter(old(access.access), k)
            else old(access.access)
  {
    if writable && isFile {
      var ok := access.RegisterWriteOpen(k);
      if !ok {
        return None;
      }
      return Some(Open(Some(k), 0));
    }
    return Some(Open(None, 0));
  }

  /** The reservation an exec holds on the inode it loads. */
  class ExecInodeReservation {
    var key: Option<Key>

    constructor (k: Key)
      ensures key == if ValidKey(k) then Some(k) else None
    {
      key := if ValidKey(k) then Some(k) else None;
    }

    method Drop(access: InodeTextAccess)
      modifies this, access
      ensures key == None
      ensures access.access ==
              if old(key).Some? && ValidKey(old(key).value) then DropExec(old(access.access), old(key).value)
              else old(access.access)
    {
      if key.Some? {
        var k := key.value;
        key := None;
        access.UnregisterExecuting(k);
      }
    }
  }

  class OpenFile {
    var key: Option<Key>
    var fdRefs: nat

    ghost function View(): Open
      reads this
    {
      Open(key, fdRefs)
    }

    constructor (o: Open)
      ensures View() == o
    {
      key, fdRefs := o.key, o.fdRefs;
    }

    method OnFdInstall()
      modifies this
      ensures View() == Installed(old(View()))
    {
      if key.Some? {
        fdRefs := fdRefs + 1;
      }
    }

    /** The locked part of on_fd_close: what is left to unregister is returned. */
    method OnFdClose() returns (release: Option<Key>)
      modifies this
      ensures (View(), release) == Closed(old(View()))
    {
      if fdRefs == 0 {
        return None;
      }
      fdRefs := fdRefs - 1;
      if fdRefs == 0 {
        release := key;
        key := None;
      } else {
        release := None;
      }
    }

    /** The locked part of drop. */
    method Drop() returns (release: Option<Key>)
      modifies this
      ensures View() == Open(None, 0) && release == old(View()).key
    {
      fdRefs := 0;
      release := key;
      key := None;
    }
  }

  // ----- whole runs -----

  /** Writers hold a key through an open file; executions through a reservation or a process. A
      key taken from its holder is due until the separate unregister step runs. The last two
      fields count, per key, the holds granted and the holds released so far. */
  datatype Side = Side(held: map<nat, Key>, due: multiset<Key>, granted: multiset<Key>, released: multiset<Key>)
  datatype Sys = Sys(table: Table, opens: map<nat, Open>, writers: Side, execs: Side)

  datatype Event =
    | OpenFileAt(id: nat, writable: bool, isFile: bool, k: Key)
    | Install(id: nat)
    | Close(id: nat)
    | DropFile(id: nat)
    | ReleaseWriter(k: Key)
    | Reserve(h: nat, k: Key, pending: bool)
    | Inherit(h: nat, k: Key)
    | DropHolder(h: nat)
    | ReleaseExec(k: Key)

  function Grant(s: Side, id: nat, k: Key): Side {
    s.(held := s.held[id := k], granted := s.granted + multiset{k})
  }

  /** The holder gives its key up; the unregister step is now due. */
  function Take(s: Side, id: nat): Side {
    if id in s.held then s.(held := s.held - {id}, due := s.due + multiset{s.held[id]}) else s
  }

  function Release(s: Side, k: Key): Side {
    s.(due := s.due - multiset{k}, released := s.released + multiset{k})
  }

  /** A holder of a valid key is recorded; the key (0, 0) is never counted. */
  function Step(s: Sys, e: Event): Sys {
    match e
    case OpenFileAt(id, writable, isFile, k) =>
      if id in s.opens then s
      else if !writable || !isFile then s.(opens := s.opens[id := Open(None, 0)])
      else if !ValidKey(k) then s.(opens := s.opens[id := Open(Some(k), 0)])
      else if At(s.table, k).executing > 0 then s
      else Sys(AddWriter(s.table, k), s.opens[id := Open(Some(k), 0)], Grant(s.writers, id, k), s.execs)
    case Install(id) => if id in s.opens then s.(opens := s.opens[id := Installed(s.opens[id])]) else s
    case Close(id) =>
      if id !in s.opens then s
      else
        var (o, release) := Closed(s.opens[id]);
        s.(opens := s.opens[id := o], writers := if release.Some? then Take(s.writers, id) else s.writers)
    case DropFile(id) => s.(opens := s.opens - {id}, writers := Take(s.writers, id))
    case ReleaseWriter(k) =>
      if k in s.writers.due then s.(table := DropWriter(s.table, k), writers := Release(s.writers, k)) else s
    case Reserve(h, k, pending) =>
      if h in s.execs.held || !ValidKey(k) || pending || At(s.table, k).writeOpen > 0 then s
      else s.(table := AddExec(s.table, k), execs := Grant(s.execs, h, k))
    case Inherit(h, k) =>
      if h in s.execs.held || !ValidKey(k) || At(s.table, k).executing == 0 then s
      else s.(table := AddExec(s.table, k), execs := Grant(s.execs, h, k))
    case DropHolder(h) => s.(execs := Take(s.execs, h))
    case ReleaseExec(k) =>
      if k in s.execs.due then s.(table := DropExec(s.table, k), execs := Release(s.execs, k)) else s
  }

  function Run(s: Sys, events: seq<Event>): Sys {
    if events == [] then s else Step(Run(s, events[..|events| - 1]), events[|events| - 1])
  }

  const NoHolders := Side(map[], multiset{}, multiset{}, multiset{})
  const Fresh := Sys(map[], map[], NoHolders, NoHolders)

  function Holders(held: map<nat, Key>, k: Key): set<nat> { set id | id in held && held[id] == k }

  /** A counter agrees with its live and due holders, and every grant is live, due or released. */
  ghost predicate Counts(s: Side, count: nat, k: Key) {
    && count == |Holders(s.held, k)| + s.due[k]
    && s.granted[k] == |Holders(s.held, k)| + s.due[k] + s.released[k]
  }

  /** An open file holds its valid key exactly while it is recorded as a writer. */
  ghost predicate FilesHold(opens: map<nat, Open>, held: map<nat, Key>) {
    && (forall id :: id in held ==> id in opens && opens[id].key == Some(held[id]))
    && (forall id :: id in opens && opens[id].key.Some? && ValidKey(opens[id].key.value) ==> id in held)
    && (forall id :: id in opens && opens[id].key.None? ==> opens[id].fdRefs == 0)
  }

  /** No entry outlives its counts, and the key (0, 0) has none. */
  predicate Tidy(t: Table, k: Key) {
    (k in t ==> t[k] != Access(0, 0)) && (!ValidKey(k) ==> k !in t)
  }

  ghost predicate KeyInv(s: Sys, k: Key) {
    && Counts(s.writers, At(s.table, k).writeOpen, k)
    && Counts(s.execs, At(s.table, k).executing, k)
    && (At(s.table, k).writeOpen == 0 || At(s.table, k).executing == 0)
    && Tidy(s.table, k)
  }

  ghost predicate Inv(s: Sys) {
    && FilesHold(s.opens, s.writers.held)
    && forall k :: KeyInv(s, k)
  }

  // Each lemma follows one kind of change through the counting of one key.

  lemma GrantCounts(s: Side, count: nat, id: nat, j: Key, k: Key)
    requires Counts(s, count, k) && id !in s.held
    ensures Counts(Grant(s, id, j), if j == k then count + 1 else count, k)
  {
    var before, after := Holders(s.held, k), Holders(Grant(s, id, j).held, k);
    assert after == if j == k then before + {id} else before;
  }

  lemma TakeCounts(s: Side, count: nat, id: nat, k: Key)
    requires Counts(s, count, k)
    ensures Counts(Take(s, id), count, k)
  {
    if id in s.held {
      var before, after := Holders(s.held, k), Holders(s.held - {id}, k);
      assert after == before - {id};
      assert id in before <==> s.held[id] == k;
    }
  }

  lemma ReleaseCounts(s: Side, count: nat, j: Key, k: Key)
    requires Counts(s, count, k) && j in s.due && (j == k ==> count > 0)
    ensures Counts(Release(s, j), if j == k then count - 1 else count, k)
  {
  }

  /** A release finds its counter above zero, so the guard against going below never acts. */
  lemma ReleaseFindsHolder(s: Sys, k: Key)
    requires Inv(s)
    ensures k in s.writers.due ==> At(s.table, k).writeOpen > 0
    ensures k in s.execs.due ==> At(s.table, k).executing > 0
  {
    assert KeyInv(s, k);
  }

  lemma WriterGranted(s: Sys, id: nat, j: Key, k: Key)
    requires KeyInv(s, k) && KeyInv(s, j) && id !in s.writers.held && ValidKey(j) && At(s.table, j).executing == 0
    ensures KeyInv(s.(table := AddWriter(s.table, j), writers := Grant(s.writers, id, j)), k)
  {
    GrantCounts(s.writers, At(s.table, k).writeOpen, id, j, k);
  }

  lemma ExecGranted(s: Sys, h: nat, j: Key, k: Key)
    requires KeyInv(s, k) && h !in s.execs.held && ValidKey(j) && At(s.table, j).writeOpen == 0
    ensures KeyInv(s.(table := AddExec(s.table, j), execs := Grant(s.execs, h, j)), k)
  {
    GrantCounts(s.execs, At(s.table, k).executing, h, j, k);
  }

  lemma WriterReleased(s: Sys, j: Key, k: Key)
    requires KeyInv(s, k) && KeyInv(s, j) && j in s.writers.due
    ensures KeyInv(s.(table := DropWriter(s.table, j), writers := Release(s.writers, j)), k)
  {
    ReleaseCounts(s.writers, At(s.table, k).writeOpen, j, k);
  }

  lemma ExecReleased(s: Sys, j: Key, k: Key)
    requires KeyInv(s, k) && KeyInv(s, j) && j in s.execs.due
    ensures KeyInv(s.(table := DropExec(s.table, j), execs := Release(s.execs, j)), k)
  {
    ReleaseCounts(s.execs, At(s.table, k).executing, j, k);
  }

  /** The counters depend on the open files only through the recorded holders. */
  lemma WriterTaken(s: Sys, opens: map<nat, Open>, id: nat, k: Key)
    requires KeyInv(s, k)
    ensures KeyInv(s.(opens := opens), k) && KeyInv(s.(opens := opens, writers := Take(s.writers, id)), k)
  {
    TakeCounts(s.writers, At(s.table, k).writeOpen, id, k);
  }

  lemma ExecTaken(s: Sys, h: nat, k: Key)
    requires KeyInv(s, k)
    ensures KeyInv(s.(execs := Take(s.execs, h)), k)
  {
    TakeCounts(s.execs, At(s.table, k).executing, h, k);
  }

  lemma OpenKey(s: Sys, e: Event, k: Key)
    requires e.OpenFileAt? && KeyInv(s, k) && KeyInv(s, e.k) && FilesHold(s.opens, s.writers.held)
    ensures KeyInv(Step(s, e), k)
  {
    if e.id in s.opens {
    } else if !e.writable || !e.isFile || !ValidKey(e.k) {
      WriterTaken(s, Step(s, e).opens, e.id, k);
    } else if At(s.table, e.k).executing == 0 {
      WriterGranted(s, e.id, e.k, k);
      var granted := s.(table := AddWriter(s.table, e.k), writers := Grant(s.writers, e.id, e.k));
      WriterTaken(granted, Step(s, e).opens, e.id, k);
    }
  }

  lemma FileKey(s: Sys, e: Event, k: Key)
    requires KeyInv(s, k) && (e.Install? || e.Close? || e.DropFile?)
    ensures KeyInv(Step(s, e), k)
  {
    WriterTaken(s, Step(s, e).opens, e.id, k);
  }

  lemma ExecKey(s: Sys, e: Event, k: Key)
    requires KeyInv(s, k) && (e.Reserve? || e.Inherit?) && KeyInv(s, e.k)
    ensures KeyInv(Step(s, e), k)
  {
    if e.h !in s.execs.held && ValidKey(e.k) && At(s.table, e.k).writeOpen == 0 {
      ExecGranted(s, e.h, e.k, k);
    }
  }

  lemma StepKey(s: Sys, e: Event, k: Key)
    requires Inv(s)
    ensures KeyInv(Step(s, e), k)
  {
    assert KeyInv(s, k);
    match e
    case OpenFileAt(_, _, _, j) =>
      assert KeyInv(s, j);
      OpenKey(s, e, k);
    case Install(_) => FileKey(s, e, k);
    case Close(_) => FileKey(s, e, k);
    case DropFile(_) => FileKey(s, e, k);
    case ReleaseWriter(j) =>
      assert KeyInv(s, j);
      if j in s.writers.due {
        WriterReleased(s, j, k);
      }
    case Reserve(_, j, _) =>
      assert KeyInv(s, j);
      ExecKey(s, e, k);
    case Inherit(_, j) =>
      assert KeyInv(s, j);
      ExecKey(s, e, k);
    case DropHolder(h) => ExecTaken(s, h, k);
    case ReleaseExec(j) =>
      assert KeyInv(s, j);
      if j in s.execs.due {
        ExecReleased(s, j, k);
      }
  }

  lemma SetFile(opens: map<nat, Open>, held: map<nat, Key>, id: nat, o: Open)
    requires FilesHold(opens, held)
    requires o.key.None? ==> o.fdRefs == 0
    requires id in held ==> o.key == Some(held[id])
    requires o.key.Some? && ValidKey(o.key.value) ==> id in held
    ensures FilesHold(opens[id := o], held)
  {
  }

  lemma ClearFile(opens: map<nat, Open>, held: map<nat, Key>, id: nat)
    requires FilesHold(opens, held)
    ensures FilesHold(opens - {id}, held - {id}) && FilesHold(opens[id := Open(None, 0)], held - {id})
  {
  }

  lemma AddFile(opens: map<nat, Open>, held: map<nat, Key>, id: nat, k: Key)
    requires FilesHold(opens, held) && id !in opens
    ensures FilesHold(opens[id := Open(Some(k), 0)], held[id := k])
  {
  }

  lemma StepFiles(s: Sys, e: Event)
    requires FilesHold(s.opens, s.writers.held)
    ensures FilesHold(Step(s, e).opens, Step(s, e).writers.held)
  {
    var opens, held := s.opens, s.writers.held;
    match e
    case OpenFileAt(id, writable, isFile, k) =>
      if id !in opens {
        SetFile(opens, held, id, Open(None, 0));
        if !ValidKey(k) {
          SetFile(opens, held, id, Open(Some(k), 0));
        }
        AddFile(opens, held, id, k);
      }
    case Install(id) =>
      if id in opens {
        SetFile(opens, held, id, Installed(opens[id]));
      }
    case Close(id) =>
      if id in opens {
        CloseFile(s, id);
      }
    case DropFile(id) =>
      ClearFile(opens, held, id);
      assert held - {id} == Take(s.writers, id).held;
    case _ =>
  }

  lemma CloseFile(s: Sys, id: nat)
    requires FilesHold(s.opens, s.writers.held) && id in s.opens
    ensures FilesHold(Step(s, Close(id)).opens, Step(s, Close(id)).writers.held)
  {
    var (o, release) := Closed(s.opens[id]);
    if release.Some? {
      ClearFile(s.opens, s.writers.held, id);
      assert s.writers.held - {id} == Take(s.writers, id).held;
    } else {
      SetFile(s.opens, s.writers.held, id, o);
    }
  }

  lemma StepInv(s: Sys, e: Event)
    requires Inv(s)
    ensures Inv(Step(s, e))
  {
    StepFiles(s, e);
    forall k
      ensures KeyInv(Step(s, e), k)
    {
      StepKey(s, e, k);
    }
  }

  /** Text-busy exclusion over every run: no inode has both writers and executions counted, every
      counter equals its live and due holders, and every granted hold is live, due or released. */
  lemma {:induction false} EveryRun(events: seq<Event>)
    ensures Inv(Run(Fresh, events))
  {
    if events == [] {
      forall k
        ensures KeyInv(Fresh, k)
      {
        assert Holders(map[], k) == {};
      }
    } else {
      EveryRun(events[..|events| - 1]);
      StepInv(Run(Fresh, events[..|events| - 1]), events[|events| - 1]);
    }
  }

  /** A live writer keeps executions out, and a live execution keeps writers out. */
  lemma HoldersExclude(events: seq<Event>, id: nat, h: nat, k: Key)
    ensures
      var s := Run(Fresh, events);
      && (id in s.writers.held && s.writers.held[id] == k ==> h !in s.execs.held || s.execs.held[h] != k)
      && (id in s.writers.held && s.writers.held[id] == k ==> Step(s, Reserve(h, k, false)) == s)
      && (h in s.execs.held && s.execs.held[h] == k && ValidKey(k) ==> Step(s, OpenFileAt(id, true, true, k)) == s)
  {
    EveryRun(events);
    var s := Run(Fresh, events);
    assert KeyInv(s, k);
    if id in s.writers.held && s.writers.held[id] == k {
      assert id in Holders(s.writers.held, k);
    }
    if h in s.execs.held && s.execs.held[h] == k {
      assert h in Holders(s.execs.held, k);
    }
  }

  // ----- a key is held as long as descriptors are open -----

  /** The history of one open file, as the descriptor table sees it: the key its opening asked
      for, how many of its descriptors are open, and whether the last one has been closed. */
  datatype Life = Life(key: Option<Key>, open: nat, emptied: bool)

  /** What an event adds to the history of file id; `isOpen` says that the file is open after it. */
  function NextLife(life: Option<Life>, e: Event, id: nat, isOpen: bool): Option<Life> {
    match e
    case OpenFileAt(i, writable, isFile, k) =>
      if i != id || life.Some? || !isOpen then life
      else Some(Life(if writable && isFile then Some(k) else None, 0, false))
    case Install(i) =>
      if i != id || life.None? then life else Some(life.value.(open := life.value.open + 1))
    case Close(i) =>
      if i != id || life.None? || life.value.open == 0 then life
      else Some(Life(life.value.key, life.value.open - 1, life.value.emptied || life.value.open == 1))
    case DropFile(i) => if i == id then None else life
    case _ => life
  }

  /** The history of file id over a run; None while there is no such file. */
  function LifeOf(events: seq<Event>, id: nat): Option<Life> {
    if events == [] then None
    else
      var n := |events| - 1;
      NextLife(LifeOf(events[..n], id), events[n], id, id in Run(Fresh, events).opens)
  }

  /** The file still has the key it was opened with: its last descriptor was never closed. */
  predicate Keeps(life: Option<Life>, k: Key) {
    life.Some? && life.value.key == Some(k) && !life.value.emptied
  }

  /** The write-open state of a file with this history. */
  predicate StateOf(life: Option<Life>, opens: map<nat, Open>, id: nat) {
    && (id in opens <==> life.Some?)
    && (life.Some? ==>
          opens[id] == (if life.value.key.None? || life.value.emptied then Open(None, 0)
                        else Open(life.value.key, life.value.open)))
  }

  lemma NextState(life: Option<Life>, s: Sys, e: Event, id: nat)
    requires StateOf(life, s.opens, id)
    ensures var s' := Step(s, e); StateOf(NextLife(life, e, id, id in s'.opens), s'.opens, id)
  {
  }

  lemma {:induction false} LifeState(events: seq<Event>, id: nat)
    ensures StateOf(LifeOf(events, id), Run(Fresh, events).opens, id)
  {
    if events != [] {
      var n := |events| - 1;
      LifeState(events[..n], id);
      NextState(LifeOf(events[..n], id), Run(Fresh, events[..n]), events[n], id);
    }
  }

  /** Main theorem: over every run a file is a counted writer of a key exactly when it was opened
      for writing with that valid key, has not been dropped, and has not had its last descriptor
      closed. Then no execution of that inode is admitted. */
  lemma KeyHeldWhileOpen(events: seq<Event>, id: nat, k: Key)
    ensures
      var s := Run(Fresh, events);
      && (id in s.writers.held && s.writers.held[id] == k <==> Keeps(LifeOf(events, id), k) && ValidKey(k))
      && (Keeps(LifeOf(events, id), k) && ValidKey(k) ==> forall h :: Step(s, Reserve(h, k, false)) == s)
  {
    EveryRun(events);
    LifeState(events, id);
    HeldByLife(Run(Fresh, events), LifeOf(events, id), id, k);
  }

  lemma HeldByLife(s: Sys, life: Option<Life>, id: nat, k: Key)
    requires FilesHold(s.opens, s.writers.held) && KeyInv(s, k) && StateOf(life, s.opens, id)
    ensures id in s.writers.held && s.writers.held[id] == k <==> Keeps(life, k) && ValidKey(k)
    ensures Keeps(life, k) && ValidKey(k) ==> forall h :: Step(s, Reserve(h, k, false)) == s
  {
    if id in s.writers.held && s.writers.held[id] == k {
      assert id in Holders(s.writers.held, k);
      InvalidUncounted(s, k);
    }
  }

  lemma InvalidUncounted(s: Sys, k: Key)
    requires KeyInv(s, k) && Holders(s.writers.held, k) != {}
    ensures ValidKey(k) && At(s.table, k).writeOpen > 0
  {
    assert |Holders(s.writers.held, k)| > 0;
  }

  /** A writer's key goes at the close of its last descriptor or at its drop, and at no other
      event. */
  lemma KeyLeavesAtLastClose(events: seq<Event>, e: Event, id: nat)
    requires id in Run(Fresh, events).writers.held
    ensures
      id !in Run(Fresh, events + [e]).writers.held <==>
        e == DropFile(id) || (e == Close(id) && LifeOf(events, id).Some? && LifeOf(events, id).value.open == 1)
  {
    var k := Run(Fresh, events).writers.held[id];
    assert (events + [e])[..|events|] == events;
    KeyHeldWhileOpen(events, id, k);
    KeyHeldWhileOpen(events + [e], id, k);
    var after := Run(Fresh, events + [e]).writers.held;
    if id in after {
      KeyHeldWhileOpen(events + [e], id, after[id]);
    }
  }

  /** A descriptor installed after the last one was closed brings no key back: the file has an open
      descriptor for writing and is not counted. */
  lemma LateInstallUncounted()
    ensures
      var events := [OpenFileAt(0, true, true, (1, 1)), Install(0), Close(0), Install(0)];
      && LifeOf(events, 0) == Some(Life(Some((1, 1)), 1, true))
      && 0 !in Run(Fresh, events).writers.held
  {
    var e := [OpenFileAt(0, true, true, (1, 1)), Install(0), Close(0), Install(0)];
    assert e[..3][..2] == e[..2] && e[..2][..1] == e[..1] && e[..1][..0] == [];
    assert LifeOf(e[..1], 0) == Some(Life(Some((1, 1)), 0, false)) by {
      assert Run(Fresh, e[..1]) == Step(Run(Fresh, []), e[0]);
    }
    assert LifeOf(e[..2], 0) == Some(Life(Some((1, 1)), 1, false));
    assert LifeOf(e[..3], 0) == Some(Life(Some((1, 1)), 0, true));
    EveryRun(e);
    LifeState(e, 0);
  }

  /** Who is let in, over every run: an execution exactly when the inode has no pending writes and
      no writer is live or due; a writer exactly when no execution is live or due. */
  lemma AdmittedExactly(events: seq<Event>, id: nat, h: nat, k: Key, pending: bool)
    requires ValidKey(k)
    ensures
      var s := Run(Fresh, events);
      && (h !in s.execs.held ==>
            (h in Step(s, Reserve(h, k, pending)).execs.held <==>
              !pending && Holders(s.writers.held, k) == {} && k !in s.writers.due))
      && (id !in s.opens ==>
            (id in Step(s, OpenFileAt(id, true, true, k)).writers.held <==>
              Holders(s.execs.held, k) == {} && k !in s.execs.due))
  {
    EveryRun(events);
    var s := Run(Fresh, events);
    assert KeyInv(s, k);
  }

  /** Once every holder is gone and nothing is due, every grant has been released exactly once
      and the table is empty. */
  lemma AllReleased(events: seq<Event>, k: Key)
    requires
      var s := Run(Fresh, events);
      && s.writers.held == map[] && s.execs.held == map[]
      && s.writers.due == multiset{} && s.execs.due == multiset{}
    ensures
      var s := Run(Fresh, events);
      && s.writers.granted[k] == s.writers.released[k] && s.execs.granted[k] == s.execs.released[k]
      && k !in s.table
  {
    EveryRun(events);
    var s := Run(Fresh, events);
    assert KeyInv(s, k);
    assert Holders(map[], k) == {};
  }

  /** The unchecked registration keeps the exclusion exactly when no writer is counted. An inode
      that executes already has none, so there it is safe. */
  lemma UncheckedKeepsExclusion(events: seq<Event>, k: Key)
    ensures
      var s := Run(Fresh, events);
      var t := AddExec(s.table, k);
      && (At(t, k).writeOpen == 0 || At(t, k).executing == 0 <==> At(s.table, k).writeOpen == 0)
      && (At(s.table, k).executing > 0 ==> At(t, k).writeOpen == 0)
  {
    EveryRun(events);
    assert KeyInv(Run(Fresh, events), k);
  }

  /** A run in which it fails: a writer opens the file and the unchecked registration counts an
      execution beside it. */
  lemma UncheckedBreaksExclusion()
    ensures
      var s := Run(Fresh, [OpenFileAt(0, true, true, (1, 1))]);
      var t := AddExec(s.table, (1, 1));
      At(t, (1, 1)).writeOpen > 0 && At(t, (1, 1)).executing > 0
  {
    var open := OpenFileAt(0, true, true, (1, 1));
    assert [open][..0] == [];
    assert Run(Fresh, [open]) == Step(Run(Fresh, []), open);
  }
}
