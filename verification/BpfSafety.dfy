/** What the loader promises about every run: theorems that tie the static checker and the
    map collector to the interpreter, with the maps changed by other tasks between any two
    instructions. */
module BpfSafety {
  import opened BpfIsa
  import opened BpfMaps
  import opened BpfVerifier
  import opened BpfRuntime

  // ----- runs -----

  /** What another task may do to a map file while the program runs. */
  datatype MapOp =
    | Updating(key: Bytes, value: Bytes, flags: u64)
    | Storing(key: Bytes, offset: nat, data: Bytes)

  datatype Event = Exec | Env(file: BpfMapFile, op: MapOp)

  datatype Config = Config(m: Machine, heap: Heap)

  ghost predicate ValidHeap(heap: Heap) {
    forall f :: f in heap ==> ValidMap(heap[f])
  }

  /** An operation that fails leaves the map as it was. */
  function ApplyOp(m: BpfMap, op: MapOp): BpfMap
    requires ValidMap(m)
  {
    var r := match op
      case Updating(key, value, flags) => Update(m, key, value, flags)
      case Storing(key, offset, data) => StoreBytes(m, key, offset, data);
    if r.Ok? then r.value else m
  }

  function EnvStep(heap: Heap, file: BpfMapFile, op: MapOp): Heap
    requires ValidHeap(heap)
  {
    if file in heap then heap[file := ApplyOp(heap[file], op)] else heap
  }

  /** The configuration after a history of events, if the program is still running then. */
  ghost function After(p: Prog, packet: Bytes, heap: Heap, events: seq<Event>): (r: Option<Config>)
    requires |packet| < TWO64 && ValidHeap(heap)
    ensures r.Some? ==> ValidHeap(r.value.heap)
  {
    if events == [] then Some(Config(InitMachine(packet), heap))
    else
      match After(p, packet, heap, events[..|events| - 1])
      case None => None
      case Some(c) =>
        match events[|events| - 1]
        case Env(f, op) =>
          EnvGrows(c.heap, f, op);
          Some(Config(c.m, EnvStep(c.heap, f, op)))
        case Exec =>
          StepGrows(p, packet, c.m, c.heap);
          var o := Step(p, packet, c.m, c.heap);
          if o.Next? then Some(Config(o.m, o.heap)) else None
  }

  function Execs(events: seq<Event>): nat {
    if events == [] then 0
    else Execs(events[..|events| - 1]) + if events[|events| - 1].Exec? then 1 else 0
  }

  // ----- maps only grow -----

  /** No file disappears, no file changes shape, no binding disappears. */
  ghost predicate Grows(heap: Heap, heap': Heap) {
    && heap.Keys == heap'.Keys
    && forall f :: f in heap ==> MapGrows(heap[f], heap'[f])
  }

  lemma ApplyGrows(m: BpfMap, op: MapOp)
    requires ValidMap(m)
    ensures MapGrows(m, ApplyOp(m, op))
  {
    match op {
      case Updating(key, value, flags) =>
        if Update(m, key, value, flags).Ok? {
          UpdateGrows(m, key, value, flags);
        }
      case Storing(key, offset, data) =>
        if StoreBytes(m, key, offset, data).Ok? {
          BpfMaps.StoreGrows(m, key, offset, data);
        }
    }
  }

  lemma GrowsRefl(heap: Heap)
    requires ValidHeap(heap)
    ensures Grows(heap, heap)
  {
  }

  lemma PutGrows(heap: Heap, file: BpfMapFile, m: BpfMap)
    requires ValidHeap(heap) && file in heap && MapGrows(heap[file], m)
    ensures ValidHeap(heap[file := m]) && Grows(heap, heap[file := m])
  {
    GrowsRefl(heap);
  }

  lemma EnvGrows(heap: Heap, file: BpfMapFile, op: MapOp)
    requires ValidHeap(heap)
    ensures ValidHeap(EnvStep(heap, file, op)) && Grows(heap, EnvStep(heap, file, op))
  {
    if file in heap {
      ApplyGrows(heap[file], op);
      PutGrows(heap, file, ApplyOp(heap[file], op));
    } else {
      GrowsRefl(heap);
    }
  }

  /** A turn of the program changes at most one file, and only by a store. */
  lemma StepGrows(p: Prog, packet: Bytes, m: Machine, heap: Heap)
    requires ValidHeap(heap)
    ensures var o := Step(p, packet, m, heap); o.Next? ==> ValidHeap(o.heap) && Grows(heap, o.heap)
  {
    GrowsRefl(heap);
    if m.pc < |p.insns| {
      var i := p.insns[m.pc];
      if IsMem(i, BPF_ST) {
        TurnStoreGrows(p, i, m, heap, ToU64(i.imm));
      } else if IsMem(i, BPF_STX) && Src(i) < MAX_REG {
        TurnStoreGrows(p, i, m, heap, AsU64(m.regs[Src(i)]));
      } else if !IsMem(i, BPF_STX) {
        OnlyStoresWrite(p, packet, m, heap);
      }
    }
  }

  lemma OnlyStoresWrite(p: Prog, packet: Bytes, m: Machine, heap: Heap)
    requires m.pc < |p.insns| && !IsMem(p.insns[m.pc], BPF_ST) && !IsMem(p.insns[m.pc], BPF_STX)
    ensures var o := Step(p, packet, m, heap); o.Next? ==> o.heap == heap
  {
  }

  lemma TurnStoreGrows(p: Prog, i: Insn, m: Machine, heap: Heap, v: u64)
    requires ValidHeap(heap)
    ensures var o := StepStore(p, i, m, heap, v); o.Next? ==> ValidHeap(o.heap) && Grows(heap, o.heap)
  {
    if StepStore(p, i, m, heap, v).Next? {
      StoreValueGrows(p, heap, m.stack, m.regs[Dst(i)], i.off, StoreData(v, Size(i)).value);
    }
  }

  lemma StoreValueGrows(p: Prog, heap: Heap, stack: Stack, v: Value, off: i16, data: Bytes)
    requires ValidHeap(heap) && StoreValue(p, heap, stack, v, off, data).Ok?
    ensures var heap' := StoreValue(p, heap, stack, v, off, data).value.1; ValidHeap(heap') && Grows(heap, heap')
  {
    if v.MapValuePtr? {
      MapStoreGrows(p, heap, v.map_fd, v.key, v.at + off, data);
    } else {
      GrowsRefl(heap);
    }
  }

  lemma MapStoreGrows(p: Prog, heap: Heap, fd: u32, key: Bytes, offset: nat, data: Bytes)
    requires ValidHeap(heap) && MapStore(p, heap, fd, key, offset, data).Ok?
    ensures var heap' := MapStore(p, heap, fd, key, offset, data).value; ValidHeap(heap') && Grows(heap, heap')
  {
    var file := p.handles[fd];
    BpfMaps.StoreGrows(heap[file], key, offset, data);
    PutGrows(heap, file, StoreBytes(heap[file], key, offset, data).value);
  }

  // ----- loaded programs -----

  /** What BPF_PROG_LOAD leaves behind: the checker accepted, then the collector resolved
      every map reference in the loader's file table. */
  ghost predicate Loaded(p: Prog, files: map<nat, File>) {
    Accepted(p.insns) && CollectFrom(p.insns, files, 0, map[]) == Ok(p.handles)
  }

  /** A register holds no dangling reference: handles are collected and hit pointers are bound. */
  ghost predicate Anchored(p: Prog, heap: Heap, v: Value) {
    match v
    case MapFd(fd) => fd in p.handles
    case MapValuePtr(fd, key, _) =>
      && fd in p.handles && p.handles[fd] in heap
      && SupportsElements(heap[p.handles[fd]])
      && |key| == heap[p.handles[fd]].keySize
      && key in Dict(heap[p.handles[fd]])
    case _ => true
  }

  ghost predicate Safe(p: Prog, c: Config) {
    && c.m.pc < |p.insns|
    && ValidHeap(c.heap)
    && p.handles.Values <= c.heap.Keys
    && forall r :: 0 <= r < 11 ==> Anchored(p, c.heap, c.m.regs[r])
  }

  lemma AnchoredGrows(p: Prog, heap: Heap, heap': Heap, v: Value)
    requires Grows(heap, heap') && Anchored(p, heap, v)
    ensures Anchored(p, heap', v)
  {
  }

  /** A map lddw that is executed was visited by the collector, jumps notwithstanding. */
  lemma ExecutedHandleCollected(p: Prog, files: map<nat, File>, pc: nat)
    requires Loaded(p, files) && pc < |p.insns| && IsMapLddw(p.insns[pc])
    ensures ToU32(p.insns[pc].imm) in p.handles
  {
    if !IsHead(p.insns, 0, pc) {
      SkippedSlot(p.insns, 0, InitKinds(), pc);
      assert false;
    }
    CollectsHeads(p.insns, files, 0, map[]);
  }

  /** A lookup hit yields a bound key. */
  lemma HitIsBound(p: Prog, m: Machine, heap: Heap)
    requires ValidHeap(heap) && p.handles.Values <= heap.Keys
    requires Anchored(p, heap, m.regs[1]) && CallLookup(p, m, heap).Ok?
    ensures Anchored(p, heap, CallLookup(p, m, heap).value)
  {
    var fd := m.regs[1].fd;
    var file := heap[p.handles[fd]];
    var key := StackKey(m.stack, m.regs[2], file.keySize).value;
    LookupReadsDict(file, key);
  }

  lemma SafeStep(p: Prog, files: map<nat, File>, packet: Bytes, c: Config)
    requires Loaded(p, files) && Safe(p, c) && Step(p, packet, c.m, c.heap).Next?
    ensures var o := Step(p, packet, c.m, c.heap); Safe(p, Config(o.m, o.heap))
  {
    var o := Step(p, packet, c.m, c.heap);
    StepProgress(p, packet, c.m, c.heap);
    StepGrows(p, packet, c.m, c.heap);
    var i := p.insns[c.m.pc];
    if IsMapLddw(i) {
      ExecutedHandleCollected(p, files, c.m.pc);
    }
    if Class(i) == BPF_JMP && Op(i) == BPF_CALL {
      HitIsBound(p, c.m, c.heap);
    }
    forall r | 0 <= r < 11
      ensures Anchored(p, o.heap, o.m.regs[r])
    {
      NewValue(p, packet, c, r);
      AnchoredGrows(p, c.heap, o.heap, o.m.regs[r]);
    }
  }

  /** Each register after a turn is an old register, a lookup result, a collected handle or
      a value without a reference. */
  lemma NewValue(p: Prog, packet: Bytes, c: Config, r: nat)
    requires Safe(p, c) && r < 11 && Step(p, packet, c.m, c.heap).Next?
    requires IsMapLddw(p.insns[c.m.pc]) ==> ToU32(p.insns[c.m.pc].imm) in p.handles
    requires Class(p.insns[c.m.pc]) == BPF_JMP && Op(p.insns[c.m.pc]) == BPF_CALL && CallLookup(p, c.m, c.heap).Ok?
      ==> Anchored(p, c.heap, CallLookup(p, c.m, c.heap).value)
    ensures Anchored(p, c.heap, Step(p, packet, c.m, c.heap).m.regs[r])
  {
    var i := p.insns[c.m.pc];
    assert Anchored(p, c.heap, c.m.regs[r]);
    if Class(i) == BPF_ALU || Class(i) == BPF_ALU64 {
      AluValue(p, i, c, r);
    }
  }

  lemma AluValue(p: Prog, i: Insn, c: Config, r: nat)
    requires Safe(p, c) && r < 11 && StepAlu(i, c.m, c.heap).Next?
    ensures Anchored(p, c.heap, StepAlu(i, c.m, c.heap).m.regs[r])
  {
    assert Anchored(p, c.heap, c.m.regs[r]);
    if Op(i) == BPF_MOV {
      if SrcIsReg(i) {
        assert Anchored(p, c.heap, c.m.regs[Src(i)]);
      }
    } else {
      AluResult(c.m.regs[Dst(i)], Op(i), Operand(i, c.m), Class(i) == BPF_ALU64);
    }
  }

  lemma AluResult(dst: Value, op: bv8, src: u64, is64: bool)
    requires ExecAlu(dst, op, src, is64).Ok?
    ensures var v := ExecAlu(dst, op, src, is64).value; v.Scalar? || v.StackPtr? || v.PacketPtr?
  {
  }

  /** A bound pointer always resolves to its entry; only the range can be wrong. */
  lemma BoundAccess(p: Prog, heap: Heap, v: Value)
    requires ValidHeap(heap) && v.MapValuePtr? && Anchored(p, heap, v)
    ensures WithMap(p, heap, v.map_fd) == Ok(heap[p.handles[v.map_fd]])
    ensures var m := heap[p.handles[v.map_fd]]; Lookup(m, v.key) == Ok(Some(Dict(m)[v.key]))
    ensures var m := heap[p.handles[v.map_fd]];
      forall offset: nat, data :: StoreBytes(m, v.key, offset, data).Err? ==>
        StoreBytes(m, v.key, offset, data).error == EACCES
  {
    var m := heap[p.handles[v.map_fd]];
    LookupReadsDict(m, v.key);
    if m.storage.Array? {
      ArrayKeys(m.storage.values, v.key);
    }
  }

  predicate Dangling(o: Outcome) {
    o == Fault(EBADF) || o == Fault(ENOENT)
  }

  lemma LoadNotDangling(p: Prog, packet: Bytes, i: Insn, c: Config)
    requires Safe(p, c) && Src(i) < MAX_REG
    ensures !Dangling(StepLoad(p, packet, i, c.m, c.heap))
  {
    SizeAlwaysValid(i);
    var v := c.m.regs[Src(i)];
    assert Anchored(p, c.heap, v);
    LoadBytesNotDangling(p, c.heap, c.m.stack, packet, v, i.off, SizeToLen(Size(i)).value);
  }

  lemma LoadBytesNotDangling(p: Prog, heap: Heap, stack: Stack, packet: Bytes, v: Value, off: i16, len: nat)
    requires ValidHeap(heap) && Anchored(p, heap, v)
    ensures var r := LoadBytes(p, heap, stack, packet, v, off, len); r.Err? ==> r.error != EBADF && r.error != ENOENT
  {
    if v.MapValuePtr? {
      BoundAccess(p, heap, v);
    }
  }

  lemma StoreNotDangling(p: Prog, i: Insn, c: Config, value: u64)
    requires Safe(p, c) && Dst(i) < MAX_REG
    ensures !Dangling(StepStore(p, i, c.m, c.heap, value))
  {
    SizeAlwaysValid(i);
    assert Anchored(p, c.heap, c.m.regs[Dst(i)]);
    StoreValueNotDangling(p, c.heap, c.m.stack, c.m.regs[Dst(i)], i.off, StoreData(value, Size(i)).value);
  }

  lemma StoreValueNotDangling(p: Prog, heap: Heap, stack: Stack, v: Value, off: i16, data: Bytes)
    requires ValidHeap(heap) && Anchored(p, heap, v)
    ensures var r := StoreValue(p, heap, stack, v, off, data); r.Err? ==> r.error != EBADF && r.error != ENOENT
  {
    if v.MapValuePtr? && InI64(v.at + off) && v.at + off >= 0 {
      MapStoreNotDangling(p, heap, v, v.at + off, data);
    }
  }

  lemma MapStoreNotDangling(p: Prog, heap: Heap, v: Value, offset: nat, data: Bytes)
    requires ValidHeap(heap) && v.MapValuePtr? && Anchored(p, heap, v)
    ensures var r := MapStore(p, heap, v.map_fd, v.key, offset, data); r.Ok? || r.error == EACCES
  {
    BoundAccess(p, heap, v);
  }

  lemma CallNotDangling(p: Prog, c: Config)
    requires Safe(p, c) && CallLookup(p, c.m, c.heap).Err?
    ensures CallLookup(p, c.m, c.heap).error != EBADF && CallLookup(p, c.m, c.heap).error != ENOENT
  {
    assert Anchored(p, c.heap, c.m.regs[1]);
  }

  /** No turn of a safe configuration reports an unknown handle or a missing entry. */
  lemma NoDanglingFault(p: Prog, packet: Bytes, c: Config)
    requires Accepted(p.insns) && Safe(p, c)
    ensures !Dangling(Step(p, packet, c.m, c.heap))
  {
    AcceptedGood(p.insns, c.m.pc);
    var i := p.insns[c.m.pc];
    if IsMem(i, BPF_LDX) {
      LoadNotDangling(p, packet, i, c);
    } else if IsMem(i, BPF_ST) {
      StoreNotDangling(p, i, c, ToU64(i.imm));
    } else if IsMem(i, BPF_STX) {
      StoreNotDangling(p, i, c, AsU64(c.m.regs[Src(i)]));
    } else {
      OtherNotDangling(p, packet, c);
    }
  }

  lemma OtherNotDangling(p: Prog, packet: Bytes, c: Config)
    requires Safe(p, c)
    requires var i := p.insns[c.m.pc]; !IsMem(i, BPF_LDX) && !IsMem(i, BPF_ST) && !IsMem(i, BPF_STX)
    ensures !Dangling(Step(p, packet, c.m, c.heap))
  {
    var i := p.insns[c.m.pc];
    if IsLddw(i) {
    } else if Class(i) == BPF_ALU || Class(i) == BPF_ALU64 {
      AluNotDangling(i, c.m, c.heap);
    } else if Class(i) == BPF_JMP && Op(i) == BPF_CALL {
      if CallLookup(p, c.m, c.heap).Err? {
        CallNotDangling(p, c);
      }
    }
  }

  lemma AluNotDangling(i: Insn, m: Machine, heap: Heap)
    ensures !Dangling(StepAlu(i, m, heap))
  {
  }

  /** Main theorem. After any history of a loaded program, over any packet, any initial maps
      and any interference with them: it has executed at most pc instructions and pc is inside
      the program, so it halts within the program's length; the next turn neither leaves an
      array nor runs off the end; if it finishes it does so at an EXIT or with an error; and
      that error is never an unknown handle or a missing entry. */
  lemma {:induction false} EveryRunIsSafe(p: Prog, files: map<nat, File>, packet: Bytes, heap: Heap, events: seq<Event>)
    requires |packet| < TWO64 && Loaded(p, files) && ValidHeap(heap) && p.handles.Values <= heap.Keys
    requires After(p, packet, heap, events).Some?
    ensures var c := After(p, packet, heap, events).value;
      && Safe(p, c)
      && Execs(events) <= c.m.pc < |p.insns|
      && var o := Step(p, packet, c.m, c.heap);
         && !o.Panic? && !o.FellOff? && !Dangling(o)
         && (o.Next? ==> o.m.pc > c.m.pc)
         && (o.Exit? ==> IsExit(p.insns[c.m.pc]))
  {
    var c := After(p, packet, heap, events).value;
    if events != [] {
      var before := events[..|events| - 1];
      EveryRunIsSafe(p, files, packet, heap, before);
      var b := After(p, packet, heap, before).value;
      match events[|events| - 1] {
        case Exec =>
          SafeStep(p, files, packet, b);
        case Env(f, op) =>
          EnvGrows(b.heap, f, op);
          forall r | 0 <= r < 11 ensures Anchored(p, c.heap, c.m.regs[r]) {
            AnchoredGrows(p, b.heap, c.heap, b.m.regs[r]);
          }
      }
    }
    StepProgress(p, packet, c.m, c.heap);
    NoDanglingFault(p, packet, c);
  }

  /** The bounds every map keeps through any run of programs and system calls. */
  lemma {:induction false} MapsKeepBounds(p: Prog, packet: Bytes, heap: Heap, events: seq<Event>)
    requires |packet| < TWO64 && ValidHeap(heap) && After(p, packet, heap, events).Some?
    ensures var c := After(p, packet, heap, events).value; ValidHeap(c.heap) && Grows(heap, c.heap)
  {
    if events != [] {
      var before := events[..|events| - 1];
      MapsKeepBounds(p, packet, heap, before);
      var b := After(p, packet, heap, before).value;
      match events[|events| - 1] {
        case Exec => StepGrows(p, packet, b.m, b.heap);
        case Env(f, op) => EnvGrows(b.heap, f, op);
      }
    }
  }
}
