/** The interpreter loop as it runs: a register array, a stack buffer and shared map files
    updated in place (src/bpf/runtime.rs), and the packet verdict built on it (src/bpf/prog.rs). */
module BpfExecute {
  import opened BpfIsa
  import opened BpfMaps
  import opened BpfVerifier
  import opened BpfRuntime
  import opened BpfSafety

  /** The contents of the map files a program refers to. Two handles may name one file. */
  ghost function HeapOf(handles: Handles): Heap
    reads handles.Values
  {
    map f | f in handles.Values :: f.View()
  }

  /** The whole uninterrupted run of an accepted program: how it ends and what the maps hold then. */
  ghost function Run(p: Prog, packet: Bytes, m: Machine, heap: Heap): (Outcome, Heap)
    requires Accepted(p.insns) && m.pc < |p.insns|
    decreases |p.insns| - m.pc
  {
    StepProgress(p, packet, m, heap);
    var o := Step(p, packet, m, heap);
    if o.Next? then Run(p, packet, o.m, o.heap) else (o, heap)
  }

  /** The value execute returns for a finished run. */
  function Returned(o: Outcome): Result<u64>
    requires o.Exit? || o.Fault?
  {
    if o.Exit? then Ok(o.v) else Err(o.e)
  }

  lemma {:induction false} RunEnds(p: Prog, packet: Bytes, m: Machine, heap: Heap)
    requires Accepted(p.insns) && m.pc < |p.insns|
    ensures var o := Run(p, packet, m, heap).0; o.Exit? || o.Fault?
    decreases |p.insns| - m.pc
  {
    StepProgress(p, packet, m, heap);
    var o := Step(p, packet, m, heap);
    if o.Next? {
      RunEnds(p, packet, o.m, o.heap);
    }
  }

  method StoreInPlace(p: Prog, stack: array<u8>, dst: Value, off: i16, data: Bytes) returns (r: Result<()>)
    requires stack.Length == 512
    modifies stack, p.handles.Values
    ensures match old(StoreValue(p, HeapOf(p.handles), stack[..], dst, off, data))
            case Ok((st, heap)) => r == Ok(()) && stack[..] == st && HeapOf(p.handles) == heap
            case Err(e) => r == Err(e) && stack[..] == old(stack[..]) && HeapOf(p.handles) == old(HeapOf(p.handles))
  {
    match dst {
      case FramePtr =>
        var start :- StackIndex(0, off, |data|);
        CopyInto(stack, start, data);
      case StackPtr(base) =>
        var start :- StackIndex(base, off, |data|);
        CopyInto(stack, start, data);
      case MapValuePtr(fd, key, at) =>
        if !InI64(at + off) {
          return Err(EINVAL);
        }
        if at + off < 0 {
          return Err(EACCES);
        }
        if fd !in p.handles {
          return Err(EBADF);
        }
        var file := p.handles[fd];
        var stored := file.Store(key, at + off, data);
        if stored.Err? {
          return Err(stored.error);
        }
      case _ =>
        return Err(EINVAL);
    }
    return Ok(());
  }

  method CopyInto(stack: array<u8>, start: nat, data: Bytes)
    requires start + |data| <= stack.Length
    modifies stack
    ensures stack[..] == Splice(old(stack[..]), start, data)
  {
    forall k | 0 <= k < |data| {
      stack[start + k] := data[k];
    }
  }

  method LookupHelper(p: Prog, stack: array<u8>, r1: Value, r2: Value) returns (r: Result<Value>)
    requires stack.Length == 512
    ensures forall m: Machine, heap: Heap ::
      m.regs[1] == r1 && m.regs[2] == r2 && m.stack == stack[..] && heap == HeapOf(p.handles) ==>
        r == CallLookup(p, m, heap)
  {
    if !r1.MapFd? {
      return Err(EINVAL);
    }
    var fd := r1.fd;
    if fd !in p.handles {
      return Err(EBADF);
    }
    var file := p.handles[fd];
    var key :- StackKey(stack[..], r2, file.keySize);
    var found := file.LookupElem(key);
    if found.Err? {
      return Err(found.error);
    }
    return Ok(if found.value.Some? then MapValuePtr(fd, key, 0) else Null);
  }

  method MapBytes(p: Prog, fd: u32, key: Bytes, offset: nat, len: nat) returns (r: Result<Bytes>)
    ensures r == MapLoad(p, HeapOf(p.handles), fd, key, offset, len)
  {
    if fd !in p.handles {
      return Err(EBADF);
    }
    var found := p.handles[fd].LookupElem(key);
    if found.Err? {
      return Err(found.error);
    }
    if found.value.None? {
      return Err(ENOENT);
    }
    if offset + len > |found.value.value| {
      return Err(EACCES);
    }
    return Ok(found.value.value[offset..offset + len]);
  }

  method LoadInPlace(p: Prog, stack: array<u8>, packet: Bytes, src: Value, off: i16, len: nat)
    returns (r: Result<Bytes>)
    requires stack.Length == 512
    ensures r == LoadBytes(p, HeapOf(p.handles), stack[..], packet, src, off, len)
  {
    match src {
      case FramePtr =>
        var start :- StackIndex(0, off, len);
        return Ok(stack[start..start + len]);
      case StackPtr(base) =>
        var start :- StackIndex(base, off, len);
        return Ok(stack[start..start + len]);
      case MapValuePtr(fd, key, at) =>
        if !InI64(at + off) {
          return Err(EINVAL);
        }
        if at + off < 0 {
          return Err(EACCES);
        }
        r := MapBytes(p, fd, key, at + off, len);
      case PacketPtr(offset) =>
        if !InI64(offset + off) {
          return Err(EINVAL);
        }
        if offset + off < 0 || offset + off + len > |packet| {
          return Err(EACCES);
        }
        return Ok(packet[offset + off..offset + off + len]);
      case _ =>
        return Err(EINVAL);
    }
  }

  /** A load, store or call: the turns that touch the stack or the maps. */
  method MemoryTurn(p: Prog, packet: Bytes, pc: nat, regs: array<Value>, stack: array<u8>) returns (r: Result<()>)
    requires Accepted(p.insns) && pc < |p.insns|
    requires regs.Length == 11 && stack.Length == 512
    requires var i := p.insns[pc];
      IsMem(i, BPF_LDX) || IsMem(i, BPF_ST) || IsMem(i, BPF_STX) || (Class(i) == BPF_JMP && Op(i) == BPF_CALL)
    modifies regs, stack, p.handles.Values
    ensures match old(Step(p, packet, Machine(pc, regs[..], stack[..]), HeapOf(p.handles)))
            case Next(m, heap) => r == Ok(()) && m == Machine(pc + 1, regs[..], stack[..]) && heap == HeapOf(p.handles)
            case Fault(e) => r == Err(e) && HeapOf(p.handles) == old(HeapOf(p.handles))
            case _ => false
  {
    AcceptedGood(p.insns, pc);
    var i := p.insns[pc];
    SizeAlwaysValid(i);
    var dst, src := Dst(i), Src(i);
    if IsMem(i, BPF_LDX) {
      var loaded := LoadInPlace(p, stack, packet, regs[src], i.off, SizeToLen(Size(i)).value);
      if loaded.Err? {
        return Err(loaded.error);
      }
      WidthBound(loaded.value);
      regs[dst] := Scalar(FromLe(loaded.value));
    } else if IsMem(i, BPF_ST) || IsMem(i, BPF_STX) {
      var v := if IsMem(i, BPF_ST) then ToU64(i.imm) else AsU64(regs[src]);
      var data := LeBytes(v, SizeToLen(Size(i)).value);
      var stored := StoreInPlace(p, stack, regs[dst], i.off, data);
      if stored.Err? {
        return Err(stored.error);
      }
    } else {
      if i.imm != FUNC_MAP_LOOKUP_ELEM {
        return Err(ENOSYS);
      }
      var found := LookupHelper(p, stack, regs[1], regs[2]);
      assert found == CallLookup(p, Machine(pc, regs[..], stack[..]), HeapOf(p.handles));
      if found.Err? {
        return Err(found.error);
      }
      regs[0] := found.value;
    }
    return Ok(());
  }

  /** How a turn leaves the loop body: at a new pc, or out of execute. */
  datatype Turn = Goto(pc: nat) | Return(r: Result<u64>)

  /** lddw, arithmetic, conditional jumps and EXIT: the turns that touch registers only. */
  method RegisterTurn(p: Prog, packet: Bytes, pc: nat, regs: array<Value>, ghost stack: Stack, ghost heap: Heap)
    returns (t: Turn)
    requires Accepted(p.insns) && pc < |p.insns| && regs.Length == 11
    requires var i := p.insns[pc];
      !IsMem(i, BPF_LDX) && !IsMem(i, BPF_ST) && !IsMem(i, BPF_STX) && !(Class(i) == BPF_JMP && Op(i) == BPF_CALL)
    modifies regs
    ensures match old(Step(p, packet, Machine(pc, regs[..], stack), heap))
            case Next(m, heap') => t == Goto(m.pc) && m == Machine(m.pc, regs[..], stack) && heap' == heap
            case Exit(v) => t == Return(Ok(v))
            case Fault(e) => t == Return(Err(e))
            case _ => false
  {
    AcceptedGood(p.insns, pc);
    var i := p.insns[pc];
    var dst, src, cls, op := Dst(i), Src(i), Class(i), Op(i);
    if IsLddw(i) {
      var lo, hi := ToU32(i.imm), ToU32(p.insns[pc + 1].imm);
      regs[dst] := if src == PSEUDO_MAP_FD then MapFd(lo) else Scalar(lo + hi * TWO32);
      return Goto(pc + 2);
    }
    if cls == BPF_ALU || cls == BPF_ALU64 {
      t := AluTurn(i, pc, regs, stack, heap);
      return;
    } else if cls == BPF_JMP {
      if op == BPF_EXIT {
        return Return(Ok(AsU64(regs[0])));
      } else if op == BPF_JEQ || op == BPF_JNE {
        var lhs := AsU64(regs[dst]);
        var rhs := if SrcIsReg(i) then AsU64(regs[src]) else ToU64(i.imm);
        var taken := if op == BPF_JEQ then lhs == rhs else lhs != rhs;
        if taken {
          return Goto(JumpTarget(pc, i));
        }
      } else {
        return Return(Err(ENOSYS));
      }
    } else {
      return Return(Err(ENOSYS));
    }
    return Goto(pc + 1);
  }

  /** The arithmetic cases. */
  method AluTurn(i: Insn, pc: nat, regs: array<Value>, ghost stack: Stack, ghost heap: Heap) returns (t: Turn)
    requires regs.Length == 11 && Dst(i) < 11 && Src(i) < 11
    modifies regs
    ensures match old(StepAlu(i, Machine(pc, regs[..], stack), heap))
            case Next(m, heap') => t == Goto(m.pc) && m == Machine(m.pc, regs[..], stack) && heap' == heap
            case Exit(v) => t == Return(Ok(v))
            case Fault(e) => t == Return(Err(e))
            case _ => false
  {
    var dst, src, op := Dst(i), Src(i), Op(i);
    var is64 := Class(i) == BPF_ALU64;
    if op == BPF_MOV {
      regs[dst] := if SrcIsReg(i) then regs[src] else if is64 then Scalar(ToU64(i.imm)) else Scalar(ToU32(i.imm));
    } else {
      var operand := if SrcIsReg(i) then AsU64(regs[src]) else ToU64(i.imm);
      var result := ExecAlu(regs[dst], op, operand, is64);
      if result.Err? {
        return Return(Err(result.error));
      }
      regs[dst] := result.value;
    }
    return Goto(pc + 1);
  }

  /** The body of the interpreter loop. */
  method OneTurn(p: Prog, packet: Bytes, pc: nat, regs: array<Value>, stack: array<u8>) returns (t: Turn)
    requires Accepted(p.insns) && pc < |p.insns|
    requires regs.Length == 11 && stack.Length == 512
    modifies regs, stack, p.handles.Values
    ensures match old(Step(p, packet, Machine(pc, regs[..], stack[..]), HeapOf(p.handles)))
            case Next(m, heap) =>
              t == Goto(m.pc) && m == Machine(m.pc, regs[..], stack[..]) && heap == HeapOf(p.handles)
            case Exit(v) => t == Return(Ok(v)) && HeapOf(p.handles) == old(HeapOf(p.handles))
            case Fault(e) => t == Return(Err(e)) && HeapOf(p.handles) == old(HeapOf(p.handles))
            case _ => false
  {
    var i := p.insns[pc];
    if IsMem(i, BPF_LDX) || IsMem(i, BPF_ST) || IsMem(i, BPF_STX) || (Class(i) == BPF_JMP && Op(i) == BPF_CALL) {
      var done := MemoryTurn(p, packet, pc, regs, stack);
      return if done.Err? then Return(Err(done.error)) else Goto(pc + 1);
    } else {
      t := RegisterTurn(p, packet, pc, regs, stack[..], HeapOf(p.handles));
    }
  }

  /** execute: run an accepted program on a packet. */
  method Execute(p: Prog, packet: Bytes) returns (r: Result<u64>)
    requires Accepted(p.insns) && |packet| < TWO64
    modifies p.handles.Values
    ensures var (o, heap) := old(Run(p, packet, InitMachine(packet), HeapOf(p.handles)));
      && (o.Exit? || o.Fault?)
      && r == Returned(o)
      && HeapOf(p.handles) == heap
  {
    var regs := new Value[11](_ => Scalar(0));
    regs[1] := PacketPtr(0);
    regs[2] := Scalar(|packet|);
    regs[10] := FramePtr;
    var stack: array<u8> := new u8[512](_ => 0);
    var pc := 0;
    ghost var end := Run(p, packet, InitMachine(packet), HeapOf(p.handles));
    RunEnds(p, packet, InitMachine(packet), HeapOf(p.handles));
    assert Machine(pc, regs[..], stack[..]) == InitMachine(packet);
    while pc < |p.insns|
      invariant pc < |p.insns|
      invariant Run(p, packet, Machine(pc, regs[..], stack[..]), HeapOf(p.handles)) == end
      decreases |p.insns| - pc
    {
      RunUnfolds(p, packet, Machine(pc, regs[..], stack[..]), HeapOf(p.handles));
      var turn := OneTurn(p, packet, pc, regs, stack);
      if turn.Return? {
        return turn.r;
      }
      pc := turn.pc;
    }
    assert false;
  }

  lemma RunUnfolds(p: Prog, packet: Bytes, m: Machine, heap: Heap)
    requires Accepted(p.insns) && m.pc < |p.insns|
    ensures var o := Step(p, packet, m, heap);
      && (o.Next? || o.Exit? || o.Fault?)
      && (o.Next? ==> m.pc < o.m.pc < |p.insns| && Run(p, packet, m, heap) == Run(p, packet, o.m, o.heap))
      && (!o.Next? ==> Run(p, packet, m, heap) == (o, heap))
  {
    StepProgress(p, packet, m, heap);
  }

  /** filter_len: None drops the packet, Some(n) keeps its first n bytes. */
  method FilterLen(p: Prog, packet: Bytes) returns (r: Option<nat>)
    requires Accepted(p.insns) && |packet| < TWO64
    modifies p.handles.Values
    ensures var o := old(Run(p, packet, InitMachine(packet), HeapOf(p.handles))).0;
      match r
      case None => o.Fault? || o == Exit(0)
      case Some(n) => o.Exit? && o.v != 0 && n <= |packet| && (n == o.v || (n == |packet| && n < o.v))
  {
    var result := Execute(p, packet);
    if result.Err? || result.value == 0 {
      return None;
    }
    return Some(if result.value <= |packet| then result.value else |packet|);
  }

  const BPF_PROG_TYPE_SOCKET_FILTER: int := 1
  const BPF_MAXINSNS: int := 4096

  /** BPF_PROG_LOAD after the copy from user space: check first, then collect the maps. */
  method ProgLoad(progType: nat, insns: seq<Insn>, files: map<nat, File>) returns (r: Result<Prog>)
    ensures r.Ok? <==>
      && progType == BPF_PROG_TYPE_SOCKET_FILTER && 0 < |insns| <= BPF_MAXINSNS
      && Accepted(insns) && CollectFrom(insns, files, 0, map[]).Ok?
    ensures r.Ok? ==> r.value.insns == insns && Loaded(r.value, files)
    ensures r.Err? ==>
      r.error == (if progType != BPF_PROG_TYPE_SOCKET_FILTER || |insns| == 0 then EINVAL
                  else if |insns| > BPF_MAXINSNS then E2BIG
                  else if !Accepted(insns) then EACCES
                  else CollectFrom(insns, files, 0, map[]).error)
  {
    if progType != BPF_PROG_TYPE_SOCKET_FILTER || |insns| == 0 {
      return Err(EINVAL);
    }
    if |insns| > BPF_MAXINSNS {
      return Err(E2BIG);
    }
    var verdict := VerifyProgram(insns);
    if verdict.Reject? {
      return Err(EACCES);
    }
    var handles := CollectProgMapRefs(insns, files);
    if handles.Err? {
      return Err(handles.error);
    }
    return Ok(Prog(insns, handles.value));
  }

  /** The uninterrupted run of a loaded program ends at an EXIT or with an error, never one for
      an unknown handle or a missing entry, and leaves the maps valid. */
  lemma {:induction false} RunIsSafe(p: Prog, files: map<nat, File>, packet: Bytes, c: Config)
    requires Loaded(p, files) && Safe(p, c)
    ensures var (o, heap) := Run(p, packet, c.m, c.heap);
      (o.Exit? || o.Fault?) && !Dangling(o) && ValidHeap(heap) && heap.Keys == c.heap.Keys
    decreases |p.insns| - c.m.pc
  {
    RunUnfolds(p, packet, c.m, c.heap);
    NoDanglingFault(p, packet, c);
    var o := Step(p, packet, c.m, c.heap);
    if o.Next? {
      SafeStep(p, files, packet, c);
      StepGrows(p, packet, c.m, c.heap);
      RunIsSafe(p, files, packet, Config(o.m, o.heap));
    }
  }
}
