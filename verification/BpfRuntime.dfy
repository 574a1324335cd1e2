/** The BPF interpreter (src/bpf/runtime.rs) over the map accessors of src/bpf/prog.rs:
    first as a step function on values, then as the loop that runs it in place. */
module BpfRuntime {
  import opened BpfIsa
  import opened BpfMaps
  import opened BpfVerifier

  /** A tagged register value. */
  datatype Value =
    | Scalar(v: u64)
    | Null
    | MapFd(fd: u32)
    | FramePtr
    | StackPtr(base: i64)
    | MapValuePtr(map_fd: u32, key: Bytes, at: i64)
    | PacketPtr(offset: i64)

  function AsU64(x: Value): u64 {
    match x
    case Scalar(v) => v
    case Null => 0
    case MapFd(fd) => fd
    case FramePtr => 0
    case StackPtr(base) => ToU64(base)
    case MapValuePtr(_, _, _) => 1
    case PacketPtr(offset) => ToU64(offset)
  }

  datatype Prog = Prog(insns: seq<Insn>, handles: Handles)

  /** The contents of all map files, as seen between two lock sections. */
  type Heap = map<BpfMapFile, BpfMap>

  type Regs = rs: seq<Value> | |rs| == 11 witness seq(11, _ => Null)
  type Stack = st: Bytes | |st| == 512 witness seq(512, _ => 0)

  datatype Machine = Machine(pc: nat, regs: Regs, stack: Stack)

  /** What one turn of the interpreter loop does. Panic is an index outside an array;
      FellOff is the loop ending without an EXIT. */
  datatype Outcome =
    | Next(m: Machine, heap: Heap)
    | Exit(v: u64)
    | FellOff(v: u64)
    | Fault(e: Errno)
    | Panic

  function InitMachine(packet: Bytes): Machine
    requires |packet| < TWO64
  {
    Machine(0,
            seq(11, i => if i == 1 then PacketPtr(0) else if i == 2 then Scalar(|packet|)
                         else if i == 10 then FramePtr else Scalar(0)),
            seq(512, _ => 0))
  }

  // ----- arithmetic -----

  function AluPointer(dst: Value, op: bv8, src: u64): Result<Value>
    requires dst.FramePtr? || dst.StackPtr? || dst.PacketPtr?
  {
    var cur := if dst.FramePtr? then 0 else if dst.StackPtr? then dst.base else dst.offset;
    var s := AsI64(src);
    if op == BPF_ADD then
      Ok(if dst.PacketPtr? then PacketPtr(WrapI64(cur + s)) else StackPtr(WrapI64(cur + s)))
    else if op == BPF_SUB then
      Ok(if dst.PacketPtr? then PacketPtr(WrapI64(cur - s)) else StackPtr(WrapI64(cur - s)))
    else if op == BPF_MOV then Ok(Scalar(src))
    else Err(ENOSYS)
  }

  function Alu64(cur: u64, op: bv8, src: u64): Result<u64> {
    if op == BPF_ADD then Ok(ToU64(cur + src))
    else if op == BPF_SUB then Ok(ToU64(cur - src))
    else if op == BPF_LSH then Ok(ToU64(cur * Pow2(src % 64)))
    else if op == BPF_RSH then ShiftBound(cur, src % 64); Ok(cur / Pow2(src % 64))
    else if op == BPF_MOV then Ok(src)
    else Err(ENOSYS)
  }

  function Alu32(cur: u64, op: bv8, src: u64): Result<u64> {
    var dst32, src32 := ToU32(cur), ToU32(src);
    if op == BPF_DIV then
      if src32 == 0 then Ok(0) else Div32Bound(dst32, src32); Ok(dst32 / src32)
    else if op == BPF_MOD then
      if src32 == 0 then Ok(dst32) else Ok(dst32 % src32)
    else if op == BPF_SUB then Ok(ToU32(dst32 - src32))
    else if op == BPF_RSH then ShiftBound(dst32, src32 % 32); Ok(dst32 / Pow2(src32 % 32))
    else if op == BPF_MOV then Ok(src32)
    else Err(ENOSYS)
  }

  lemma ShiftBound(x: nat, n: nat)
    ensures 0 <= x / Pow2(n) <= x
  {
    Div32Bound(x, Pow2(n));
  }

  lemma Div32Bound(x: nat, d: nat)
    requires d > 0
    ensures 0 <= x / d <= x
  {
    DivStep(x / d, d);
  }

  lemma DivStep(q: nat, d: nat)
    requires d > 0
    ensures q <= d * q
  {
  }

  function ExecAlu(dst: Value, op: bv8, src: u64, is64: bool): Result<Value> {
    match dst
    case FramePtr => AluPointer(dst, op, src)
    case StackPtr(_) => AluPointer(dst, op, src)
    case PacketPtr(_) => AluPointer(dst, op, src)
    case MapValuePtr(_, _, _) => Err(EACCES)
    case _ =>
      var v :- if is64 then Alu64(AsU64(dst), op, src) else Alu32(AsU64(dst), op, src);
      Ok(Scalar(v))
  }

  // ----- memory -----

  /** The stack index of base + off, or EFAULT when [start, start + len) leaves the stack. */
  function StackIndex(base: i64, off: i16, len: nat): (r: Result<nat>)
    ensures r.Ok? <==> 0 <= STACK_SIZE + base + off && STACK_SIZE + base + off + len <= STACK_SIZE
    ensures r.Ok? ==> r.value == STACK_SIZE + base + off
    ensures r.Err? ==> r.error == EFAULT
  {
    if !InI64(STACK_SIZE + base) || !InI64(STACK_SIZE + base + off) then Err(EFAULT)
    else
      var start := STACK_SIZE + base + off;
      if !InI64(start + len) || start < 0 || start + len < 0 || start + len > STACK_SIZE then Err(EFAULT)
      else Ok(start)
  }

  function WithMap(p: Prog, heap: Heap, fd: u32): Result<BpfMap> {
    if fd in p.handles && p.handles[fd] in heap then Ok(heap[p.handles[fd]]) else Err(EBADF)
  }

  function MapLoad(p: Prog, heap: Heap, fd: u32, key: Bytes, offset: nat, len: nat): Result<Bytes> {
    var m :- WithMap(p, heap, fd);
    var found :- Lookup(m, key);
    if found.None? then Err(ENOENT)
    else if offset + len > |found.value| then Err(EACCES)
    else Ok(found.value[offset..offset + len])
  }

  function MapStore(p: Prog, heap: Heap, fd: u32, key: Bytes, offset: nat, data: Bytes): Result<Heap> {
    var m :- WithMap(p, heap, fd);
    var m' :- StoreBytes(m, key, offset, data);
    Ok(heap[p.handles[fd] := m'])
  }

  function LoadBytes(p: Prog, heap: Heap, stack: Stack, packet: Bytes, src: Value, off: i16, len: nat)
    : (r: Result<Bytes>)
    ensures r.Ok? ==> |r.value| == len
  {
    match src
    case FramePtr =>
      var start :- StackIndex(0, off, len);
      Ok(stack[start..start + len])
    case StackPtr(base) =>
      var start :- StackIndex(base, off, len);
      Ok(stack[start..start + len])
    case MapValuePtr(fd, key, at) =>
      if !InI64(at + off) then Err(EINVAL)
      else if at + off < 0 then Err(EACCES)
      else MapLoad(p, heap, fd, key, at + off, len)
    case PacketPtr(offset) =>
      if !InI64(offset + off) then Err(EINVAL)
      else if offset + off < 0 then Err(EACCES)
      else if offset + off + len > |packet| then Err(EACCES)
      else Ok(packet[offset + off..offset + off + len])
    case _ => Err(EINVAL)
  }

  /** load_value: width first, then the pointer. */
  function LoadValue(p: Prog, heap: Heap, stack: Stack, packet: Bytes, src: Value, off: i16, size: bv8): Result<u64> {
    var len :- SizeToLen(size);
    var bytes :- LoadBytes(p, heap, stack, packet, src, off, len);
    WidthBound(bytes);
    Ok(FromLe(bytes))
  }

  lemma WidthBound(b: Bytes)
    requires |b| <= 8
    ensures FromLe(b) < TWO64
  {
    FromLeBound(b);
    PowMono(|b|, 8);
    assert Pow256(8) == TWO64 by {
      assert Pow256(4) == 0x1_0000_0000;
      assert Pow256(6) == 0x1_0000_0000_0000;
    }
  }

  lemma {:induction false} PowMono(a: nat, b: nat)
    requires a <= b
    ensures Pow256(a) <= Pow256(b)
    decreases b
  {
    if a < b {
      PowMono(a, b - 1);
    }
  }

  /** The bytes an ST or STX writes: the low bytes of the value, little-endian. */
  function StoreData(v: u64, size: bv8): Result<Bytes> {
    var len :- SizeToLen(size);
    Ok(LeBytes(v, len))
  }

  function StoreValue(p: Prog, heap: Heap, stack: Stack, dst: Value, off: i16, data: Bytes): Result<(Stack, Heap)> {
    match dst
    case FramePtr =>
      var start :- StackIndex(0, off, |data|);
      Ok((Splice(stack, start, data), heap))
    case StackPtr(base) =>
      var start :- StackIndex(base, off, |data|);
      Ok((Splice(stack, start, data), heap))
    case MapValuePtr(fd, key, at) =>
      if !InI64(at + off) then Err(EINVAL)
      else if at + off < 0 then Err(EACCES)
      else
        var heap' :- MapStore(p, heap, fd, key, at + off, data);
        Ok((stack, heap'))
    case _ => Err(EINVAL)
  }

  function StackKey(stack: Stack, reg: Value, len: nat): Result<Bytes> {
    match reg
    case FramePtr =>
      var start :- StackIndex(0, 0, len);
      Ok(stack[start..start + len])
    case StackPtr(base) =>
      var start :- StackIndex(base, 0, len);
      Ok(stack[start..start + len])
    case _ => Err(EINVAL)
  }

  // ----- one turn of the loop -----

  /** The registers a two-operand instruction indexes exist. */
  predicate OperandsExist(i: Insn) {
    Dst(i) < MAX_REG && (SrcIsReg(i) ==> Src(i) < MAX_REG)
  }

  function Operand(i: Insn, m: Machine): u64
    requires OperandsExist(i)
  {
    if SrcIsReg(i) then AsU64(m.regs[Src(i)]) else ToU64(i.imm)
  }

  /** The conditional jump at pc goes to its target. */
  predicate Taken(i: Insn, m: Machine)
    requires OperandsExist(i)
  {
    IsCondJump(i) && ((AsU64(m.regs[Dst(i)]) == Operand(i, m)) <==> Op(i) == BPF_JEQ)
  }

  function Continue(m: Machine, regs: Regs, stack: Stack, heap: Heap): Outcome {
    Next(Machine(m.pc + 1, regs, stack), heap)
  }

  function StepLddw(p: Prog, m: Machine, heap: Heap): Outcome
    requires m.pc < |p.insns|
  {
    var i := p.insns[m.pc];
    if m.pc + 1 >= |p.insns| then Fault(EINVAL)
    else if Dst(i) >= MAX_REG then Panic
    else
      var lo, hi := ToU32(i.imm), ToU32(p.insns[m.pc + 1].imm);
      var v := if Src(i) == PSEUDO_MAP_FD then MapFd(lo) else Scalar(lo + hi * TWO32);
      Next(Machine(m.pc + 2, m.regs[Dst(i) := v], m.stack), heap)
  }

  function StepLoad(p: Prog, packet: Bytes, i: Insn, m: Machine, heap: Heap): Outcome {
    if Src(i) >= MAX_REG then Panic
    else match LoadValue(p, heap, m.stack, packet, m.regs[Src(i)], i.off, Size(i))
      case Err(e) => Fault(e)
      case Ok(v) =>
        if Dst(i) >= MAX_REG then Panic
        else Continue(m, m.regs[Dst(i) := Scalar(v)], m.stack, heap)
  }

  function StepStore(p: Prog, i: Insn, m: Machine, heap: Heap, v: u64): Outcome {
    match StoreData(v, Size(i))
    case Err(e) => Fault(e)
    case Ok(data) =>
      if Dst(i) >= MAX_REG then Panic
      else match StoreValue(p, heap, m.stack, m.regs[Dst(i)], i.off, data)
        case Err(e) => Fault(e)
        case Ok((stack, heap')) => Continue(m, m.regs, stack, heap')
  }

  function StepAlu(i: Insn, m: Machine, heap: Heap): Outcome {
    var is64 := Class(i) == BPF_ALU64;
    if !OperandsExist(i) then Panic
    else if Op(i) == BPF_MOV then
      var v := if SrcIsReg(i) then m.regs[Src(i)]
               else if is64 then Scalar(ToU64(i.imm))
               else Scalar(ToU32(i.imm));
      Continue(m, m.regs[Dst(i) := v], m.stack, heap)
    else
      match ExecAlu(m.regs[Dst(i)], Op(i), Operand(i, m), is64)
      case Err(e) => Fault(e)
      case Ok(v) => Continue(m, m.regs[Dst(i) := v], m.stack, heap)
  }

  function CallLookup(p: Prog, m: Machine, heap: Heap): Result<Value> {
    if !m.regs[1].MapFd? then Err(EINVAL)
    else
      var fd := m.regs[1].fd;
      var file :- WithMap(p, heap, fd);
      var key :- StackKey(m.stack, m.regs[2], file.keySize);
      var found :- Lookup(file, key);
      Ok(if found.Some? then MapValuePtr(fd, key, 0) else Null)
  }

  function StepJmp(p: Prog, m: Machine, heap: Heap): Outcome
    requires m.pc < |p.insns|
  {
    var i := p.insns[m.pc];
    if Op(i) == BPF_CALL then
      if i.imm != FUNC_MAP_LOOKUP_ELEM then Fault(ENOSYS)
      else match CallLookup(p, m, heap)
        case Err(e) => Fault(e)
        case Ok(v) => Continue(m, m.regs[0 := v], m.stack, heap)
    else if Op(i) == BPF_EXIT then Exit(AsU64(m.regs[0]))
    else if Op(i) == BPF_JEQ || Op(i) == BPF_JNE then
      if !OperandsExist(i) then Panic
      else if !Taken(i, m) then Continue(m, m.regs, m.stack, heap)
      // the source casts a negative target to a huge index, which ends the loop
      else if JumpTarget(m.pc, i) < 0 then FellOff(AsU64(m.regs[0]))
      else Next(m.(pc := JumpTarget(m.pc, i)), heap)
    else Fault(ENOSYS)
  }

  /** One turn of the loop, for any program at all: a program that was not checked can index
      a register that does not exist, jump backwards or run off the end. */
  function Step(p: Prog, packet: Bytes, m: Machine, heap: Heap): Outcome {
    if m.pc >= |p.insns| then FellOff(AsU64(m.regs[0]))
    else
      var i := p.insns[m.pc];
      if IsLddw(i) then StepLddw(p, m, heap)
      else if IsMem(i, BPF_LDX) then StepLoad(p, packet, i, m, heap)
      else if IsMem(i, BPF_ST) then StepStore(p, i, m, heap, ToU64(i.imm))
      else if IsMem(i, BPF_STX) then
        if Src(i) >= MAX_REG then Panic else StepStore(p, i, m, heap, AsU64(m.regs[Src(i)]))
      else if Class(i) == BPF_ALU || Class(i) == BPF_ALU64 then StepAlu(i, m, heap)
      else if Class(i) == BPF_JMP then StepJmp(p, m, heap)
      else Fault(ENOSYS)
  }

  /** In an accepted program every turn moves forward inside the program, ends at an EXIT or
      reports an error: no index leaves an array and the loop never runs off the end. */
  lemma StepProgress(p: Prog, packet: Bytes, m: Machine, heap: Heap)
    requires Accepted(p.insns) && m.pc < |p.insns|
    ensures var o := Step(p, packet, m, heap);
      && !o.Panic? && !o.FellOff?
      && (o.Next? ==> m.pc < o.m.pc < |p.insns|)
      && (o.Exit? ==> IsExit(p.insns[m.pc]))
  {
    AcceptedGood(p.insns, m.pc);
    if IsExit(p.insns[m.pc]) {
      ExitEnds(p, packet, m, heap);
    }
  }

  lemma ExitEnds(p: Prog, packet: Bytes, m: Machine, heap: Heap)
    requires m.pc < |p.insns| && IsExit(p.insns[m.pc])
    ensures Step(p, packet, m, heap) == Exit(AsU64(m.regs[0]))
  {
  }
}
