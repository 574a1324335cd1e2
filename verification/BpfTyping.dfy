/** Type agreement between the checker and the interpreter. The checker scans linearly and
    does not join states at jump targets, so agreement is a property of paths: it holds until
    a taken jump lands where the scan computed different kinds. */
module BpfTyping {
  import opened BpfIsa
  import opened BpfMaps
  import opened BpfVerifier
  import opened BpfRuntime
  import opened BpfSafety

  /** A runtime value is one the static kind allows. A lookup result is a pointer or Null. */
  predicate Inhabits(v: Value, k: RegKind) {
    match k
    case ScalarKind => v.Scalar?
    case MapFdKind => v.MapFd?
    case FramePtrKind => v.FramePtr?
    case StackPtrKind => v.StackPtr?
    case MapValuePtrKind => v.MapValuePtr? || v.Null?
    case PacketPtrKind => v.PacketPtr?
  }

  predicate AllInhabit(regs: Regs, ks: Kinds) {
    forall r :: 0 <= r < 11 ==> Inhabits(regs[r], ks[r])
  }

  /** The kinds the checker computed for the head pc of an accepted program. */
  function StaticKinds(insns: seq<Insn>, pc: nat): Kinds
    requires Accepted(insns) && IsHead(insns, 0, pc)
  {
    KindsAt(insns, 0, InitKinds(), pc)
  }

  predicate Typed(insns: seq<Insn>, m: Machine)
    requires Accepted(insns)
  {
    IsHead(insns, 0, m.pc) && AllInhabit(m.regs, StaticKinds(insns, m.pc))
  }

  /** The conditional jump at pc lands on a head for which the scan computed the same kinds. */
  predicate JumpAgrees(insns: seq<Insn>, pc: nat)
    requires Accepted(insns) && IsHead(insns, 0, pc) && pc < |insns|
  {
    var target := JumpTarget(pc, insns[pc]);
    && target >= 0
    && IsHead(insns, 0, target)
    && StaticKinds(insns, target) == StaticKinds(insns, pc)
  }

  // ----- one turn -----

  lemma AluTyped(i: Insn, m: Machine, heap: Heap, ks: Kinds)
    requires Dst(i) < MAX_REG && Src(i) < MAX_REG
    requires AllInhabit(m.regs, ks) && CheckAlu(i, ks).Pass? && StepAlu(i, m, heap).Next?
    ensures AllInhabit(StepAlu(i, m, heap).m.regs, CheckAlu(i, ks).value)
  {
    assert Inhabits(m.regs[Dst(i)], ks[Dst(i)]) && Inhabits(m.regs[Src(i)], ks[Src(i)]);
    SetTyped(m.regs, ks, Dst(i), StepAlu(i, m, heap).m.regs[Dst(i)], CheckAlu(i, ks).value[Dst(i)]);
  }

  lemma SetTyped(regs: Regs, ks: Kinds, r: nat, v: Value, k: RegKind)
    requires AllInhabit(regs, ks) && r < MAX_REG && Inhabits(v, k)
    ensures AllInhabit(regs[r := v], ks[r := k])
  {
  }

  lemma CallTyped(p: Prog, m: Machine, heap: Heap)
    requires CallLookup(p, m, heap).Ok?
    ensures Inhabits(CallLookup(p, m, heap).value, MapValuePtrKind)
  {
  }

  /** Every turn except a taken jump produces registers of the kinds the check produced. */
  lemma StraightTyped(p: Prog, packet: Bytes, m: Machine, heap: Heap, ks: Kinds)
    requires Accepted(p.insns) && m.pc < |p.insns| && GoodAt(p.insns, m.pc)
    requires AllInhabit(m.regs, ks) && CheckInsn(p.insns, m.pc, ks).Pass?
    requires Step(p, packet, m, heap).Next? && !Taken(p.insns[m.pc], m)
    ensures var m' := Step(p, packet, m, heap).m;
      m'.pc == m.pc + Width(p.insns[m.pc]) && AllInhabit(m'.regs, CheckInsn(p.insns, m.pc, ks).value)
  {
    var i := p.insns[m.pc];
    if IsLddw(i) {
    } else if IsMem(i, BPF_LDX) || IsMem(i, BPF_ST) || IsMem(i, BPF_STX) {
    } else if Class(i) == BPF_ALU || Class(i) == BPF_ALU64 {
      AluTyped(i, m, heap, ks);
    } else if Op(i) == BPF_CALL {
      CallTyped(p, m, heap);
    }
  }

  /** A value inhabits one kind only, so registers have at most one list of kinds. */
  lemma KindsUnique(regs: Regs, ks: Kinds, ks': Kinds)
    requires AllInhabit(regs, ks) && AllInhabit(regs, ks')
    ensures ks == ks'
  {
    forall r | 0 <= r < 11
      ensures ks[r] == ks'[r]
    {
      assert Inhabits(regs[r], ks[r]) && Inhabits(regs[r], ks'[r]);
    }
  }

  /** A turn keeps agreement exactly when it is not a taken jump or its jump agrees. */
  lemma StepTyped(p: Prog, packet: Bytes, m: Machine, heap: Heap)
    requires Accepted(p.insns) && Typed(p.insns, m) && m.pc < |p.insns|
    requires GoodAt(p.insns, m.pc) && Step(p, packet, m, heap).Next?
    ensures Typed(p.insns, Step(p, packet, m, heap).m) <==>
            (Taken(p.insns[m.pc], m) ==> JumpAgrees(p.insns, m.pc))
  {
    var ks := StaticKinds(p.insns, m.pc);
    HeadChecked(p.insns, 0, InitKinds(), m.pc);
    StepProgress(p, packet, m, heap);
    if !Taken(p.insns[m.pc], m) {
      StraightTyped(p, packet, m, heap, ks);
    } else {
      var m' := Step(p, packet, m, heap).m;
      assert m' == m.(pc := JumpTarget(m.pc, p.insns[m.pc]));
      if Typed(p.insns, m') {
        KindsUnique(m.regs, ks, StaticKinds(p.insns, m'.pc));
      }
    }
  }

  // ----- whole runs -----

  /** The turn about to be executed is not a taken jump, or its jump agrees. */
  ghost predicate TurnAgrees(insns: seq<Insn>, m: Machine)
    requires Accepted(insns)
  {
    m.pc < |insns| && OperandsExist(insns[m.pc]) && Taken(insns[m.pc], m) ==>
      IsHead(insns, 0, m.pc) && JumpAgrees(insns, m.pc)
  }

  /** Every taken jump of the history agrees with the scan. */
  ghost predicate PathAgrees(p: Prog, packet: Bytes, heap: Heap, events: seq<Event>)
    requires |packet| < TWO64 && ValidHeap(heap) && Accepted(p.insns)
  {
    forall n :: 0 <= n < |events| && events[n].Exec? && After(p, packet, heap, events[..n]).Some? ==>
      TurnAgrees(p.insns, After(p, packet, heap, events[..n]).value.m)
  }

  /** Agreement holds in every state of the history. */
  ghost predicate AllTyped(p: Prog, packet: Bytes, heap: Heap, events: seq<Event>)
    requires |packet| < TWO64 && ValidHeap(heap) && Accepted(p.insns)
  {
    forall n :: 0 <= n <= |events| && After(p, packet, heap, events[..n]).Some? ==>
      Typed(p.insns, After(p, packet, heap, events[..n]).value.m)
  }

  /** Along every history whose taken jumps agree with the scan, each register inhabits the kind
      the checker computed at that pc, whatever other tasks do to the maps. */
  lemma {:induction false} Simulation(p: Prog, packet: Bytes, heap: Heap, events: seq<Event>)
    requires |packet| < TWO64 && ValidHeap(heap) && Accepted(p.insns)
    requires After(p, packet, heap, events).Some? && PathAgrees(p, packet, heap, events)
    ensures Typed(p.insns, After(p, packet, heap, events).value.m)
  {
    if events != [] {
      var n := |events| - 1;
      var before := events[..n];
      assert forall k :: 0 <= k < n ==> before[..k] == events[..k];
      Simulation(p, packet, heap, before);
      var b := After(p, packet, heap, before).value;
      if events[n].Exec? {
        AcceptedGood(p.insns, b.m.pc);
        assert TurnAgrees(p.insns, b.m);
        StepTyped(p, packet, b.m, b.heap);
      }
    }
  }

  lemma PathPrefix(p: Prog, packet: Bytes, heap: Heap, events: seq<Event>, n: nat)
    requires |packet| < TWO64 && ValidHeap(heap) && Accepted(p.insns) && n <= |events|
    requires PathAgrees(p, packet, heap, events)
    ensures PathAgrees(p, packet, heap, events[..n])
  {
    assert forall k :: 0 <= k < n ==> events[..n][..k] == events[..k];
  }

  /** A history that is still running was running before its last event. */
  lemma RunsBefore(p: Prog, packet: Bytes, heap: Heap, events: seq<Event>, n: nat)
    requires |packet| < TWO64 && ValidHeap(heap) && After(p, packet, heap, events).Some? && n <= |events|
    ensures After(p, packet, heap, events[..n]).Some?
    decreases |events|
  {
    if n == |events| {
      assert events[..n] == events;
    } else {
      RunsBefore(p, packet, heap, events[..|events| - 1], n);
      assert events[..|events| - 1][..n] == events[..n];
    }
  }

  /** A turn between two states that agree was not a jump that disagrees. */
  lemma TurnWasAgreed(p: Prog, packet: Bytes, heap: Heap, events: seq<Event>, n: nat)
    requires |packet| < TWO64 && ValidHeap(heap) && Accepted(p.insns)
    requires After(p, packet, heap, events).Some? && AllTyped(p, packet, heap, events)
    requires n < |events| && events[n].Exec?
    ensures After(p, packet, heap, events[..n]).Some?
    ensures TurnAgrees(p.insns, After(p, packet, heap, events[..n]).value.m)
  {
    RunsBefore(p, packet, heap, events, n);
    RunsBefore(p, packet, heap, events, n + 1);
    assert events[..n + 1][..n] == events[..n];
    var b := After(p, packet, heap, events[..n]).value;
    assert Typed(p.insns, b.m);
    assert After(p, packet, heap, events[..n + 1]).value.m == Step(p, packet, b.m, b.heap).m;
    assert b.m.pc < |p.insns|;
    AcceptedGood(p.insns, b.m.pc);
    StepTyped(p, packet, b.m, b.heap);
  }

  /** Main theorem: the checker's kinds are those of the run in every state of a history exactly
      when every taken jump of the history agrees with the scan. */
  lemma SimulationExact(p: Prog, packet: Bytes, heap: Heap, events: seq<Event>)
    requires |packet| < TWO64 && ValidHeap(heap) && Accepted(p.insns)
    requires After(p, packet, heap, events).Some?
    ensures AllTyped(p, packet, heap, events) <==> PathAgrees(p, packet, heap, events)
  {
    if PathAgrees(p, packet, heap, events) {
      forall n | 0 <= n <= |events| && After(p, packet, heap, events[..n]).Some?
        ensures Typed(p.insns, After(p, packet, heap, events[..n]).value.m)
      {
        PathPrefix(p, packet, heap, events, n);
        Simulation(p, packet, heap, events[..n]);
      }
    }
    if AllTyped(p, packet, heap, events) {
      forall n | 0 <= n < |events| && events[n].Exec? && After(p, packet, heap, events[..n]).Some?
        ensures TurnAgrees(p.insns, After(p, packet, heap, events[..n]).value.m)
      {
        TurnWasAgreed(p, packet, heap, events, n);
      }
    }
  }

  /** No jump of the history was taken. */
  ghost predicate NoJumpTaken(p: Prog, packet: Bytes, heap: Heap, events: seq<Event>)
    requires |packet| < TWO64 && ValidHeap(heap)
  {
    forall n :: 0 <= n < |events| && events[n].Exec? && After(p, packet, heap, events[..n]).Some? ==>
      var m := After(p, packet, heap, events[..n]).value.m;
      m.pc < |p.insns| && OperandsExist(p.insns[m.pc]) ==> !Taken(p.insns[m.pc], m)
  }

  /** Up to the first taken jump, agreement needs no assumption on the program. */
  lemma SimulationToFirstJump(p: Prog, packet: Bytes, heap: Heap, events: seq<Event>)
    requires |packet| < TWO64 && ValidHeap(heap) && Accepted(p.insns)
    requires After(p, packet, heap, events).Some? && NoJumpTaken(p, packet, heap, events)
    ensures Typed(p.insns, After(p, packet, heap, events).value.m)
  {
    Simulation(p, packet, heap, events);
  }

  /** A static condition on the program: every conditional jump the scan visits agrees. It also
      constrains jumps that no run takes, so it is sufficient only. */
  predicate JoinConsistent(insns: seq<Insn>)
    requires Accepted(insns)
  {
    forall pc: nat :: pc < |insns| && IsHead(insns, 0, pc) && IsCondJump(insns[pc]) ==> JumpAgrees(insns, pc)
  }

  /** For join-consistent programs agreement holds on every path of every run. */
  lemma {:induction false} SimulationOnEveryPath(p: Prog, packet: Bytes, heap: Heap, events: seq<Event>)
    requires |packet| < TWO64 && ValidHeap(heap) && Accepted(p.insns) && JoinConsistent(p.insns)
    requires After(p, packet, heap, events).Some?
    ensures Typed(p.insns, After(p, packet, heap, events).value.m)
  {
    if events != [] {
      var n := |events| - 1;
      SimulationOnEveryPath(p, packet, heap, events[..n]);
      var b := After(p, packet, heap, events[..n]).value;
      if events[n].Exec? {
        AcceptedGood(p.insns, b.m.pc);
        StepTyped(p, packet, b.m, b.heap);
      }
    }
  }

  // ----- pointer faults -----

  predicate IsPointer(v: Value) {
    v.FramePtr? || v.StackPtr? || v.MapValuePtr? || v.PacketPtr?
  }

  /** The register a load or store goes through. */
  function AddressReg(i: Insn): nat {
    if IsMem(i, BPF_LDX) then Src(i) else Dst(i)
  }

  predicate IsAccess(i: Insn) {
    IsMem(i, BPF_LDX) || IsMem(i, BPF_ST) || IsMem(i, BPF_STX)
  }

  /** The turn would use a register against its runtime kind: dereference a non-pointer, write
      through a read-only pointer, look up without a handle or a stack key, or do arithmetic
      a pointer does not allow. */
  predicate KindFault(i: Insn, m: Machine)
    requires Dst(i) < MAX_REG && Src(i) < MAX_REG
  {
    if IsMem(i, BPF_LDX) then !IsPointer(m.regs[Src(i)])
    else if IsMem(i, BPF_ST) || IsMem(i, BPF_STX) then
      !IsPointer(m.regs[Dst(i)]) || m.regs[Dst(i)].PacketPtr?
    else if (Class(i) == BPF_ALU || Class(i) == BPF_ALU64) && Op(i) != BPF_MOV then
      m.regs[Dst(i)].MapValuePtr? || (IsPointer(m.regs[Dst(i)]) && Op(i) != BPF_ADD && Op(i) != BPF_SUB)
    else
      && Class(i) == BPF_JMP && Op(i) == BPF_CALL && i.imm == FUNC_MAP_LOOKUP_ELEM
      && !(m.regs[1].MapFd? && (m.regs[2].FramePtr? || m.regs[2].StackPtr?))
  }

  /** A kind fault always stops the run with an error. */
  lemma KindFaultStops(p: Prog, packet: Bytes, m: Machine, heap: Heap)
    requires m.pc < |p.insns| && Dst(p.insns[m.pc]) < MAX_REG && Src(p.insns[m.pc]) < MAX_REG
    requires KindFault(p.insns[m.pc], m)
    ensures Step(p, packet, m, heap).Fault?
  {
    var i := p.insns[m.pc];
    SizeAlwaysValid(i);
    if IsMem(i, BPF_LDX) {
    } else if IsMem(i, BPF_ST) || IsMem(i, BPF_STX) {
    } else if Class(i) == BPF_ALU || Class(i) == BPF_ALU64 {
    } else {
      assert CallLookup(p, m, heap).Err?;
    }
  }

  /** Main theorem: where kinds agree, the only kind fault left is dereferencing the Null of a
      missed lookup. */
  lemma OnlyMissedLookupFaults(insns: seq<Insn>, m: Machine)
    requires Accepted(insns) && Typed(insns, m) && m.pc < |insns| && GoodAt(insns, m.pc)
    requires KindFault(insns[m.pc], m)
    ensures IsAccess(insns[m.pc]) && m.regs[AddressReg(insns[m.pc])].Null?
    ensures StaticKinds(insns, m.pc)[AddressReg(insns[m.pc])] == MapValuePtrKind
  {
    var i := insns[m.pc];
    var ks := StaticKinds(insns, m.pc);
    HeadChecked(insns, 0, InitKinds(), m.pc);
    assert Inhabits(m.regs[Src(i)], ks[Src(i)]) && Inhabits(m.regs[Dst(i)], ks[Dst(i)]);
    assert Inhabits(m.regs[1], ks[1]) && Inhabits(m.regs[2], ks[2]);
  }

  // ----- past a taken jump the kinds can disagree -----

  /** if r0 == 0 skip the next instruction; r3 := r10; r4 := *(r3 - 8); exit. */
  function SkipsTheMove(): seq<Insn> {
    [Insn(0x15, 0x00, 1, 0), Insn(0xbf, 0xa3, 0, 0), Insn(0x79, 0x34, -8, 0), Insn(0x95, 0x00, 0, 0)]
  }

  /** The scan accepts it, yet its first turn jumps over the move, and then a scalar is
      dereferenced as a frame pointer: a kind fault that is no missed lookup. */
  lemma AgreementFailsPastAJump(packet: Bytes, heap: Heap)
    requires |packet| < TWO64 && ValidHeap(heap)
    ensures Accepted(SkipsTheMove())
    ensures var p := Prog(SkipsTheMove(), map[]);
      var r := After(p, packet, heap, [Exec]);
      && r.Some? && r.value.m.pc == 2
      && !Typed(p.insns, r.value.m)
      && KindFault(p.insns[2], r.value.m) && r.value.m.regs[3] == Scalar(0)
      && !JoinConsistent(p.insns)
  {
    var insns := SkipsTheMove();
    var p := Prog(insns, map[]);
    SkipScan();
    assert [Exec][..0] == [];
    var m := InitMachine(packet);
    assert After(p, packet, heap, []) == Some(Config(m, heap));
    assert Dst(insns[0]) == 0 && Taken(insns[0], m);
    assert Step(p, packet, m, heap) == Next(m.(pc := 2), heap);
    assert After(p, packet, heap, [Exec]) == Some(Config(m.(pc := 2), heap));
    assert IsHead(insns, 0, 0) && IsCondJump(insns[0]);
    assert StaticKinds(insns, 2)[3] == FramePtrKind && StaticKinds(insns, 0)[3] == ScalarKind;
  }

  lemma SkipScan()
    ensures Accepted(SkipsTheMove())
    ensures IsHead(SkipsTheMove(), 0, 2)
    ensures KindsAt(SkipsTheMove(), 0, InitKinds(), 2)[3] == FramePtrKind
  {
    var insns := SkipsTheMove();
    var k0 := InitKinds();
    assert CheckInsn(insns, 0, k0) == Pass(k0);
    var k1 := k0[3 := FramePtrKind];
    assert Dst(insns[1]) == 3 && Src(insns[1]) == 10;
    assert CheckInsn(insns, 1, k0) == Pass(k1);
    assert Dst(insns[2]) == 4 && Src(insns[2]) == 3;
    var k2 := k1[4 := ScalarKind];
    assert CheckInsn(insns, 2, k1) == Pass(k2);
    assert CheckInsn(insns, 3, k2) == Pass(k2);
    assert Scan(insns, 3, k2) == Pass(());
    assert Scan(insns, 2, k1) == Pass(());
    assert Scan(insns, 1, k0) == Pass(());
    assert KindsAt(insns, 2, k1, 2) == k1;
    assert KindsAt(insns, 1, k0, 2) == k1;
  }
}
