/** Small programs, from the checker through the whole run, for every packet. */
module BpfPrograms {
  import opened BpfIsa
  import opened BpfMaps
  import opened BpfVerifier
  import opened BpfRuntime
  import opened BpfSafety
  import opened BpfExecute
  import opened BpfMeaning

  const EXIT: Insn := Insn(0x95, 0x00, 0, 0)

  /** r0 := the byte of the packet at off; exit. */
  function ReadsByte(off: i16): seq<Insn> { [Insn(0x71, 0x10, off, 0), EXIT] }

  lemma ReadsByteAccepted(off: i16)
    ensures Accepted(ReadsByte(off))
  {
    var insns, k0 := ReadsByte(off), InitKinds();
    assert Dst(insns[0]) == 0 && Src(insns[0]) == 1;
    var k1 := k0[0 := ScalarKind];
    assert CheckInsn(insns, 0, k0) == Pass(k1);
    assert CheckInsn(insns, 1, k1) == Pass(k1);
    assert Scan(insns, 1, k1) == Pass(());
  }

  /** A turn, and then EXIT with a scalar in r0. */
  lemma LastTurn(p: Prog, packet: Bytes, m: Machine, heap: Heap, v: u64)
    requires Accepted(p.insns) && m.pc < |p.insns|
    requires
      var o := Step(p, packet, m, heap);
      o.Next? && o.m.pc < |p.insns| && IsExit(p.insns[o.m.pc]) && o.m.regs[0] == Scalar(v) && o.heap == heap
    ensures Run(p, packet, m, heap) == (Exit(v), heap)
  {
    var m1 := Step(p, packet, m, heap).m;
    RunUnfolds(p, packet, m, heap);
    ExitEnds(p, packet, m1, heap);
    RunUnfolds(p, packet, m1, heap);
  }

  lemma ReadsByteStep(packet: Bytes, off: i16)
    requires |packet| < TWO64
    ensures
      var o := Step(Prog(ReadsByte(off), map[]), packet, InitMachine(packet), map[]);
      if 0 <= off < |packet| then o.Next? && o.m.pc == 1 && o.m.regs[0] == Scalar(packet[off]) && o.heap == map[]
      else o == Fault(EACCES)
  {
    var p, m := Prog(ReadsByte(off), map[]), InitMachine(packet);
    var i := p.insns[0];
    assert Dst(i) == 0 && Src(i) == 1 && IsMem(i, BPF_LDX) && SizeToLen(Size(i)) == Ok(1);
    LoadPacketInsn(p, packet, m, map[], i, 0, 1);
    if 0 <= off < |packet| {
      OneByte(Step(p, packet, m, map[]).m.regs[0].v, packet, off);
    }
  }

  /** The program is accepted and returns that byte of any packet that has it, and EACCES for any
      other. */
  lemma ReturnsPacketByte(packet: Bytes, off: i16)
    requires |packet| < TWO64
    ensures Accepted(ReadsByte(off))
    ensures Run(Prog(ReadsByte(off), map[]), packet, InitMachine(packet), map[]).0 ==
      if 0 <= off < |packet| then Exit(packet[off]) else Fault(EACCES)
  {
    ReadsByteAccepted(off);
    ReadsByteStep(packet, off);
    var p, m := Prog(ReadsByte(off), map[]), InitMachine(packet);
    if 0 <= off < |packet| {
      LastTurn(p, packet, m, map[], packet[off]);
    } else {
      RunUnfolds(p, packet, m, map[]);
    }
  }

  lemma OneByte(v: u64, packet: Bytes, at: nat)
    requires Spells(v, packet, at, 1)
    ensures v == packet[at]
  {
    assert Pow256(1) == 256;
    assert Byte(v, 0) == v % 256;
  }

  /** r0 := r2; exit. */
  function ReadsLength(): seq<Insn> { [Insn(0xbf, 0x20, 0, 0), EXIT] }

  lemma ReadsLengthAccepted()
    ensures Accepted(ReadsLength())
  {
    var insns, k0 := ReadsLength(), InitKinds();
    assert Dst(insns[0]) == 0 && Src(insns[0]) == 2;
    assert k0[0 := k0[2]] == k0;
    assert CheckInsn(insns, 0, k0) == Pass(k0);
    assert CheckInsn(insns, 1, k0) == Pass(k0);
    assert Scan(insns, 1, k0) == Pass(());
  }

  /** The program is accepted and returns the length of any packet. */
  lemma ReturnsPacketLength(packet: Bytes)
    requires |packet| < TWO64
    ensures Accepted(ReadsLength())
    ensures Run(Prog(ReadsLength(), map[]), packet, InitMachine(packet), map[]).0 == Exit(|packet|)
  {
    ReadsLengthAccepted();
    var p, m := Prog(ReadsLength(), map[]), InitMachine(packet);
    var i := p.insns[0];
    assert Dst(i) == 0 && Src(i) == 2 && Class(i) == BPF_ALU64 && Op(i) == BPF_MOV && SrcIsReg(i);
    MoveInsn(p, packet, m, map[], i);
    LastTurn(p, packet, m, map[], |packet|);
  }
}
