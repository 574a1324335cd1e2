/** The one-pass static checker for BPF programs (src/bpf/verifier.rs) and the collector of
    map references that runs after it (src/bpf/syscall.rs). */
module BpfVerifier {
  import opened BpfIsa
  import opened BpfMaps

  datatype RegKind = ScalarKind | MapFdKind | FramePtrKind | StackPtrKind | MapValuePtrKind | PacketPtrKind

  type Kinds = ks: seq<RegKind> | |ks| == 11 witness seq(11, _ => ScalarKind)

  datatype Verdict<+T> = Pass(value: T) | Reject(reason: Reason)

  datatype Reason =
    | NoFinalExit | InvalidRegister | TruncatedLddw | BadLddwPair | LddwReservedFields
    | BadPseudoSource | LoadNeedsPointer | StoreNeedsPointer | StoreNeedsScalar
    | AluSourceNotScalar | MapFdArithmetic | MapValueArithmetic | BadPointerOp
    | UnsupportedHelper | CallNeedsMapFd | CallNeedsStackKey
    | JumpOutOfRange | BackwardJump | UnsupportedJump | UnsupportedInsn

  function InitKinds(): Kinds {
    seq(11, i => if i == 1 then PacketPtrKind else if i == 10 then FramePtrKind else ScalarKind)
  }

  predicate Readable(k: RegKind) {
    k == FramePtrKind || k == StackPtrKind || k == MapValuePtrKind || k == PacketPtrKind
  }

  predicate Writable(k: RegKind) {
    k == FramePtrKind || k == StackPtrKind || k == MapValuePtrKind
  }

  function Width(i: Insn): nat {
    if IsLddw(i) then 2 else 1
  }

  function JumpTarget(pc: nat, i: Insn): int {
    pc + 1 + i.off
  }

  function CheckLddw(insns: seq<Insn>, pc: nat, kinds: Kinds): Verdict<Kinds>
    requires pc < |insns| && Dst(insns[pc]) < MAX_REG
  {
    var i := insns[pc];
    if pc + 1 >= |insns| then Reject(TruncatedLddw)
    else
      var next := insns[pc + 1];
      if next.code != 0 || Dst(next) != 0 || Src(next) != 0 || next.off != 0 then Reject(BadLddwPair)
      else if i.off != 0 then Reject(LddwReservedFields)
      else if Src(i) != 0 && Src(i) != PSEUDO_MAP_FD then Reject(BadPseudoSource)
      else Pass(kinds[Dst(i) := if Src(i) == PSEUDO_MAP_FD then MapFdKind else ScalarKind])
  }

  function CheckAlu(i: Insn, kinds: Kinds): Verdict<Kinds>
    requires Dst(i) < MAX_REG && Src(i) < MAX_REG
  {
    var dst, src, op := Dst(i), Src(i), Op(i);
    if op == BPF_MOV then
      Pass(kinds[dst := if SrcIsReg(i) then kinds[src] else ScalarKind])
    else if SrcIsReg(i) && kinds[src] != ScalarKind then Reject(AluSourceNotScalar)
    else match kinds[dst]
      case MapFdKind => Reject(MapFdArithmetic)
      case MapValuePtrKind => Reject(MapValueArithmetic)
      case ScalarKind => Pass(kinds)
      case k =>
        if op != BPF_ADD && op != BPF_SUB then Reject(BadPointerOp)
        else Pass(kinds[dst := if k == PacketPtrKind then PacketPtrKind else StackPtrKind])
  }

  function CheckJmp(insns: seq<Insn>, pc: nat, kinds: Kinds): Verdict<Kinds>
    requires pc < |insns|
  {
    var i := insns[pc];
    var op := Op(i);
    if op == BPF_CALL then
      if i.imm != FUNC_MAP_LOOKUP_ELEM then Reject(UnsupportedHelper)
      else if kinds[1] != MapFdKind then Reject(CallNeedsMapFd)
      else if kinds[2] != FramePtrKind && kinds[2] != StackPtrKind then Reject(CallNeedsStackKey)
      else Pass(kinds[0 := MapValuePtrKind])
    else if op == BPF_EXIT then Pass(kinds)
    else if op == BPF_JEQ || op == BPF_JNE then
      var target := JumpTarget(pc, i);
      if target < 0 || target >= |insns| then Reject(JumpOutOfRange)
      else if target <= pc then Reject(BackwardJump)
      else Pass(kinds)
    else Reject(UnsupportedJump)
  }

  /** One iteration of the scan: the register kinds after the instruction at pc. */
  function CheckInsn(insns: seq<Insn>, pc: nat, kinds: Kinds): Verdict<Kinds>
    requires pc < |insns|
  {
    var i := insns[pc];
    if Dst(i) >= MAX_REG || Src(i) >= MAX_REG then Reject(InvalidRegister)
    else if IsLddw(i) then CheckLddw(insns, pc, kinds)
    else if IsMem(i, BPF_LDX) then
      if !Readable(kinds[Src(i)]) then Reject(LoadNeedsPointer) else Pass(kinds[Dst(i) := ScalarKind])
    else if IsMem(i, BPF_ST) then
      if !Writable(kinds[Dst(i)]) then Reject(StoreNeedsPointer) else Pass(kinds)
    else if IsMem(i, BPF_STX) then
      if !Writable(kinds[Dst(i)]) then Reject(StoreNeedsPointer)
      else if kinds[Src(i)] != ScalarKind then Reject(StoreNeedsScalar)
      else Pass(kinds)
    else if Class(i) == BPF_ALU || Class(i) == BPF_ALU64 then CheckAlu(i, kinds)
    else if Class(i) == BPF_JMP then CheckJmp(insns, pc, kinds)
    else Reject(UnsupportedInsn)
  }

  function Scan(insns: seq<Insn>, pc: nat, kinds: Kinds): Verdict<()>
    decreases |insns| - pc
  {
    if pc >= |insns| then Pass(())
    else match CheckInsn(insns, pc, kinds)
      case Reject(e) => Reject(e)
      case Pass(ks) => Scan(insns, pc + Width(insns[pc]), ks)
  }

  predicate EndsWithExit(insns: seq<Insn>) {
    insns != [] && IsExit(insns[|insns| - 1])
  }

  function Verify(insns: seq<Insn>): Verdict<()> {
    if !EndsWithExit(insns) then Reject(NoFinalExit) else Scan(insns, 0, InitKinds())
  }

  predicate Accepted(insns: seq<Insn>) {
    Verify(insns).Pass?
  }

  /** The checker as it runs: one array of kinds updated in place. */
  method VerifyProgram(insns: seq<Insn>) returns (r: Verdict<()>)
    ensures r == Verify(insns)
  {
    if !EndsWithExit(insns) {
      return Reject(NoFinalExit);
    }
    var regs := new RegKind[11](_ => ScalarKind);
    regs[1] := PacketPtrKind;
    regs[10] := FramePtrKind;
    assert regs[..] == InitKinds();
    var pc := 0;
    while pc < |insns|
      invariant Scan(insns, pc, regs[..]) == Scan(insns, 0, InitKinds())
      decreases |insns| - pc
    {
      var i := insns[pc];
      var dst, src := Dst(i), Src(i);
      ghost var before := regs[..];
      if dst >= MAX_REG || src >= MAX_REG {
        return Reject(InvalidRegister);
      }
      if IsLddw(i) {
        if pc + 1 >= |insns| {
          return Reject(TruncatedLddw);
        }
        var next := insns[pc + 1];
        if next.code != 0 || Dst(next) != 0 || Src(next) != 0 || next.off != 0 {
          return Reject(BadLddwPair);
        }
        if i.off != 0 {
          return Reject(LddwReservedFields);
        }
        if src != 0 && src != PSEUDO_MAP_FD {
          return Reject(BadPseudoSource);
        }
        regs[dst] := if src == PSEUDO_MAP_FD then MapFdKind else ScalarKind;
        assert CheckInsn(insns, pc, before) == Pass(regs[..]);
        pc := pc + 2;
        continue;
      }
      var verdict := CheckOneSlot(insns, pc, regs);
      if verdict.Reject? {
        return Reject(verdict.reason);
      }
      pc := pc + 1;
    }
    return Pass(());
  }

  /** The single-slot cases of the scan's match, updating the kinds in place. */
  method CheckOneSlot(insns: seq<Insn>, pc: nat, regs: array<RegKind>) returns (r: Verdict<()>)
    requires pc < |insns| && regs.Length == 11
    requires Dst(insns[pc]) < MAX_REG && Src(insns[pc]) < MAX_REG && !IsLddw(insns[pc])
    modifies regs
    ensures match old(CheckInsn(insns, pc, regs[..]))
            case Pass(ks) => r == Pass(()) && regs[..] == ks
            case Reject(e) => r == Reject(e)
  {
    var i := insns[pc];
    var dst, src, cls, op := Dst(i), Src(i), Class(i), Op(i);
    if IsMem(i, BPF_LDX) {
      if !Readable(regs[src]) {
        return Reject(LoadNeedsPointer);
      }
      regs[dst] := ScalarKind;
    } else if IsMem(i, BPF_ST) {
      if !Writable(regs[dst]) {
        return Reject(StoreNeedsPointer);
      }
    } else if IsMem(i, BPF_STX) {
      if !Writable(regs[dst]) {
        return Reject(StoreNeedsPointer);
      }
      if regs[src] != ScalarKind {
        return Reject(StoreNeedsScalar);
      }
    } else if cls == BPF_ALU || cls == BPF_ALU64 {
      if op == BPF_MOV {
        regs[dst] := if SrcIsReg(i) then regs[src] else ScalarKind;
      } else {
        if SrcIsReg(i) && regs[src] != ScalarKind {
          return Reject(AluSourceNotScalar);
        }
        var kind := regs[dst];
        if kind == MapFdKind {
          return Reject(MapFdArithmetic);
        }
        if kind == MapValuePtrKind {
          return Reject(MapValueArithmetic);
        }
        if kind != ScalarKind {
          if op != BPF_ADD && op != BPF_SUB {
            return Reject(BadPointerOp);
          }
          if kind != PacketPtrKind {
            regs[dst] := StackPtrKind;
          }
        }
      }
    } else if cls == BPF_JMP {
      if op == BPF_CALL {
        if i.imm != FUNC_MAP_LOOKUP_ELEM {
          return Reject(UnsupportedHelper);
        }
        if regs[1] != MapFdKind {
          return Reject(CallNeedsMapFd);
        }
        if regs[2] != FramePtrKind && regs[2] != StackPtrKind {
          return Reject(CallNeedsStackKey);
        }
        regs[0] := MapValuePtrKind;
      } else if op == BPF_EXIT {
      } else if op == BPF_JEQ || op == BPF_JNE {
        var target := JumpTarget(pc, i);
        if target < 0 || target >= |insns| {
          return Reject(JumpOutOfRange);
        }
        if target <= pc {
          return Reject(BackwardJump);
        }
      } else {
        return Reject(UnsupportedJump);
      }
    } else {
      return Reject(UnsupportedInsn);
    }
    return Pass(());
  }

  // ----- what the linear scan visits -----

  /** pc is visited by the scan that starts at `from`. */
  predicate IsHead(insns: seq<Insn>, from: nat, pc: nat)
    decreases |insns| - from
  {
    from < |insns| && from <= pc && (pc == from || IsHead(insns, from + Width(insns[from]), pc))
  }

  /** The kinds the scan holds when it visits the head pc. */
  function KindsAt(insns: seq<Insn>, from: nat, kinds: Kinds, pc: nat): Kinds
    requires Scan(insns, from, kinds).Pass? && IsHead(insns, from, pc)
    decreases |insns| - from
  {
    if pc == from then kinds
    else KindsAt(insns, from + Width(insns[from]), CheckInsn(insns, from, kinds).value, pc)
  }

  /** Every head passes its check, and its successor head carries the resulting kinds. */
  lemma {:induction false} HeadChecked(insns: seq<Insn>, from: nat, kinds: Kinds, pc: nat)
    requires Scan(insns, from, kinds).Pass? && IsHead(insns, from, pc)
    ensures pc < |insns|
    ensures CheckInsn(insns, pc, KindsAt(insns, from, kinds, pc)).Pass?
    ensures var next := pc + Width(insns[pc]);
      next < |insns| ==>
        && IsHead(insns, from, next)
        && KindsAt(insns, from, kinds, next) == CheckInsn(insns, pc, KindsAt(insns, from, kinds, pc)).value
    decreases |insns| - from
  {
    if pc != from {
      HeadChecked(insns, from + Width(insns[from]), CheckInsn(insns, from, kinds).value, pc);
    }
  }

  /** An index the scan skips is the all-zero second slot of an lddw. */
  lemma {:induction false} SkippedSlot(insns: seq<Insn>, from: nat, kinds: Kinds, pc: nat)
    requires Scan(insns, from, kinds).Pass? && from <= pc < |insns| && !IsHead(insns, from, pc)
    ensures insns[pc].code == 0 && Dst(insns[pc]) == 0 && Src(insns[pc]) == 0
    decreases |insns| - from
  {
    if pc > from {
      var next := from + Width(insns[from]);
      if next <= pc {
        SkippedSlot(insns, next, CheckInsn(insns, from, kinds).value, pc);
      }
    }
  }

  /** What acceptance guarantees at every index, whether or not the scan visited it. */
  predicate GoodAt(insns: seq<Insn>, pc: nat)
    requires pc < |insns|
  {
    var i := insns[pc];
    && Dst(i) < MAX_REG && Src(i) < MAX_REG
    && (IsLddw(i) ==> pc + 2 < |insns|)
    && (IsCondJump(i) ==> pc < JumpTarget(pc, i) < |insns|)
    && (pc == |insns| - 1 ==> IsExit(i))
  }

  /** Acceptance holds on every path: each index is safe to execute, the second slot of an
      lddw included, because that slot decodes to no instruction. */
  lemma AcceptedGood(insns: seq<Insn>, pc: nat)
    requires Accepted(insns) && pc < |insns|
    ensures GoodAt(insns, pc)
  {
    var i := insns[pc];
    if IsHead(insns, 0, pc) {
      HeadChecked(insns, 0, InitKinds(), pc);
      var ks := KindsAt(insns, 0, InitKinds(), pc);
      if IsLddw(i) {
        ZeroSlot(insns[pc + 1]);
        assert pc + 1 != |insns| - 1;
      }
    } else {
      SkippedSlot(insns, 0, InitKinds(), pc);
      ZeroSlot(i);
    }
  }

  lemma ZeroSlot(i: Insn)
    requires i.code == 0
    ensures !IsLddw(i) && !IsExit(i) && !IsCondJump(i)
  {
  }

  // ----- collecting map references -----

  datatype File = MapFile(file: BpfMapFile) | OtherFile

  type Handles = map<u32, BpfMapFile>

  function CollectFrom(insns: seq<Insn>, files: map<nat, File>, pc: nat, acc: Handles): Result<Handles>
    decreases |insns| - pc
  {
    if pc >= |insns| then Ok(acc)
    else
      var i := insns[pc];
      if IsLddw(i) then
        if pc + 1 >= |insns| then Err(EINVAL)
        else if Src(i) == PSEUDO_MAP_FD then
          var fd := ToU32(i.imm);
          if fd !in files || files[fd].OtherFile? then Err(EBADF)
          else CollectFrom(insns, files, pc + 2, acc[fd := files[fd].file])
        else CollectFrom(insns, files, pc + 2, acc)
      else CollectFrom(insns, files, pc + 1, acc)
  }

  /** The map references of a program, resolved in the caller's file table. */
  method CollectProgMapRefs(insns: seq<Insn>, files: map<nat, File>) returns (r: Result<Handles>)
    ensures r == CollectFrom(insns, files, 0, map[])
  {
    var maps: Handles := map[];
    var pc := 0;
    while pc < |insns|
      invariant CollectFrom(insns, files, pc, maps) == CollectFrom(insns, files, 0, map[])
      decreases |insns| - pc
    {
      var i := insns[pc];
      if IsLddw(i) {
        if pc + 1 >= |insns| {
          return Err(EINVAL);
        }
        if Src(i) == PSEUDO_MAP_FD {
          var fd := ToU32(i.imm);
          if fd !in files {
            return Err(EBADF);
          }
          if files[fd].OtherFile? {
            return Err(EBADF);
          }
          maps := maps[fd := files[fd].file];
        }
        pc := pc + 2;
        continue;
      }
      pc := pc + 1;
    }
    return Ok(maps);
  }

  /** The handle of the instruction names a map file. */
  predicate Resolves(i: Insn, files: map<nat, File>) {
    IsMapLddw(i) ==> ToU32(i.imm) in files && files[ToU32(i.imm)].MapFile?
  }

  /** For an accepted program the collector fails exactly when some map load it visits does not
      name a map file, and then with EBADF. */
  lemma {:induction false} CollectFailsOnBadHandle(insns: seq<Insn>, files: map<nat, File>, from: nat, kinds: Kinds,
                                                   acc: Handles)
    requires Scan(insns, from, kinds).Pass?
    ensures CollectFrom(insns, files, from, acc).Ok? <==>
      forall pc: nat :: pc < |insns| && IsHead(insns, from, pc) ==> Resolves(insns[pc], files)
    ensures CollectFrom(insns, files, from, acc).Err? ==> CollectFrom(insns, files, from, acc).error == EBADF
    decreases |insns| - from
  {
    if from < |insns| {
      var i := insns[from];
      var next := from + Width(i);
      assert IsHead(insns, from, from);
      if Resolves(i, files) {
        var acc' := if IsMapLddw(i) then acc[ToU32(i.imm) := files[ToU32(i.imm)].file] else acc;
        CollectFailsOnBadHandle(insns, files, next, CheckInsn(insns, from, kinds).value, acc');
        assert forall pc: nat :: IsHead(insns, from, pc) <==> pc == from || IsHead(insns, next, pc);
      }
    }
  }

  /** The collector walks exactly the checker's heads: every map lddw at a head is resolved,
      and each handle names the map file the table held for it. */
  lemma {:induction false} CollectsHeads(insns: seq<Insn>, files: map<nat, File>, from: nat, acc: Handles)
    requires CollectFrom(insns, files, from, acc).Ok?
    ensures var h := CollectFrom(insns, files, from, acc).value;
      && acc.Keys <= h.Keys
      && (forall pc: nat :: pc < |insns| && IsHead(insns, from, pc) && IsMapLddw(insns[pc]) ==>
           ToU32(insns[pc].imm) in h)
      && (forall fd :: fd in h && (fd in acc ==> acc[fd] != h[fd]) ==> fd in files && files[fd] == MapFile(h[fd]))
    decreases |insns| - from
  {
    if from < |insns| {
      var i := insns[from];
      var next := from + Width(i);
      var acc' := if IsMapLddw(i) then acc[ToU32(i.imm) := files[ToU32(i.imm)].file] else acc;
      CollectsHeads(insns, files, next, acc');
    }
  }
}
