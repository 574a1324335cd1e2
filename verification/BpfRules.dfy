/** The typing rules that the checker of src/bpf/verifier.rs decides, written as rules: what each
    accepted form of instruction needs of the register kinds and what it makes of them. */
module BpfRules {
  import opened BpfIsa
  import opened BpfVerifier

  /** The second slot of a 64-bit load carries nothing but its immediate. */
  predicate Blank(i: Insn) {
    i.code == 0 && Dst(i) == 0 && Src(i) == 0 && i.off == 0
  }

  predicate LoadRule(i: Insn, ks: Kinds, ks': Kinds)
    requires Dst(i) < MAX_REG && Src(i) < MAX_REG
  {
    && IsMem(i, BPF_LDX) && ks[Src(i)] in {FramePtrKind, StackPtrKind, MapValuePtrKind, PacketPtrKind}
    && ks' == ks[Dst(i) := ScalarKind]
  }

  /** Packets are never written, and no pointer is stored. */
  predicate StoreRule(i: Insn, ks: Kinds, ks': Kinds)
    requires Dst(i) < MAX_REG && Src(i) < MAX_REG
  {
    && (IsMem(i, BPF_ST) || (IsMem(i, BPF_STX) && ks[Src(i)] == ScalarKind))
    && ks[Dst(i)] in {FramePtrKind, StackPtrKind, MapValuePtrKind}
    && ks' == ks
  }

  /** A move copies a kind; other arithmetic is on scalars, or moves a pointer into the stack or
      the packet by a scalar. */
  predicate AluRule(i: Insn, ks: Kinds, ks': Kinds)
    requires Dst(i) < MAX_REG && Src(i) < MAX_REG
  {
    var operand := if SrcIsReg(i) then ks[Src(i)] else ScalarKind;
    && Class(i) in {BPF_ALU, BPF_ALU64}
    && (|| (Op(i) == BPF_MOV && ks' == ks[Dst(i) := operand])
        || (Op(i) != BPF_MOV && operand == ScalarKind && ks[Dst(i)] == ScalarKind && ks' == ks)
        || (Op(i) in {BPF_ADD, BPF_SUB} && operand == ScalarKind &&
            ((ks[Dst(i)] == PacketPtrKind && ks' == ks) ||
             (ks[Dst(i)] in {FramePtrKind, StackPtrKind} && ks' == ks[Dst(i) := StackPtrKind]))))
  }

  /** Lookup takes a map and a key on the stack; a jump goes forward inside the program. */
  predicate JumpRule(insns: seq<Insn>, pc: nat, ks: Kinds, ks': Kinds)
    requires pc < |insns|
  {
    var i := insns[pc];
    && Class(i) == BPF_JMP
    && (|| (Op(i) == BPF_EXIT && ks' == ks)
        || (Op(i) in {BPF_JEQ, BPF_JNE} && pc < pc + 1 + i.off < |insns| && ks' == ks)
        || (Op(i) == BPF_CALL && i.imm == FUNC_MAP_LOOKUP_ELEM && ks[1] == MapFdKind &&
            ks[2] in {FramePtrKind, StackPtrKind} && ks' == ks[0 := MapValuePtrKind]))
  }

  predicate WideRule(insns: seq<Insn>, pc: nat, ks: Kinds, ks': Kinds)
    requires pc < |insns| && Dst(insns[pc]) < MAX_REG
  {
    var i := insns[pc];
    && IsLddw(i) && i.off == 0 && pc + 1 < |insns| && Blank(insns[pc + 1])
    && ((Src(i) == 0 && ks' == ks[Dst(i) := ScalarKind]) ||
        (Src(i) == PSEUDO_MAP_FD && ks' == ks[Dst(i) := MapFdKind]))
  }

  /** The instruction at pc takes kinds ks to ks' by one of the rules. */
  predicate Rule(insns: seq<Insn>, pc: nat, ks: Kinds, ks': Kinds)
    requires pc < |insns|
  {
    var i := insns[pc];
    && Dst(i) < MAX_REG && Src(i) < MAX_REG
    && (WideRule(insns, pc, ks, ks') || LoadRule(i, ks, ks') || StoreRule(i, ks, ks') || AluRule(i, ks, ks')
        || JumpRule(insns, pc, ks, ks'))
  }

  lemma AluChecked(i: Insn, ks: Kinds, ks': Kinds)
    requires Dst(i) < MAX_REG && Src(i) < MAX_REG && Class(i) in {BPF_ALU, BPF_ALU64}
    ensures CheckAlu(i, ks) == Pass(ks') <==> AluRule(i, ks, ks')
  {
    assert ks[Dst(i) := ks[Dst(i)]] == ks;
  }

  lemma JmpChecked(insns: seq<Insn>, pc: nat, ks: Kinds, ks': Kinds)
    requires pc < |insns| && Class(insns[pc]) == BPF_JMP
    ensures CheckJmp(insns, pc, ks) == Pass(ks') <==> JumpRule(insns, pc, ks, ks')
  {
  }

  /** One check decides the rules: it passes with ks' exactly when a rule gives ks'. */
  lemma CheckDecidesRule(insns: seq<Insn>, pc: nat, ks: Kinds, ks': Kinds)
    requires pc < |insns|
    ensures CheckInsn(insns, pc, ks) == Pass(ks') <==> Rule(insns, pc, ks, ks')
  {
    var i := insns[pc];
    if Dst(i) < MAX_REG && Src(i) < MAX_REG {
      if Class(i) in {BPF_ALU, BPF_ALU64} {
        AluChecked(i, ks, ks');
      } else if Class(i) == BPF_JMP {
        JmpChecked(insns, pc, ks, ks');
      }
    }
  }

  /** A derivation: kinds for every point of the program, from `from` on, each following from the
      one before by a rule. */
  ghost predicate Derivation(insns: seq<Insn>, from: nat, table: seq<Kinds>) {
    && |table| == |insns| + 1
    && forall pc: nat :: IsHead(insns, from, pc) ==> DerivedAt(insns, pc, table)
  }

  ghost predicate DerivedAt(insns: seq<Insn>, pc: nat, table: seq<Kinds>) {
    && pc < |insns| && pc + Width(insns[pc]) < |table|
    && Rule(insns, pc, table[pc], table[pc + Width(insns[pc])])
  }

  lemma {:induction false} DerivedIsAccepted(insns: seq<Insn>, from: nat, table: seq<Kinds>)
    requires Derivation(insns, from, table) && from <= |insns|
    ensures Scan(insns, from, table[from]).Pass?
    decreases |insns| - from
  {
    if from < |insns| {
      var next := from + Width(insns[from]);
      assert IsHead(insns, from, from);
      assert DerivedAt(insns, from, table);
      CheckDecidesRule(insns, from, table[from], table[next]);
      assert forall pc: nat :: IsHead(insns, next, pc) ==> IsHead(insns, from, pc);
      DerivedIsAccepted(insns, next, table);
    }
  }

  lemma {:induction false} AcceptedIsDerived(insns: seq<Insn>, from: nat, ks: Kinds) returns (table: seq<Kinds>)
    requires from <= |insns| && Scan(insns, from, ks).Pass?
    ensures Derivation(insns, from, table) && table[from] == ks
    decreases |insns| - from
  {
    if from == |insns| {
      table := seq(|insns| + 1, _ => ks);
    } else {
      var next := from + Width(insns[from]);
      var ks' := CheckInsn(insns, from, ks).value;
      CheckDecidesRule(insns, from, ks, ks');
      var rest := AcceptedIsDerived(insns, next, ks');
      table := rest[from := ks];
      forall pc: nat | IsHead(insns, from, pc)
        ensures DerivedAt(insns, pc, table)
      {
        if pc != from {
          assert DerivedAt(insns, pc, rest);
        }
      }
    }
  }

  /** Main theorem: the checker accepts exactly the programs that end with EXIT and have a
      derivation by the rules, starting with the packet in r1 and the frame in r10. */
  lemma AcceptsExactlyDerivable(insns: seq<Insn>)
    ensures Accepted(insns) <==>
      EndsWithExit(insns) && exists table :: Derivation(insns, 0, table) && table[0] == InitKinds()
  {
    if Accepted(insns) {
      var table := AcceptedIsDerived(insns, 0, InitKinds());
    }
    if EndsWithExit(insns) && exists table :: Derivation(insns, 0, table) && table[0] == InitKinds() {
      var table :| Derivation(insns, 0, table) && table[0] == InitKinds();
      DerivedIsAccepted(insns, 0, table);
    }
  }
}
