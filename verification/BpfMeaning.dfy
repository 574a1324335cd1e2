/** What each instruction of src/bpf/runtime.rs does to registers and stack, said by the bits and
    bytes of the values and not by the interpreter's own operations. */
module BpfMeaning {
  import opened BpfIsa
  import opened BpfMaps
  import opened BpfVerifier
  import opened BpfRuntime
  import opened BpfSafety
  import opened BpfLaws

  // ----- bytes and bits of a number -----

  /** Byte k of v, least significant first. */
  function Byte(v: nat, k: nat): u8
    decreases k
  {
    if k == 0 then v % 256 else Byte(v / 256, k - 1)
  }

  /** Bit k of v, least significant first. */
  predicate Bit(v: nat, k: nat)
    decreases k
  {
    if k == 0 then v % 2 == 1 else Bit(v / 2, k - 1)
  }

  lemma {:induction false} FromLeByte(b: Bytes, k: nat)
    requires k < |b|
    ensures Byte(FromLe(b), k) == b[k]
    decreases k
  {
    if k > 0 {
      FromLeByte(b[1..], k - 1);
    }
  }

  lemma {:induction false} LeBytesByte(v: nat, n: nat, k: nat)
    requires k < n
    ensures LeBytes(v, n)[k] == Byte(v, k)
    decreases k
  {
    if k > 0 {
      LeBytesByte(v / 256, n - 1, k - 1);
    }
  }

  lemma {:induction false} BitOfProduct(v: nat, n: nat, k: nat)
    ensures Bit(v * Pow2(n), k) <==> k >= n && Bit(v, k - n)
  {
    if n > 0 {
      assert v * Pow2(n) == 2 * (v * Pow2(n - 1)) by {
        Twice(v, Pow2(n - 1));
      }
      if k > 0 {
        BitOfProduct(v, n - 1, k - 1);
      }
    }
  }

  lemma Twice(v: nat, p: nat)
    ensures v * (2 * p) == 2 * (v * p)
  {
  }

  /** v halved n times. */
  function Halved(v: nat, n: nat): nat
    decreases n
  {
    if n == 0 then v else Halved(v / 2, n - 1)
  }

  lemma {:induction false} BitOfHalved(v: nat, n: nat, k: nat)
    ensures Bit(Halved(v, n), k) <==> Bit(v, k + n)
    decreases n
  {
    if n > 0 {
      BitOfHalved(v / 2, n - 1, k);
    }
  }

  lemma {:induction false} HalvedDivides(v: nat, n: nat)
    ensures v / Pow2(n) == Halved(v, n)
    decreases n
  {
    if n > 0 {
      var p := Pow2(n - 1);
      HalvedDivides(v / 2, n - 1);
      HalfFirst(v, p);
      assert Pow2(n) == 2 * p;
    }
  }

  /** Dividing by 2p is halving and dividing by p. */
  lemma {:induction false} HalfFirst(v: nat, p: nat)
    requires p > 0
    ensures v / (2 * p) == v / 2 / p
  {
    var h := v / 2;
    var q, r := h / p, h % p;
    assert h == p * q + r;
    var r2 := 2 * r + v % 2;
    assert v == (2 * p) * q + r2 by {
      assert 2 * (p * q) == (2 * p) * q;
    }
    DivUnique(v, 2 * p, q, r2);
  }

  lemma {:induction false} DivUnique(v: nat, m: nat, k: nat, r: nat)
    requires m > 0 && r < m && v == m * k + r
    ensures v / m == k
  {
    ModUnique(v, m, k, r);
    assert m * (v / m) == m * k;
  }

  /** The low n bits of v. */
  function LowOf(v: nat, n: nat): nat
    decreases n
  {
    if n == 0 then 0 else v % 2 + 2 * LowOf(v / 2, n - 1)
  }

  lemma {:induction false} BitOfLow(v: nat, n: nat, k: nat)
    ensures Bit(LowOf(v, n), k) <==> k < n && Bit(v, k)
    decreases n
  {
    if n == 0 {
      NoBits(k);
    } else if k > 0 {
      BitOfLow(v / 2, n - 1, k - 1);
    }
  }

  lemma {:induction false} LowIsRemainder(v: nat, n: nat)
    ensures v % Pow2(n) == LowOf(v, n)
    decreases n
  {
    if n > 0 {
      var p := Pow2(n - 1);
      LowIsRemainder(v / 2, n - 1);
      RemainderHalves(v, p);
      assert Pow2(n) == 2 * p;
    }
  }

  lemma BitOfRemainder(v: nat, n: nat, k: nat)
    ensures Bit(v % Pow2(n), k) <==> k < n && Bit(v, k)
  {
    LowIsRemainder(v, n);
    BitOfLow(v, n, k);
  }

  lemma {:induction false} NoBits(k: nat)
    ensures !Bit(0, k)
  {
    if k > 0 {
      NoBits(k - 1);
    }
  }

  lemma {:induction false} RemainderHalves(v: nat, p: nat)
    requires p > 0
    ensures v % (2 * p) == v % 2 + 2 * (v / 2 % p)
  {
    var h := v / 2;
    var q, r := h / p, h % p;
    assert h == p * q + r;
    assert v == (2 * p) * q + (2 * r + v % 2) by {
      assert 2 * (p * q) == (2 * p) * q;
    }
    ModUnique(v, 2 * p, q, 2 * r + v % 2);
  }

  lemma Pow32()
    ensures Pow2(32) == TWO32
  {
    assert Pow2(4) == 16;
    PowSplit(4, 4);
    PowSplit(8, 8);
    PowSplit(16, 16);
  }

  // ----- arithmetic -----

  /** r is the machine word that stands for x modulo the given power of two. */
  predicate WordOf(r: nat, x: int, size: int) {
    0 < size && r < size && (r - x) % size == 0
  }

  /** The bits of x moved up by n within 64. */
  predicate MovedUp(x: nat, n: nat, r: nat) {
    forall k :: 0 <= k < 64 ==> (Bit(r, k) <==> k >= n && Bit(x, k - n))
  }

  /** The low `width` bits of x moved down by n. */
  predicate MovedDown(x: nat, n: nat, width: nat, r: nat) {
    forall k :: 0 <= k < width ==> (Bit(r, k) <==> k + n < width && Bit(x, k + n))
  }

  /** What a 64-bit operation makes of the words x and y. */
  predicate Computes64(op: bv8, x: u64, y: u64, r: u64) {
    && (op == BPF_ADD ==> WordOf(r, x + y, TWO64))
    && (op == BPF_SUB ==> WordOf(r, x - y, TWO64))
    && (op == BPF_LSH ==> MovedUp(x, y % 64, r))
    && (op == BPF_RSH ==> MovedDown(x, y % 64, 64, r))
  }

  /** The quotient and the remainder of unsigned division, which is total: a zero divisor gives
      the quotient zero and leaves the dividend as the remainder. */
  predicate Divides(x: nat, y: nat, q: nat, r: nat) {
    x == q * y + r && (y > 0 ==> r < y) && (y == 0 ==> q == 0)
  }

  /** What a 32-bit operation makes of the low words of x and y; the high word of the result is
      zero. */
  ghost predicate Computes32(op: bv8, x: u64, y: u64, r: u64) {
    && r < TWO32
    && (op == BPF_SUB ==> WordOf(r, x - y, TWO32))
    && (op == BPF_RSH ==> MovedDown(x, y % 32, 32, r))
    && (op == BPF_DIV ==> exists rest: nat :: Divides(ToU32(x), ToU32(y), r, rest))
    && (op == BPF_MOD ==> exists quotient: nat :: Divides(ToU32(x), ToU32(y), quotient, r))
  }

  lemma LeftShift(x: u64, n: nat, k: nat)
    requires n < 64 && k < 64
    ensures Bit(ToU64(x * Pow2(n)), k) <==> k >= n && Bit(x, k - n)
  {
    Pow64();
    BitOfRemainder(x * Pow2(n), 64, k);
    BitOfProduct(x, n, k);
  }

  lemma {:induction false} HighBits(x: nat, n: nat, k: nat)
    requires x < Pow2(n) && k >= n
    ensures !Bit(x, k)
  {
    BitOfRemainder(x, n, k);
    SmallRemainder(x, Pow2(n));
  }

  lemma SmallRemainder(x: nat, p: nat)
    requires x < p
    ensures x % p == x
  {
  }

  lemma RightShift(x: nat, n: nat, k: nat, width: nat)
    requires x < Pow2(width)
    ensures Bit(Halved(x, n), k) <==> k + n < width && Bit(x, k + n)
  {
    BitOfHalved(x, n, k);
    if k + n >= width {
      HighBits(x, width, k + n);
    }
  }

  lemma LeftMoves(x: u64, n: nat)
    requires n < 64
    ensures MovedUp(x, n, ToU64(x * Pow2(n)))
  {
    forall k | 0 <= k < 64
      ensures Bit(ToU64(x * Pow2(n)), k) <==> k >= n && Bit(x, k - n)
    {
      LeftShift(x, n, k);
    }
  }

  lemma RightMoves(x: nat, n: nat, width: nat)
    requires x < Pow2(width)
    ensures MovedDown(x, n, width, Halved(x, n))
  {
    forall k | 0 <= k < width
      ensures Bit(Halved(x, n), k) <==> k + n < width && Bit(x, k + n)
    {
      RightShift(x, n, k, width);
    }
  }

  lemma ShiftsMean64(x: u64, y: u64)
    ensures Alu64(x, BPF_LSH, y).Ok? && MovedUp(x, y % 64, Alu64(x, BPF_LSH, y).value)
    ensures Alu64(x, BPF_RSH, y).Ok? && MovedDown(x, y % 64, 64, Alu64(x, BPF_RSH, y).value)
  {
    Pow64();
    LeftMoves(x, y % 64);
    HalvedDivides(x, y % 64);
    RightMoves(x, y % 64, 64);
  }

  lemma LowShift(y: u64)
    ensures ToU32(y) % 32 == y % 32
  {
    var q, r := y / TWO32, y % TWO32;
    assert y == TWO32 * q + r;
    ModUnique(y, 32, 0x800_0000 * q + r / 32, r % 32);
  }

  lemma LowBits(x: u64, n: nat, r: nat)
    requires MovedDown(ToU32(x), n, 32, r)
    ensures MovedDown(x, n, 32, r)
  {
    Pow32();
    forall k | 0 <= k < 32
      ensures Bit(r, k) <==> k + n < 32 && Bit(x, k + n)
    {
      BitOfRemainder(x, 32, k + n);
    }
  }

  lemma ShiftMeans32(x: u64, y: u64)
    ensures Alu32(x, BPF_RSH, y).Ok? && Alu32(x, BPF_RSH, y).value < TWO32
    ensures MovedDown(x, y % 32, 32, Alu32(x, BPF_RSH, y).value)
  {
    var n := y % 32;
    assert Alu32(x, BPF_RSH, y) == Ok(ToU32(x) / Pow2(n)) by {
      LowShift(y);
    }
    ShiftBound(ToU32(x), n);
    Pow32();
    HalvedDivides(ToU32(x), n);
    RightMoves(ToU32(x), n, 32);
    LowBits(x, n, Halved(ToU32(x), n));
  }

  lemma WordExists(x: int)
    ensures WordOf(ToU64(x), x, TWO64)
  {
    assert x == TWO64 * (x / TWO64) + x % TWO64;
  }

  lemma Word32Exists(x: int)
    ensures WordOf(ToU32(x), x, TWO32)
  {
    assert x == TWO32 * (x / TWO32) + x % TWO32;
  }

  lemma TwoWords(lo: u32, hi: u32)
    ensures (lo + hi * TWO32) % TWO32 == lo && (lo + hi * TWO32) / TWO32 == hi
  {
  }

  lemma WordDifference(x: u64, y: u64)
    ensures WordOf(ToU32(ToU32(x) - ToU32(y)), x - y, TWO32)
  {
    var d := ToU32(x) - ToU32(y);
    assert x == TWO32 * (x / TWO32) + ToU32(x) && y == TWO32 * (y / TWO32) + ToU32(y);
    assert d == TWO32 * (d / TWO32) + ToU32(d);
    var k := y / TWO32 - x / TWO32 - d / TWO32;
    assert ToU32(d) - (x - y) == TWO32 * k;
  }

  lemma SumsMean(x: u64, y: u64)
    ensures Alu64(x, BPF_ADD, y).Ok? && WordOf(Alu64(x, BPF_ADD, y).value, x + y, TWO64)
    ensures Alu64(x, BPF_SUB, y).Ok? && WordOf(Alu64(x, BPF_SUB, y).value, x - y, TWO64)
    ensures Alu32(x, BPF_SUB, y).Ok? && WordOf(Alu32(x, BPF_SUB, y).value, x - y, TWO32)
  {
    WordExists(x + y);
    WordExists(x - y);
    WordDifference(x, y);
  }

  lemma DivisionMeans(x: u64, y: u64)
    ensures Alu32(x, BPF_DIV, y).Ok? && Alu32(x, BPF_MOD, y).Ok?
    ensures Alu32(x, BPF_DIV, y).value < TWO32 && Alu32(x, BPF_MOD, y).value < TWO32
    ensures Divides(ToU32(x), ToU32(y), Alu32(x, BPF_DIV, y).value, Alu32(x, BPF_MOD, y).value)
  {
    DivModSplit(x, y);
    if ToU32(y) > 0 {
      Div32Bound(ToU32(x), ToU32(y));
    }
  }

  predicate Exists64(op: bv8) { op in {BPF_ADD, BPF_SUB, BPF_LSH, BPF_RSH} }

  predicate Exists32(op: bv8) { op in {BPF_SUB, BPF_RSH, BPF_DIV, BPF_MOD} }

  /** Which operations exist, and what each computes. */
  lemma AluComputes(op: bv8, x: u64, y: u64)
    requires op != BPF_MOV
    ensures if Exists64(op) then Alu64(x, op, y).Ok? && Computes64(op, x, y, Alu64(x, op, y).value)
            else Alu64(x, op, y) == Err(ENOSYS)
    ensures if Exists32(op) then Alu32(x, op, y).Ok? && Computes32(op, x, y, Alu32(x, op, y).value)
            else Alu32(x, op, y) == Err(ENOSYS)
  {
    SumsMean(x, y);
    ShiftsMean64(x, y);
    ShiftMeans32(x, y);
    DivisionMeans(x, y);
  }

  // ----- whole instructions -----

  /** Only the destination register and the counter have changed. */
  predicate SetsRegister(m: Machine, heap: Heap, o: Outcome, r: nat, pc: nat) {
    && o.Next? && o.heap == heap && o.m.pc == pc && o.m.stack == m.stack
    && r < 11 && forall k :: 0 <= k < 11 && k != r ==> o.m.regs[k] == m.regs[k]
  }

  predicate At(p: Prog, m: Machine, i: Insn) {
    m.pc < |p.insns| && p.insns[m.pc] == i && Dst(i) < MAX_REG && Src(i) < MAX_REG
  }

  /** Arithmetic between scalars, with a register or a sign-extended immediate on the right. */
  lemma AluInsn(p: Prog, packet: Bytes, m: Machine, heap: Heap, i: Insn, x: u64, y: u64)
    requires At(p, m, i) && Class(i) in {BPF_ALU, BPF_ALU64} && Op(i) != BPF_MOV && m.regs[Dst(i)] == Scalar(x)
    requires if SrcIsReg(i) then m.regs[Src(i)] == Scalar(y) else WordOf(y, i.imm, TWO64)
    ensures
      var o := Step(p, packet, m, heap);
      if (if Class(i) == BPF_ALU64 then Exists64(Op(i)) else Exists32(Op(i))) then
        && SetsRegister(m, heap, o, Dst(i), m.pc + 1) && o.m.regs[Dst(i)].Scalar?
        && (if Class(i) == BPF_ALU64 then Computes64(Op(i), x, y, o.m.regs[Dst(i)].v)
            else Computes32(Op(i), x, y, o.m.regs[Dst(i)].v))
      else o == Fault(ENOSYS)
  {
    AluComputes(Op(i), x, y);
    assert ToU64(i.imm) == y || SrcIsReg(i);
  }

  /** A move copies a register as it is, or makes a scalar of the immediate: sign-extended to 64
      bits, or its 32 bits alone. */
  lemma MoveInsn(p: Prog, packet: Bytes, m: Machine, heap: Heap, i: Insn)
    requires At(p, m, i) && Class(i) in {BPF_ALU, BPF_ALU64} && Op(i) == BPF_MOV
    ensures
      var o := Step(p, packet, m, heap);
      && SetsRegister(m, heap, o, Dst(i), m.pc + 1)
      && var v := o.m.regs[Dst(i)];
         if SrcIsReg(i) then v == m.regs[Src(i)]
         else v.Scalar? && WordOf(v.v, i.imm, if Class(i) == BPF_ALU64 then TWO64 else TWO32)
  {
  }

  /** The 64-bit load puts the two immediates together, low word first, or names a map. */
  lemma WideInsn(p: Prog, packet: Bytes, m: Machine, heap: Heap, i: Insn)
    requires At(p, m, i) && IsLddw(i) && m.pc + 1 < |p.insns|
    ensures
      var o := Step(p, packet, m, heap);
      && SetsRegister(m, heap, o, Dst(i), m.pc + 2)
      && var v := o.m.regs[Dst(i)];
         if Src(i) == PSEUDO_MAP_FD then v.MapFd? && WordOf(v.fd, i.imm, TWO32)
         else
           && v.Scalar? && WordOf(v.v % TWO32, i.imm, TWO32)
           && WordOf(v.v / TWO32, p.insns[m.pc + 1].imm, TWO32)
  {
    var next := p.insns[m.pc + 1];
    Word32Exists(i.imm);
    Word32Exists(next.imm);
    TwoWords(ToU32(i.imm), ToU32(next.imm));
    assert Step(p, packet, m, heap) == StepLddw(p, m, heap);
  }

  /** JEQ jumps when the two values are equal and JNE when they are not; nothing else changes. */
  lemma JumpInsn(p: Prog, packet: Bytes, m: Machine, heap: Heap, i: Insn, x: u64, y: u64)
    requires At(p, m, i) && IsCondJump(i) && m.regs[Dst(i)] == Scalar(x) && m.pc + 1 + i.off >= 0
    requires if SrcIsReg(i) then m.regs[Src(i)] == Scalar(y) else WordOf(y, i.imm, TWO64)
    ensures
      var jumps := if Op(i) == BPF_JEQ then x == y else x != y;
      Step(p, packet, m, heap) == Next(m.(pc := if jumps then m.pc + 1 + i.off else m.pc + 1), heap)
  {
    assert ToU64(i.imm) == y || SrcIsReg(i);
  }

  /** Comparing the result of a lookup with zero tells a miss from a hit. */
  lemma NullCheckInsn(p: Prog, packet: Bytes, m: Machine, heap: Heap, i: Insn)
    requires At(p, m, i) && IsCondJump(i) && !SrcIsReg(i) && i.imm == 0 && m.pc + 1 + i.off >= 0
    requires m.regs[Dst(i)].Null? || m.regs[Dst(i)].MapValuePtr?
    ensures
      var jumps := if Op(i) == BPF_JEQ then m.regs[Dst(i)].Null? else m.regs[Dst(i)].MapValuePtr?;
      Step(p, packet, m, heap) == Next(m.(pc := if jumps then m.pc + 1 + i.off else m.pc + 1), heap)
  {
  }

  /** The bytes of a value in memory, least significant first. */
  predicate Spells(v: nat, memory: Bytes, at: int, len: nat) {
    && 0 <= at && at + len <= |memory| && v < Pow256(len)
    && forall k :: 0 <= k < len ==> Byte(v, k) == memory[at + k]
  }

  lemma SpellsRead(bytes: Bytes, memory: Bytes, at: nat)
    requires at + |bytes| <= |memory| && bytes == memory[at..at + |bytes|]
    ensures Spells(FromLe(bytes), memory, at, |bytes|)
  {
    FromLeBound(bytes);
    forall k | 0 <= k < |bytes|
      ensures Byte(FromLe(bytes), k) == memory[at + k]
    {
      FromLeByte(bytes, k);
    }
  }

  /** The width an opcode of the four memory classes stands for. */
  lemma OpcodeWidth(i: Insn)
    requires IsMem(i, BPF_LDX)
    ensures i.code in {0x71, 0x69, 0x61, 0x79}
    ensures SizeToLen(Size(i)) ==
      Ok(if i.code == 0x71 then 1 else if i.code == 0x69 then 2 else if i.code == 0x61 then 4 else 8)
  {
    var c := i.code;
    assert c & 0x07 == 0x01 && c & 0xe0 == 0x60 ==> c == 0x61 || c == 0x69 || c == 0x71 || c == 0x79;
    assert 0x61 & 0x18 == 0 as bv8 && 0x69 & 0x18 == 0x08 as bv8;
    assert 0x71 & 0x18 == 0x10 as bv8 && 0x79 & 0x18 == 0x18 as bv8;
  }

  /** A load puts the little-endian value of the bytes into its register and changes nothing else,
      or ends the run with the error of the access. */
  lemma LoadInsn(p: Prog, packet: Bytes, m: Machine, heap: Heap, i: Insn, len: nat)
    requires At(p, m, i) && IsMem(i, BPF_LDX) && SizeToLen(Size(i)) == Ok(len)
    ensures
      var r, o := LoadBytes(p, heap, m.stack, packet, m.regs[Src(i)], i.off, len), Step(p, packet, m, heap);
      if r.Ok? then SetsRegister(m, heap, o, Dst(i), m.pc + 1) && o.m.regs[Dst(i)] == ScalarOf(r.value)
      else o == Fault(r.error)
  {
  }

  function ScalarOf(bytes: Bytes): Value {
    if |bytes| <= 8 then WidthBound(bytes); Scalar(FromLe(bytes)) else Null
  }

  /** A load whose access gives a piece of some memory leaves the value spelled there. */
  lemma LoadSpelled(p: Prog, packet: Bytes, m: Machine, heap: Heap, i: Insn, len: nat, memory: Bytes, at: nat)
    requires At(p, m, i) && IsMem(i, BPF_LDX) && SizeToLen(Size(i)) == Ok(len) && at + len <= |memory|
    requires LoadBytes(p, heap, m.stack, packet, m.regs[Src(i)], i.off, len) == Ok(memory[at..at + len])
    ensures Loads(m, heap, Step(p, packet, m, heap), Dst(i), memory, at, len)
  {
    SizeAlwaysValid(i);
    LoadInsn(p, packet, m, heap, i, len);
    SpellsRead(memory[at..at + len], memory, at);
  }

  /** The turn puts the value spelled in memory into the register. */
  predicate Loads(m: Machine, heap: Heap, o: Outcome, r: nat, memory: Bytes, at: int, len: nat) {
    && SetsRegister(m, heap, o, r, m.pc + 1) && o.m.regs[r].Scalar?
    && Spells(o.m.regs[r].v, memory, at, len)
  }

  /** A packet load succeeds exactly inside the packet, and then gives the bytes of the packet at
      the pointer's offset; outside it reports EACCES, or EINVAL if the offset overflows. */
  lemma PacketLoad(p: Prog, heap: Heap, stack: Stack, packet: Bytes, at: i64, off: i16, len: nat)
    ensures
      var r := LoadBytes(p, heap, stack, packet, PacketPtr(at), off, len);
      && (r.Ok? <==> InI64(at + off) && 0 <= at + off && at + off + len <= |packet|)
      && (r.Ok? ==> |r.value| == len && forall k :: 0 <= k < len ==> r.value[k] == packet[at + off + k])
      && (r.Err? ==> r.error == if InI64(at + off) then EACCES else EINVAL)
  {
  }

  /** A load through a packet pointer leaves the little-endian value of the packet's bytes in the
      register, for every width. */
  lemma LoadPacketInsn(p: Prog, packet: Bytes, m: Machine, heap: Heap, i: Insn, at: i64, len: nat)
    requires At(p, m, i) && IsMem(i, BPF_LDX) && SizeToLen(Size(i)) == Ok(len) && m.regs[Src(i)] == PacketPtr(at)
    ensures
      var o := Step(p, packet, m, heap);
      if InI64(at + i.off) && 0 <= at + i.off && at + i.off + len <= |packet| then
        Loads(m, heap, o, Dst(i), packet, at + i.off, len)
      else o == Fault(if InI64(at + i.off) then EACCES else EINVAL)
  {
    PacketLoad(p, heap, m.stack, packet, at, i.off, len);
    var r := LoadBytes(p, heap, m.stack, packet, PacketPtr(at), i.off, len);
    if r.Ok? {
      assert r.value == packet[at + i.off..at + i.off + len];
      LoadSpelled(p, packet, m, heap, i, len, packet, at + i.off);
    } else {
      LoadInsn(p, packet, m, heap, i, len);
    }
  }

  /** Where a pointer into the stack points; the frame pointer is the top of the stack. */
  predicate PointsTo(v: Value, base: int) {
    (v.FramePtr? && base == 0) || (v.StackPtr? && v.base == base)
  }

  lemma StackLoad(p: Prog, heap: Heap, stack: Stack, packet: Bytes, v: Value, base: int, off: i16, len: nat)
    requires PointsTo(v, base)
    ensures
      var at := STACK_SIZE + base + off;
      LoadBytes(p, heap, stack, packet, v, off, len) ==
        if 0 <= at && at + len <= STACK_SIZE then Ok(stack[at..at + len]) else Err(EFAULT)
  {
  }

  /** The same for the stack, whose address 0 is its top. */
  lemma LoadStackInsn(p: Prog, packet: Bytes, m: Machine, heap: Heap, i: Insn, base: int, len: nat)
    requires At(p, m, i) && IsMem(i, BPF_LDX) && SizeToLen(Size(i)) == Ok(len) && PointsTo(m.regs[Src(i)], base)
    ensures
      var o, at := Step(p, packet, m, heap), STACK_SIZE + base + i.off;
      if 0 <= at && at + len <= STACK_SIZE then Loads(m, heap, o, Dst(i), m.stack, at, len) else o == Fault(EFAULT)
  {
    var at := STACK_SIZE + base + i.off;
    StackLoad(p, heap, m.stack, packet, m.regs[Src(i)], base, i.off, len);
    if 0 <= at && at + len <= STACK_SIZE {
      LoadSpelled(p, packet, m, heap, i, len, m.stack, at);
    } else {
      LoadInsn(p, packet, m, heap, i, len);
    }
  }

  /** The same through the pointer of a lookup hit: the bytes are those of the key's entry. */
  lemma LoadHitInsn(p: Prog, packet: Bytes, m: Machine, heap: Heap, i: Insn, fd: u32, key: Bytes, len: nat)
    requires At(p, m, i) && IsMem(i, BPF_LDX) && SizeToLen(Size(i)) == Ok(len)
    requires m.regs[Src(i)] == MapValuePtr(fd, key, 0) && ValidHeap(heap) && WithMap(p, heap, fd).Ok?
    requires
      var file := WithMap(p, heap, fd).value;
      && SupportsElements(file) && |key| == file.keySize && key in Dict(file)
      && 0 <= i.off && i.off + len <= |Dict(file)[key]|
    ensures Loads(m, heap, Step(p, packet, m, heap), Dst(i), Dict(WithMap(p, heap, fd).value)[key], i.off, len)
  {
    HitReadsEntry(p, heap, m.stack, packet, fd, key, i.off, len);
    LoadSpelled(p, packet, m, heap, i, len, Dict(WithMap(p, heap, fd).value)[key], i.off);
  }

  /** The stack after the low bytes of v have been written at a place. */
  predicate Written(before: Stack, after: Stack, at: int, len: nat, v: nat) {
    forall k :: 0 <= k < STACK_SIZE ==> after[k] == if at <= k < at + len then Byte(v, k - at) else before[k]
  }

  lemma SpliceWrites(stack: Stack, at: nat, len: nat, v: nat)
    requires at + len <= STACK_SIZE
    ensures Written(stack, Splice(stack, at, LeBytes(v, len)), at, len, v)
  {
    forall k: nat | k < len
      ensures LeBytes(v, len)[k] == Byte(v, k)
    {
      LeBytesByte(v, len, k);
    }
  }

  lemma StackStore(p: Prog, heap: Heap, stack: Stack, v: Value, base: int, off: i16, data: Bytes)
    requires PointsTo(v, base)
    ensures
      var at := STACK_SIZE + base + off;
      StoreValue(p, heap, stack, v, off, data) ==
        if 0 <= at && at + |data| <= STACK_SIZE then Ok((Splice(stack, at, data), heap)) else Err(EFAULT)
  {
  }

  lemma StoreStack(p: Prog, i: Insn, m: Machine, heap: Heap, base: int, v: u64)
    requires Dst(i) < MAX_REG && PointsTo(m.regs[Dst(i)], base) && SizeToLen(Size(i)).Ok?
    ensures
      var o, len, at := StepStore(p, i, m, heap, v), SizeToLen(Size(i)).value, STACK_SIZE + base + i.off;
      if 0 <= at && at + len <= STACK_SIZE then
        && o.Next? && o.heap == heap && o.m.pc == m.pc + 1 && o.m.regs == m.regs
        && Written(m.stack, o.m.stack, at, len, v)
      else o == Fault(EFAULT)
  {
    var len, at := SizeToLen(Size(i)).value, STACK_SIZE + base + i.off;
    StackStore(p, heap, m.stack, m.regs[Dst(i)], base, i.off, LeBytes(v, len));
    if 0 <= at && at + len <= STACK_SIZE {
      SpliceWrites(m.stack, at, len, v);
    }
  }

  /** A store into the stack writes the low bytes of the value, least significant first, where the
      pointer points, and changes nothing else. */
  lemma StoreStackInsn(p: Prog, packet: Bytes, m: Machine, heap: Heap, i: Insn, base: int, v: u64)
    requires At(p, m, i) && PointsTo(m.regs[Dst(i)], base)
    requires (IsMem(i, BPF_ST) && WordOf(v, i.imm, TWO64)) || (IsMem(i, BPF_STX) && m.regs[Src(i)] == Scalar(v))
    ensures
      var o, len, at := Step(p, packet, m, heap), SizeToLen(Size(i)).value, STACK_SIZE + base + i.off;
      if 0 <= at && at + len <= STACK_SIZE then
        && o.Next? && o.heap == heap && o.m.pc == m.pc + 1 && o.m.regs == m.regs
        && Written(m.stack, o.m.stack, at, len, v)
      else o == Fault(EFAULT)
  {
    SizeAlwaysValid(i);
    StoreStack(p, i, m, heap, base, v);
    assert IsMem(i, BPF_ST) ==> ToU64(i.imm) == v;
  }

  /** The key of a lookup is the bytes of the stack at the pointer, as many as the map's keys
      have; a pointer elsewhere or a key that leaves the stack is an error. */
  lemma KeyOnStack(stack: Stack, v: Value, base: int, len: nat)
    requires PointsTo(v, base)
    ensures
      var r := StackKey(stack, v, len);
      && (r.Ok? <==> 0 <= STACK_SIZE + base && base + len <= 0)
      && (r.Ok? ==> |r.value| == len && forall k :: 0 <= k < len ==> r.value[k] == stack[STACK_SIZE + base + k])
      && (r.Err? ==> r.error == EFAULT)
  {
  }

  /** The lookup helper, for a map in r1 and a pointer into the stack in r2: the key must lie in
      the stack and the map must hold elements; then the answer is a pointer to the key's entry
      if the map binds the key, and null if not. */
  lemma LookupExact(p: Prog, m: Machine, heap: Heap, fd: u32, file: BpfMap, base: int)
    requires m.regs[1] == MapFd(fd) && PointsTo(m.regs[2], base)
    requires WithMap(p, heap, fd) == Ok(file) && ValidMap(file)
    ensures
      var at := STACK_SIZE + base;
      CallLookup(p, m, heap) ==
        if at < 0 || at + file.keySize > STACK_SIZE then Err(EFAULT)
        else if !SupportsElements(file) then Err(EOPNOTSUPP)
        else Ok(if m.stack[at..at + file.keySize] in Dict(file) then MapValuePtr(fd, m.stack[at..at + file.keySize], 0)
                else Null)
  {
    var at := STACK_SIZE + base;
    KeyOnStack(m.stack, m.regs[2], base, file.keySize);
    if 0 <= at && at + file.keySize <= STACK_SIZE {
      var key := m.stack[at..at + file.keySize];
      assert StackKey(m.stack, m.regs[2], file.keySize) == Ok(key);
      LookupReadsDict(file, key);
    }
  }

  /** A load from a map value succeeds exactly inside the value of a bound key. */
  lemma MapLoadExact(p: Prog, heap: Heap, fd: u32, file: BpfMap, key: Bytes, offset: nat, len: nat)
    requires WithMap(p, heap, fd) == Ok(file) && ValidMap(file) && SupportsElements(file) && |key| == file.keySize
    ensures MapLoad(p, heap, fd, key, offset, len) ==
      if key !in Dict(file) then Err(ENOENT)
      else if offset + len > |Dict(file)[key]| then Err(EACCES)
      else Ok(Dict(file)[key][offset..offset + len])
  {
    LookupReadsDict(file, key);
  }

  /** Adding a scalar to a pointer, or subtracting it, moves the pointer by the signed value as
      long as the offset fits in 64 bits; every other operation is refused. */
  lemma PointerMoves(v: Value, op: bv8, y: u64, is64: bool)
    requires (v.FramePtr? || v.StackPtr? || v.PacketPtr?) && op != BPF_MOV
    ensures
      var r := ExecAlu(v, op, y, is64);
      var cur := if v.FramePtr? then 0 else if v.StackPtr? then v.base else v.offset;
      var delta := if y < TWO63 then y else y - TWO64;
      var to := if op == BPF_ADD then cur + delta else cur - delta;
      && (r.Ok? <==> op == BPF_ADD || op == BPF_SUB) && (r.Err? ==> r.error == ENOSYS)
      && (r.Ok? ==> if v.PacketPtr? then r.value.PacketPtr? else r.value.StackPtr?)
      && (r.Ok? && InI64(to) ==> r.value == if v.PacketPtr? then PacketPtr(to) else StackPtr(to))
  {
    var cur := if v.FramePtr? then 0 else if v.StackPtr? then v.base else v.offset;
    var delta := if y < TWO63 then y else y - TWO64;
    WrapNear(cur + delta);
    WrapNear(cur - delta);
  }
}
