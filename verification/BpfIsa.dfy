/** Instruction encoding, machine integers and register values of the BPF virtual
    machine (src/bpf/uapi.rs and the conversions of src/bpf/runtime.rs). */
module BpfIsa {

  // ----- machine integers -----

  const TWO32: int := 0x1_0000_0000
  const TWO63: int := 0x8000_0000_0000_0000
  const TWO64: int := 0x1_0000_0000_0000_0000

  type u8 = x: int | 0 <= x < 0x100
  type u32 = x: int | 0 <= x < 0x1_0000_0000
  type u64 = x: int | 0 <= x < 0x1_0000_0000_0000_0000
  type i16 = x: int | -0x8000 <= x < 0x8000
  type i32 = x: int | -0x8000_0000 <= x < 0x8000_0000
  type i64 = x: int | -0x8000_0000_0000_0000 <= x < 0x8000_0000_0000_0000

  predicate InI64(x: int) {
    -TWO63 <= x < TWO63
  }

  /** A cast to u32 of any integer type: keep the low 32 bits. */
  function ToU32(x: int): u32 {
    x % TWO32
  }

  /** A cast to u64 of any integer type: keep the low 64 bits. */
  function ToU64(x: int): u64 {
    x % TWO64
  }

  /** Reinterpret a u64 as i64 (two's complement). */
  function AsI64(v: u64): i64 {
    if v < TWO63 then v else v - TWO64
  }

  /** i64 wrapping arithmetic: the representative of x modulo 2^64. */
  function WrapI64(x: int): i64 {
    AsI64(ToU64(x))
  }

  function Pow2(n: nat): (p: nat)
    ensures p > 0
  {
    if n == 0 then 1 else 2 * Pow2(n - 1)
  }

  // ----- little-endian byte sequences -----

  /** The n low bytes of v, least significant first. */
  function LeBytes(v: nat, n: nat): (b: seq<u8>)
    ensures |b| == n
  {
    if n == 0 then [] else [v % 256] + LeBytes(v / 256, n - 1)
  }

  function FromLe(b: seq<u8>): nat {
    if b == [] then 0 else b[0] + 256 * FromLe(b[1..])
  }

  function Pow256(n: nat): (p: nat)
    ensures p > 0
  {
    if n == 0 then 1 else 256 * Pow256(n - 1)
  }

  /** n bytes never decode to more than n bytes can hold. */
  lemma {:induction false} FromLeBound(b: seq<u8>)
    ensures FromLe(b) < Pow256(|b|)
  {
    if b != [] {
      FromLeBound(b[1..]);
    }
  }

  /** Encoding and decoding n bytes keeps exactly the low 8n bits. */
  lemma {:induction false} LeRoundTrip(v: nat, n: nat)
    ensures FromLe(LeBytes(v, n)) == v % Pow256(n)
  {
    if n > 0 {
      LeRoundTrip(v / 256, n - 1);
      assert LeBytes(v, n)[1..] == LeBytes(v / 256, n - 1);
      ModSplit(v, Pow256(n - 1));
    }
  }

  /** v mod 256p, one byte at a time. */
  lemma {:induction false} ModSplit(v: nat, p: nat)
    requires p > 0
    ensures v % 256 + 256 * (v / 256 % p) == v % (256 * p)
  {
    var q := v / 256;
    var k := q / p;
    var r := v % 256 + 256 * (q % p);
    assert q == p * k + q % p;
    assert v == (256 * p) * k + r by {
      assert 256 * (p * k) == (256 * p) * k;
    }
    ModUnique(v, 256 * p, k, r);
  }

  lemma {:induction false} ModUnique(v: nat, m: nat, k: nat, r: nat)
    requires m > 0 && r < m && v == m * k + r
    ensures v % m == r
  {
    var k', r' := v / m, v % m;
    assert v == m * k' + r' && r' < m;
    MulDistinct(m, k, k', r, r');
  }

  lemma {:induction false} MulDistinct(m: nat, k: nat, k': nat, r: nat, r': nat)
    requires r < m && r' < m && m * k + r == m * k' + r'
    ensures r == r'
  {
    if k > k' {
      MulGap(m, k - k');
    } else if k < k' {
      MulGap(m, k' - k);
    }
  }

  lemma MulGap(m: nat, d: nat)
    requires d >= 1
    ensures m * d >= m
  {
  }

  // ----- instruction words -----

  datatype Insn = Insn(code: bv8, regs: bv8, off: i16, imm: i32)

  const BPF_LD: bv8 := 0x00
  const BPF_LDX: bv8 := 0x01
  const BPF_ST: bv8 := 0x02
  const BPF_STX: bv8 := 0x03
  const BPF_ALU: bv8 := 0x04
  const BPF_JMP: bv8 := 0x05
  const BPF_ALU64: bv8 := 0x07

  const BPF_W: bv8 := 0x00
  const BPF_H: bv8 := 0x08
  const BPF_B: bv8 := 0x10
  const BPF_DW: bv8 := 0x18

  const BPF_IMM: bv8 := 0x00
  const BPF_MEM: bv8 := 0x60

  const BPF_ADD: bv8 := 0x00
  const BPF_SUB: bv8 := 0x10
  const BPF_DIV: bv8 := 0x30
  const BPF_LSH: bv8 := 0x60
  const BPF_RSH: bv8 := 0x70
  const BPF_MOD: bv8 := 0x90
  const BPF_MOV: bv8 := 0xb0

  const BPF_JEQ: bv8 := 0x10
  const BPF_JNE: bv8 := 0x50
  const BPF_CALL: bv8 := 0x80
  const BPF_EXIT: bv8 := 0x90

  const PSEUDO_MAP_FD: nat := 1
  const FUNC_MAP_LOOKUP_ELEM: int := 1
  const MAX_REG: nat := 11
  const STACK_SIZE: nat := 512

  function Class(i: Insn): bv8 { i.code & 0x07 }
  function Mode(i: Insn): bv8 { i.code & 0xe0 }
  function Size(i: Insn): bv8 { i.code & 0x18 }
  function Op(i: Insn): bv8 { i.code & 0xf0 }
  predicate SrcIsReg(i: Insn) { i.code & 0x08 == 0x08 }
  function Dst(i: Insn): nat { (i.regs & 0x0f) as int }
  function Src(i: Insn): nat { (i.regs >> 4) as int }

  /** The first slot of a two-slot 64-bit immediate load. */
  predicate IsLddw(i: Insn) {
    Class(i) == BPF_LD && Mode(i) == BPF_IMM && Size(i) == BPF_DW
  }

  predicate IsMapLddw(i: Insn) {
    IsLddw(i) && Src(i) == PSEUDO_MAP_FD
  }

  predicate IsExit(i: Insn) {
    Class(i) == BPF_JMP && Op(i) == BPF_EXIT
  }

  predicate IsCondJump(i: Insn) {
    Class(i) == BPF_JMP && (Op(i) == BPF_JEQ || Op(i) == BPF_JNE)
  }

  /** A load or store of one of the four memory classes in MEM mode. */
  predicate IsMem(i: Insn, cls: bv8) {
    Class(i) == cls && Mode(i) == BPF_MEM
  }

  function SizeToLen(size: bv8): Result<nat> {
    if size == BPF_B then Ok(1)
    else if size == BPF_H then Ok(2)
    else if size == BPF_W then Ok(4)
    else if size == BPF_DW then Ok(8)
    else Err(ENOSYS)
  }

  /** The width field of an instruction always names a width. */
  lemma SizeAlwaysValid(i: Insn)
    ensures SizeToLen(Size(i)).Ok?
    ensures SizeToLen(Size(i)).value in {1, 2, 4, 8}
  {
    var c := i.code;
    assert c & 0x18 == 0 || c & 0x18 == 0x08 || c & 0x18 == 0x10 || c & 0x18 == 0x18;
  }

  // ----- results -----

  datatype Errno = EACCES | EFAULT | EINVAL | ENOSYS | EBADF | ENOENT | EOPNOTSUPP | E2BIG | EEXIST

  datatype Result<+T> = Ok(value: T) | Err(error: Errno)
  {
    predicate IsFailure() { Err? }
    function PropagateFailure<U>(): Result<U>
      requires Err?
    { Err(error) }
    function Extract(): T
      requires Ok?
    { value }
  }

  datatype Option<+T> = None | Some(value: T)
}
