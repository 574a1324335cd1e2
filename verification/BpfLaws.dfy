/** Laws of the interpreter's arithmetic and memory: what an instruction computes, said by
    what undoes it or reads it back. */
module BpfLaws {
  import opened BpfIsa
  import opened BpfMaps
  import opened BpfVerifier
  import opened BpfRuntime
  import opened BpfSafety

  // ----- arithmetic -----

  /** 64-bit subtraction of the operand undoes its addition, and the other way round. */
  lemma AddSubInverse(x: u64, y: u64)
    ensures Alu64(x, BPF_ADD, y).Ok? && Alu64(Alu64(x, BPF_ADD, y).value, BPF_SUB, y) == Ok(x)
    ensures Alu64(x, BPF_SUB, y).Ok? && Alu64(Alu64(x, BPF_SUB, y).value, BPF_ADD, y) == Ok(x)
    ensures Alu64(x, BPF_SUB, y).value == 0 <==> x == y
  {
  }

  /** Moving a pointer by an operand and back restores it, the wrap of i64 included; a frame
      pointer comes back as the stack pointer of offset 0. */
  lemma PointerMoveInverse(v: Value, y: u64)
    requires v.StackPtr? || v.PacketPtr? || v.FramePtr?
    ensures var w := ExecAlu(v, BPF_ADD, y, true);
      w.Ok? && ExecAlu(w.value, BPF_SUB, y, true) == Ok(if v.FramePtr? then StackPtr(0) else v)
    ensures v.StackPtr? && InI64(v.base + AsI64(y)) ==> ExecAlu(v, BPF_ADD, y, true) == Ok(StackPtr(v.base + AsI64(y)))
  {
    var cur := if v.FramePtr? then 0 else if v.StackPtr? then v.base else v.offset;
    WrapInverse(cur, AsI64(y));
    WrapNear(cur + AsI64(y));
  }

  lemma WrapNear(x: int)
    requires -TWO64 <= x < TWO64
    ensures WrapI64(x) == if x >= TWO63 then x - TWO64 else if x < -TWO63 then x + TWO64 else x
  {
  }

  lemma WrapInverse(a: i64, s: i64)
    ensures WrapI64(WrapI64(a + s) - s) == a
  {
    WrapNear(a + s);
    WrapNear(WrapI64(a + s) - s);
  }

  /** 32-bit division and remainder split the dividend; division by zero gives zero and
      remainder by zero the low word of the dividend. */
  lemma {:induction false} DivModSplit(x: u64, y: u64)
    ensures Alu32(x, BPF_DIV, y).Ok? && Alu32(x, BPF_MOD, y).Ok?
    ensures var q, r := Alu32(x, BPF_DIV, y).value, Alu32(x, BPF_MOD, y).value;
      && ToU32(x) == q * ToU32(y) + r
      && (ToU32(y) != 0 ==> r < ToU32(y))
      && (ToU32(y) == 0 ==> q == 0)
  {
    if ToU32(y) != 0 {
      assert ToU32(x) == ToU32(y) * (ToU32(x) / ToU32(y)) + ToU32(x) % ToU32(y);
    }
  }

  /** Shifting left by n and back keeps exactly the low 64 - n bits. */
  lemma {:induction false} ShiftRoundTrip(x: u64, n: nat)
    requires n < 64
    ensures Alu64(x, BPF_LSH, n).Ok?
    ensures Alu64(Alu64(x, BPF_LSH, n).value, BPF_RSH, n) == Ok(x % Pow2(64 - n))
  {
    var p := Pow2(n);
    assert Alu64(x, BPF_LSH, n) == Ok(ToU64(x * p));
    assert Alu64(ToU64(x * p), BPF_RSH, n) == Ok(ToU64(x * p) / p);
    ShiftCore64(x, n);
  }

  lemma ShiftCore64(x: nat, n: nat)
    requires n < 64
    ensures ToU64(x * Pow2(n)) / Pow2(n) == x % Pow2(64 - n)
  {
    PowSplit(n, 64 - n);
    Pow64();
    ShiftCore(x, Pow2(n), Pow2(64 - n));
  }

  lemma {:induction false} ShiftCore(x: nat, p: nat, q: nat)
    requires p > 0 && q > 0 && p * q > 0
    ensures x * p % (p * q) / p == x % q
  {
    var k, r := x / q, x % q;
    assert x == q * k + r;
    ScaleSum(p, q, k, r);
    MulLess(p, r, q);
    ModUnique(x * p, p * q, k, p * r);
    DivExact(p, r);
  }

  lemma ScaleSum(p: nat, q: nat, k: nat, r: nat)
    ensures (q * k + r) * p == (p * q) * k + p * r
  {
    assert (q * k) * p == (p * q) * k;
  }

  lemma {:induction false} PowSplit(a: nat, b: nat)
    ensures Pow2(a + b) == Pow2(a) * Pow2(b)
  {
    if a > 0 {
      PowSplit(a - 1, b);
      Regroup(Pow2(a - 1), Pow2(b));
    }
  }

  lemma Regroup(x: nat, y: nat)
    ensures 2 * (x * y) == (2 * x) * y
  {
  }

  lemma Pow64()
    ensures Pow2(64) == TWO64
  {
    assert Pow2(4) == 16;
    PowSplit(4, 4);
    PowSplit(8, 8);
    PowSplit(16, 16);
    PowSplit(32, 32);
  }

  lemma {:induction false} MulLess(p: nat, r: nat, q: nat)
    requires r < q && p > 0
    ensures p * r < p * q
  {
    assert p * q == p * r + p * (q - r);
    MulGap(p, q - r);
  }

  lemma {:induction false} DivExact(p: nat, r: nat)
    requires p > 0
    ensures p * r / p == r
  {
    var d := p * r / p;
    assert p * r == p * d + p * r % p;
    if d != r {
      if d < r {
        MulGap(p, r - d);
      } else {
        MulGap(p, d - r);
      }
    }
  }

  // ----- memory -----

  /** A store that succeeds is read back byte for byte through the same pointer, on the stack
      and in a map value alike. */
  lemma StoreLoadRoundTrip(p: Prog, heap: Heap, stack: Stack, packet: Bytes, v: Value, off: i16, data: Bytes)
    requires ValidHeap(heap) && StoreValue(p, heap, stack, v, off, data).Ok?
    ensures var (stack', heap') := StoreValue(p, heap, stack, v, off, data).value;
      LoadBytes(p, heap', stack', packet, v, off, |data|) == Ok(data)
  {
    match v {
      case FramePtr => SpliceRead(stack, StackIndex(0, off, |data|).value, data);
      case StackPtr(base) => SpliceRead(stack, StackIndex(base, off, |data|).value, data);
      case MapValuePtr(fd, key, at) => MapRoundTrip(p, heap, fd, key, at + off, data);
    }
  }

  lemma SpliceRead(value: Bytes, at: nat, data: Bytes)
    requires at + |data| <= |value|
    ensures Splice(value, at, data)[at..at + |data|] == data
  {
  }

  lemma MapRoundTrip(p: Prog, heap: Heap, fd: u32, key: Bytes, offset: nat, data: Bytes)
    requires ValidHeap(heap) && MapStore(p, heap, fd, key, offset, data).Ok?
    ensures MapLoad(p, MapStore(p, heap, fd, key, offset, data).value, fd, key, offset, |data|) == Ok(data)
  {
    var m := heap[p.handles[fd]];
    var m' := StoreBytes(m, key, offset, data).value;
    StoreWritesDict(m, key, offset, data);
    StoreKeyLength(m, key, offset, data);
    ReadsBound(m', key);
    SpliceRead(Dict(m)[key], offset, data);
  }

  lemma ReadsBound(m: BpfMap, key: Bytes)
    requires ValidMap(m) && SupportsElements(m) && |key| == m.keySize && key in Dict(m)
    ensures Lookup(m, key) == Ok(Some(Dict(m)[key]))
  {
    LookupReadsDict(m, key);
  }

  lemma StoreKeyLength(m: BpfMap, key: Bytes, offset: nat, data: Bytes)
    requires ValidMap(m) && StoreBytes(m, key, offset, data).Ok?
    ensures |key| == m.keySize && SupportsElements(m)
  {
  }

  /** A scalar stored with any width and loaded with the same width keeps its low bits. */
  lemma ScalarRoundTrip(p: Prog, heap: Heap, stack: Stack, packet: Bytes, v: Value, off: i16, i: Insn, x: u64)
    requires ValidHeap(heap)
    requires StoreData(x, Size(i)).Ok? && StoreValue(p, heap, stack, v, off, StoreData(x, Size(i)).value).Ok?
    ensures var (stack', heap') := StoreValue(p, heap, stack, v, off, StoreData(x, Size(i)).value).value;
      LoadValue(p, heap', stack', packet, v, off, Size(i)) == Ok(x % Pow256(SizeToLen(Size(i)).value))
  {
    var len := SizeToLen(Size(i)).value;
    StoreLoadRoundTrip(p, heap, stack, packet, v, off, LeBytes(x, len));
    LeRoundTrip(x, len);
  }

  /** A store touches nothing outside its own bytes: any stack range that does not meet them
      reads as before, and map files other than the one stored to stay as they were. */
  lemma StoreFrame(p: Prog, heap: Heap, stack: Stack, v: Value, off: i16, data: Bytes, a: nat, b: nat)
    requires a <= b <= STACK_SIZE && StoreValue(p, heap, stack, v, off, data).Ok?
    requires v.FramePtr? ==> b <= STACK_SIZE + off || STACK_SIZE + off + |data| <= a
    requires v.StackPtr? ==> b <= STACK_SIZE + v.base + off || STACK_SIZE + v.base + off + |data| <= a
    ensures var (stack', heap') := StoreValue(p, heap, stack, v, off, data).value;
      && stack'[a..b] == stack[a..b]
      && heap'.Keys == heap.Keys
      && (forall f :: f in heap && (v.MapValuePtr? ==> f != p.handles[v.map_fd]) ==> heap'[f] == heap[f])
  {
  }

  /** A lookup finds the key on the stack exactly when the dictionary binds it, and a hit is
      a pointer to that key's entry. */
  lemma LookupFindsKey(p: Prog, m: Machine, heap: Heap)
    requires ValidHeap(heap) && CallLookup(p, m, heap).Ok?
    ensures WithMap(p, heap, m.regs[1].fd).Ok?
    ensures var file := WithMap(p, heap, m.regs[1].fd).value;
      var key := StackKey(m.stack, m.regs[2], file.keySize);
      && key.Ok? && |key.value| == file.keySize && SupportsElements(file)
      && CallLookup(p, m, heap).value ==
           if key.value in Dict(file) then MapValuePtr(m.regs[1].fd, key.value, 0) else Null
  {
    var file := WithMap(p, heap, m.regs[1].fd).value;
    var key := StackKey(m.stack, m.regs[2], file.keySize).value;
    LookupReadsDict(file, key);
  }

  /** Loading through a hit pointer reads the entry's own bytes. */
  lemma HitReadsEntry(p: Prog, heap: Heap, stack: Stack, packet: Bytes, fd: u32, key: Bytes, off: i16, len: nat)
    requires ValidHeap(heap) && WithMap(p, heap, fd).Ok?
    requires var file := WithMap(p, heap, fd).value;
      && SupportsElements(file) && |key| == file.keySize && key in Dict(file)
      && 0 <= off && off + len <= |Dict(file)[key]|
    ensures LoadBytes(p, heap, stack, packet, MapValuePtr(fd, key, 0), off, len)
         == Ok(Dict(WithMap(p, heap, fd).value)[key][off..off + len])
  {
    ReadsBound(WithMap(p, heap, fd).value, key);
  }
}
