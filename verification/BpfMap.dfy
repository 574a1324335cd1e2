/** BPF maps: fixed-size hash and array stores shared between programs and the
    bpf() system call (src/bpf/map.rs). */
module BpfMaps {
  import opened BpfIsa

  type Bytes = seq<u8>

  datatype MapKind = HashKind | ArrayKind | RingBufKind

  datatype Storage =
    | Hash(entries: map<Bytes, Bytes>)
    | Array(values: seq<Bytes>)
    | RingBuf

  /** The value of a map file: its immutable shape and its current storage. */
  datatype BpfMap = BpfMap(keySize: u32, valueSize: u32, maxEntries: u32, storage: Storage)

  const BPF_ANY: int := 0
  const BPF_NOEXIST: int := 1
  const BPF_EXIST: int := 2
  const PAGE_SIZE: nat := 0x1000

  predicate IsPowerOfTwo(x: nat) {
    x == 1 || (x > 1 && x % 2 == 0 && IsPowerOfTwo(x / 2))
  }

  /** What every reachable map keeps: declared key and value lengths, and the entry bound. */
  ghost predicate ValidMap(m: BpfMap) {
    && m.maxEntries > 0
    && match m.storage
       case Hash(entries) =>
         && m.keySize > 0 && m.valueSize > 0
         && |entries| <= m.maxEntries
         && (forall k :: k in entries ==> |k| == m.keySize && |entries[k]| == m.valueSize)
       case Array(values) =>
         && m.keySize == 4 && m.valueSize > 0
         && |values| == m.maxEntries
         && (forall i :: 0 <= i < |values| ==> |values[i]| == m.valueSize)
       case RingBuf => m.keySize == 0 && m.valueSize == 0
  }

  function Create(kind: MapKind, keySize: u32, valueSize: u32, maxEntries: u32): (r: Result<BpfMap>)
    ensures r.Ok? ==> ValidMap(r.value)
  {
    if maxEntries == 0 then Err(EINVAL)
    else match kind
      case HashKind =>
        if keySize == 0 || valueSize == 0 then Err(EINVAL)
        else Ok(BpfMap(keySize, valueSize, maxEntries, Hash(map[])))
      case ArrayKind =>
        if keySize != 4 || valueSize == 0 then Err(EINVAL)
        else Ok(BpfMap(keySize, valueSize, maxEntries, Array(seq(maxEntries, _ => Zeros(valueSize)))))
      case RingBufKind =>
        if keySize != 0 || valueSize != 0 || !IsPowerOfTwo(maxEntries) || maxEntries % PAGE_SIZE != 0
        then Err(EINVAL)
        else Ok(BpfMap(keySize, valueSize, maxEntries, RingBuf))
  }

  function Zeros(n: nat): (z: Bytes)
    ensures |z| == n && forall i :: 0 <= i < n ==> z[i] == 0
  {
    seq(n, _ => 0)
  }

  function ArrayIndex(key: Bytes): Result<nat> {
    if |key| != 4 then Err(EINVAL) else Ok(FromLe(key))
  }

  function Lookup(m: BpfMap, key: Bytes): Result<Option<Bytes>> {
    match m.storage
    case Hash(entries) =>
      if |key| == m.keySize && key in entries then Ok(Some(entries[key])) else Ok(None)
    case Array(values) =>
      var i :- ArrayIndex(key);
      if i < |values| then Ok(Some(values[i])) else Ok(None)
    case RingBuf => Err(EOPNOTSUPP)
  }

  function Update(m: BpfMap, key: Bytes, value: Bytes, flags: u64): Result<BpfMap>
    requires ValidMap(m)
  {
    if |key| != m.keySize || |value| != m.valueSize then Err(EINVAL)
    else match m.storage
      case Hash(entries) =>
        if flags != BPF_ANY && flags != BPF_NOEXIST && flags != BPF_EXIST then Err(EINVAL)
        else if flags == BPF_NOEXIST && key in entries then Err(EEXIST)
        else if flags == BPF_EXIST && key !in entries then Err(ENOENT)
        else if key !in entries && |entries| >= m.maxEntries then Err(E2BIG)
        else Ok(m.(storage := Hash(entries[key := value])))
      case Array(values) =>
        var i :- ArrayIndex(key);
        if flags != BPF_ANY && flags != BPF_NOEXIST && flags != BPF_EXIST then Err(EINVAL)
        else if i >= m.maxEntries then Err(E2BIG)
        else if flags == BPF_NOEXIST then Err(EEXIST)
        else Ok(m.(storage := Array(values[i := value])))
      case RingBuf => Err(EOPNOTSUPP)
  }

  /** Overwrite `data` into `value` at `offset`. */
  function Splice(value: Bytes, offset: nat, data: Bytes): (r: Bytes)
    requires offset + |data| <= |value|
    ensures |r| == |value|
    ensures forall i :: 0 <= i < |value| ==>
      r[i] == if offset <= i < offset + |data| then data[i - offset] else value[i]
  {
    value[..offset] + data + value[offset + |data|..]
  }

  function StoreBytes(m: BpfMap, key: Bytes, offset: nat, data: Bytes): Result<BpfMap> {
    match m.storage
    case Hash(entries) =>
      if |key| != m.keySize then Err(EINVAL)
      else if key !in entries then Err(ENOENT)
      else if offset + |data| > |entries[key]| then Err(EACCES)
      else Ok(m.(storage := Hash(entries[key := Splice(entries[key], offset, data)])))
    case Array(values) =>
      var i :- ArrayIndex(key);
      if i >= |values| then Err(ENOENT)
      else if offset + |data| > |values[i]| then Err(EACCES)
      else Ok(m.(storage := Array(values[i := Splice(values[i], offset, data)])))
    case RingBuf => Err(EOPNOTSUPP)
  }

  // ----- the dictionary a map denotes, hash or array alike -----

  ghost function IndexKeys(n: nat): (keys: set<Bytes>)
    ensures forall k :: k in keys ==> |k| == 4
  {
    set i | 0 <= i < n :: LeBytes(i, 4)
  }

  /** A map as a plain dictionary. An array map is the dictionary whose keys are the
      4-byte little-endian encodings of its indices. */
  ghost function Dict(m: BpfMap): map<Bytes, Bytes> {
    match m.storage
    case Hash(entries) => entries
    case Array(values) =>
      map k | k in IndexKeys(|values|) && FromLe(k) < |values| :: values[FromLe(k)]
    case RingBuf => map[]
  }

  /** Decoding then encoding gives the bytes back, so array keys are in bijection with indices. */
  lemma {:induction false} LeOnto(b: Bytes)
    ensures LeBytes(FromLe(b), |b|) == b
  {
    if b != [] {
      LeOnto(b[1..]);
      LowByte(b[0], FromLe(b[1..]));
      assert b == [b[0]] + b[1..];
    }
  }

  lemma LowByte(h: u8, t: nat)
    ensures (h + 256 * t) % 256 == h && (h + 256 * t) / 256 == t
  {
  }

  lemma ArrayKeys(values: seq<Bytes>, key: Bytes)
    requires |key| == 4
    ensures key in IndexKeys(|values|) <==> FromLe(key) < |values|
  {
    LeOnto(key);
    assert Pow256(4) == 0x1_0000_0000;
    if FromLe(key) < |values| {
      assert LeBytes(FromLe(key), 4) == key;
    }
    forall i | 0 <= i < |values| && LeBytes(i, 4) == key
      ensures FromLe(key) < |values|
    {
      LeRoundTrip(i, 4);
      assert FromLe(key) == i % Pow256(4) <= i;
    }
  }

  predicate SupportsElements(m: BpfMap) {
    !m.storage.RingBuf?
  }

  /** Lookup reads the dictionary. The one asymmetry: a key of the wrong length misses in a
      hash map and is an error in an array map. */
  lemma LookupReadsDict(m: BpfMap, key: Bytes)
    requires ValidMap(m)
    ensures !SupportsElements(m) ==> Lookup(m, key) == Err(EOPNOTSUPP)
    ensures SupportsElements(m) && |key| == m.keySize ==>
      Lookup(m, key) == Ok(if key in Dict(m) then Some(Dict(m)[key]) else None)
    ensures m.storage.Hash? && |key| != m.keySize ==> Lookup(m, key) == Ok(None)
    ensures m.storage.Array? && |key| != m.keySize ==> Lookup(m, key) == Err(EINVAL)
  {
    if m.storage.Array? && |key| == 4 {
      ArrayKeys(m.storage.values, key);
    }
  }

  /** A successful update writes exactly one binding of the dictionary and keeps the map valid. */
  lemma UpdateWritesDict(m: BpfMap, key: Bytes, value: Bytes, flags: u64)
    requires ValidMap(m)
    requires Update(m, key, value, flags).Ok?
    ensures var m' := Update(m, key, value, flags).value;
      && ValidMap(m')
      && Dict(m') == Dict(m)[key := value]
      && |key| == m.keySize && |value| == m.valueSize
  {
    var m' := Update(m, key, value, flags).value;
    match m.storage {
      case Hash(entries) =>
      case Array(values) =>
        ArrayKeys(values, key);
        forall k | k in Dict(m)
          ensures Dict(m')[k] == Dict(m)[key := value][k]
        {
          assert |k| == 4;
          if FromLe(k) == FromLe(key) {
            LeOnto(k);
            LeOnto(key);
          }
        }
    }
  }

  /** A successful store overwrites a slice of one bound value; every other binding, the
      domain and all lengths stay. */
  lemma StoreWritesDict(m: BpfMap, key: Bytes, offset: nat, data: Bytes)
    requires ValidMap(m)
    requires StoreBytes(m, key, offset, data).Ok?
    ensures key in Dict(m) && offset + |data| <= |Dict(m)[key]|
    ensures var m' := StoreBytes(m, key, offset, data).value;
      && ValidMap(m')
      && Dict(m') == Dict(m)[key := Splice(Dict(m)[key], offset, data)]
  {
    var m' := StoreBytes(m, key, offset, data).value;
    match m.storage {
      case Hash(entries) =>
      case Array(values) =>
        ArrayKeys(values, key);
        SetsOneEntry(m, m', key, Splice(values[FromLe(key)], offset, data));
    }
  }

  /** Setting one element of an array map sets one binding of its dictionary. */
  lemma SetsOneEntry(m: BpfMap, m': BpfMap, key: Bytes, v: Bytes)
    requires m.storage.Array? && |key| == 4 && FromLe(key) < |m.storage.values| && key in IndexKeys(|m.storage.values|)
    requires m' == m.(storage := Array(m.storage.values[FromLe(key) := v]))
    ensures Dict(m') == Dict(m)[key := v]
  {
    forall k | k in Dict(m)
      ensures Dict(m')[k] == Dict(m)[key := v][k]
    {
      if FromLe(k) == FromLe(key) {
        LeOnto(k);
        LeOnto(key);
      }
    }
  }

  predicate SameShape(m: BpfMap, m': BpfMap) {
    && m.keySize == m'.keySize && m.valueSize == m'.valueSize && m.maxEntries == m'.maxEntries
    && SupportsElements(m) == SupportsElements(m')
  }

  /** A map grows from m to m': same shape, still valid, and no binding has gone. */
  ghost predicate MapGrows(m: BpfMap, m': BpfMap) {
    ValidMap(m') && SameShape(m, m') && Dict(m).Keys <= Dict(m').Keys
  }

  lemma BindingsStay(d: map<Bytes, Bytes>, d': map<Bytes, Bytes>, key: Bytes, value: Bytes)
    requires d' == d[key := value]
    ensures d.Keys <= d'.Keys
  {
  }

  lemma UpdateGrows(m: BpfMap, key: Bytes, value: Bytes, flags: u64)
    requires ValidMap(m) && Update(m, key, value, flags).Ok?
    ensures MapGrows(m, Update(m, key, value, flags).value)
  {
    UpdateWritesDict(m, key, value, flags);
    BindingsStay(Dict(m), Dict(Update(m, key, value, flags).value), key, value);
  }

  lemma StoreGrows(m: BpfMap, key: Bytes, offset: nat, data: Bytes)
    requires ValidMap(m) && StoreBytes(m, key, offset, data).Ok?
    ensures MapGrows(m, StoreBytes(m, key, offset, data).value)
  {
    StoreWritesDict(m, key, offset, data);
    BindingsStay(Dict(m), Dict(StoreBytes(m, key, offset, data).value), key, Splice(Dict(m)[key], offset, data));
  }

  /** Exactly when an update is refused, for a well-formed map that holds elements. */
  lemma UpdateRefusals(m: BpfMap, key: Bytes, value: Bytes, flags: u64)
    requires ValidMap(m) && SupportsElements(m)
    ensures Update(m, key, value, flags).Ok? <==>
      && |key| == m.keySize && |value| == m.valueSize
      && flags in {BPF_ANY, BPF_NOEXIST, BPF_EXIST}
      && (flags == BPF_NOEXIST ==> m.storage.Hash? && key !in Dict(m))
      && (flags == BPF_EXIST ==> key in Dict(m))
      && (key !in Dict(m) ==> m.storage.Hash? && |Dict(m)| < m.maxEntries)
  {
    if m.storage.Array? && |key| == 4 {
      ArrayKeys(m.storage.values, key);
    }
  }

  /** With which error an update is refused; the first reason in this order decides. */
  lemma UpdateErrors(m: BpfMap, key: Bytes, value: Bytes, flags: u64)
    requires ValidMap(m) && Update(m, key, value, flags).Err?
    ensures Update(m, key, value, flags).error ==
      if |key| != m.keySize || |value| != m.valueSize then EINVAL
      else if !SupportsElements(m) then EOPNOTSUPP
      else if flags !in {BPF_ANY, BPF_NOEXIST, BPF_EXIST} then EINVAL
      else if m.storage.Array? then (if key in Dict(m) then EEXIST else E2BIG)
      else if key in Dict(m) then EEXIST
      else if flags == BPF_EXIST then ENOENT
      else E2BIG
  {
    if m.storage.Array? && |key| == 4 {
      ArrayKeys(m.storage.values, key);
    }
  }

  ghost function StoreError(m: BpfMap, key: Bytes): Errno {
    if !SupportsElements(m) then EOPNOTSUPP
    else if |key| != m.keySize then EINVAL
    else if key !in Dict(m) then ENOENT
    else EACCES
  }

  /** A store succeeds exactly inside the value of a bound key, and otherwise says why not. */
  lemma StoreRefusals(m: BpfMap, key: Bytes, offset: nat, data: Bytes)
    requires ValidMap(m)
    ensures
      var r := StoreBytes(m, key, offset, data);
      && (r.Ok? <==> SupportsElements(m) && key in Dict(m) && offset + |data| <= |Dict(m)[key]|)
      && (r.Err? ==> r.error == StoreError(m, key))
  {
    if m.storage.Array? && |key| == 4 {
      ArrayKeys(m.storage.values, key);
    }
  }

  predicate LengthsAllowed(kind: MapKind, keySize: u32, valueSize: u32, maxEntries: u32) {
    match kind
    case HashKind => keySize > 0 && valueSize > 0
    case ArrayKind => keySize == 4 && valueSize > 0
    case RingBufKind => keySize == 0 && valueSize == 0 && IsPowerOfTwo(maxEntries) && maxEntries % PAGE_SIZE == 0
  }

  /** Which maps can be created, and what they hold: a hash map nothing, an array map a zero value
      under every index. */
  lemma CreateExact(kind: MapKind, keySize: u32, valueSize: u32, maxEntries: u32)
    ensures
      var r := Create(kind, keySize, valueSize, maxEntries);
      && (r.Ok? <==> maxEntries > 0 && LengthsAllowed(kind, keySize, valueSize, maxEntries))
      && (r.Err? ==> r.error == EINVAL)
      && (r.Ok? ==> r.value.keySize == keySize && r.value.valueSize == valueSize && r.value.maxEntries == maxEntries)
      && (r.Ok? && !kind.ArrayKind? ==> Dict(r.value) == map[])
      && (r.Ok? && kind.ArrayKind? ==>
            && Dict(r.value).Keys == IndexKeys(maxEntries)
            && forall k :: k in Dict(r.value) ==> Dict(r.value)[k] == Zeros(valueSize))
  {
    var r := Create(kind, keySize, valueSize, maxEntries);
    if r.Ok? && kind.ArrayKind? {
      forall k | k in IndexKeys(maxEntries)
        ensures k in Dict(r.value)
      {
        ArrayKeys(r.value.storage.values, k);
      }
    }
  }

  // ----- the map file object -----

  class BpfMapFile {
    const keySize: u32
    const valueSize: u32
    const maxEntries: u32
    var storage: Storage

    ghost function View(): BpfMap
      reads this
    {
      BpfMap(keySize, valueSize, maxEntries, storage)
    }

    constructor (m: BpfMap)
      ensures View() == m
    {
      keySize, valueSize, maxEntries, storage := m.keySize, m.valueSize, m.maxEntries, m.storage;
    }

    static method New(kind: MapKind, keySize: u32, valueSize: u32, maxEntries: u32)
      returns (r: Result<BpfMapFile>)
      ensures r.Ok? <==> Create(kind, keySize, valueSize, maxEntries).Ok?
      ensures r.Ok? ==> fresh(r.value) && r.value.View() == Create(kind, keySize, valueSize, maxEntries).value
      ensures r.Err? ==> r.error == EINVAL
    {
      if maxEntries == 0 {
        return Err(EINVAL);
      }
      var storage;
      match kind {
        case HashKind =>
          if keySize == 0 || valueSize == 0 {
            return Err(EINVAL);
          }
          storage := Hash(map[]);
        case ArrayKind =>
          if keySize != 4 || valueSize == 0 {
            return Err(EINVAL);
          }
          var values: seq<Bytes> := [];
          for i := 0 to maxEntries
            invariant values == seq(i, _ => Zeros(valueSize))
          {
            values := values + [Zeros(valueSize)];
          }
          storage := Array(values);
        case RingBufKind =>
          if keySize != 0 || valueSize != 0 || !IsPowerOfTwo(maxEntries) || maxEntries % PAGE_SIZE != 0 {
            return Err(EINVAL);
          }
          storage := RingBuf;
      }
      var f := new BpfMapFile(BpfMap(keySize, valueSize, maxEntries, storage));
      return Ok(f);
    }

    method LookupElem(key: Bytes) returns (r: Result<Option<Bytes>>)
      ensures r == Lookup(View(), key)
    {
      match storage {
        case Hash(entries) =>
          if |key| != keySize || key !in entries {
            return Ok(None);
          }
          return Ok(Some(entries[key]));
        case Array(values) =>
          var i :- ArrayIndex(key);
          return Ok(if i < |values| then Some(values[i]) else None);
        case RingBuf =>
          return Err(EOPNOTSUPP);
      }
    }

    method UpdateElem(key: Bytes, value: Bytes, flags: u64) returns (r: Result<()>)
      requires ValidMap(View())
      modifies this
      ensures r.Ok? <==> old(Update(View(), key, value, flags)).Ok?
      ensures r.Ok? ==> View() == old(Update(View(), key, value, flags)).value
      ensures r.Err? ==> View() == old(View()) && r.error == old(Update(View(), key, value, flags)).error
    {
      if |key| != keySize || |value| != valueSize {
        return Err(EINVAL);
      }
      match storage {
        case Hash(entries) =>
          var exists_ := key in entries;
          if flags == BPF_ANY {
          } else if flags == BPF_NOEXIST {
            if exists_ { return Err(EEXIST); }
          } else if flags == BPF_EXIST {
            if !exists_ { return Err(ENOENT); }
          } else {
            return Err(EINVAL);
          }
          if !exists_ && |entries| >= maxEntries {
            return Err(E2BIG);
          }
          storage := Hash(entries[key := value]);
        case Array(values) =>
          var i := FromLe(key);  // the key length was checked above
          if flags != BPF_ANY && flags != BPF_NOEXIST && flags != BPF_EXIST {
            return Err(EINVAL);
          }
          if i >= maxEntries {
            return Err(E2BIG);
          }
          if flags == BPF_NOEXIST {
            return Err(EEXIST);
          }
          storage := Array(values[i := value]);
        case RingBuf =>
          return Err(EOPNOTSUPP);
      }
      return Ok(());
    }

    method Store(key: Bytes, offset: nat, data: Bytes) returns (r: Result<()>)
      modifies this
      ensures r.Ok? <==> old(StoreBytes(View(), key, offset, data)).Ok?
      ensures r.Ok? ==> View() == old(StoreBytes(View(), key, offset, data)).value
      ensures r.Err? ==> View() == old(View()) && r.error == old(StoreBytes(View(), key, offset, data)).error
    {
      match storage {
        case Hash(entries) =>
          if |key| != keySize {
            return Err(EINVAL);
          }
          if key !in entries {
            return Err(ENOENT);
          }
          if offset + |data| > |entries[key]| {
            return Err(EACCES);
          }
          storage := Hash(entries[key := Splice(entries[key], offset, data)]);
        case Array(values) =>
          var i :- ArrayIndex(key);
          if i >= |values| {
            return Err(ENOENT);
          }
          if offset + |data| > |values[i]| {
            return Err(EACCES);
          }
          storage := Array(values[i := Splice(values[i], offset, data)]);
        case RingBuf =>
          return Err(EOPNOTSUPP);
      }
      return Ok(());
    }
  }
}
