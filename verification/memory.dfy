/**
  The guest's linear memory as the shim sees it through a `DataView`:
  a sequence of bytes indexed by guest addresses, with little-endian
  32-bit stores and loads and NUL-terminated strings.
 */
module LinearMemory {
  import opened Wrappers

  type byte = b: int | 0 <= b < 256
  type Bytes = seq<byte>

  /** 2^32: the number of values a `setUint32` can store, and the size of a full wasm32 memory. */
  const U32_RANGE: int := 0x1_0000_0000

  /** A wasm32 linear memory never holds more than 2^32 bytes. */
  predicate IsLinearMemory(mem: Bytes) {
    |mem| <= U32_RANGE
  }

  /** The range [addr, addr + len) lies inside `mem`; a `DataView` access outside it throws. */
  predicate InBounds(mem: Bytes, addr: int, len: int) {
    0 <= addr && 0 <= len && addr + len <= |mem|
  }

  /** JavaScript's ToUint32 on an integral number: the value modulo 2^32. */
  function ToUint32(v: int): (w: int)
    ensures 0 <= w < U32_RANGE
    ensures (v - w) % U32_RANGE == 0
    ensures 0 <= v < U32_RANGE ==> w == v
  {
    v % U32_RANGE
  }

  /** 256^n: the number of values `n` bytes can hold. */
  function Pow256(n: nat): (p: nat)
    ensures p >= 1
  {
    if n == 0 then 1 else 256 * Pow256(n - 1)
  }

  /**
    The `n` bytes a little-endian store of `v` writes, least significant
    first; only `v` modulo 256^n matters (JavaScript's ToUint32 for n = 4).
   */
  function EncodeLE(v: int, n: nat): (bs: Bytes)
    ensures |bs| == n
    decreases n
  {
    if n == 0 then [] else [v % 256] + EncodeLE(v / 256, n - 1)
  }

  /** The value a little-endian load reads from `bs`. */
  function DecodeLE(bs: Bytes): (v: nat)
    ensures v < Pow256(|bs|)
  {
    if |bs| == 0 then 0 else bs[0] + 256 * DecodeLE(bs[1..])
  }

  /** Decoding what was encoded recovers any value that fits in `n` bytes. */
  lemma {:induction false} DecodeEncodeLE(v: int, n: nat)
    requires 0 <= v < Pow256(n)
    ensures DecodeLE(EncodeLE(v, n)) == v
    decreases n
  {
    if n > 0 {
      var bs := EncodeLE(v, n);
      assert bs[1..] == EncodeLE(v / 256, n - 1);
      DecodeEncodeLE(v / 256, n - 1);
    }
  }

  /** Every byte sequence is the encoding of the value it decodes to. */
  lemma {:induction false} EncodeDecodeLE(bs: Bytes)
    ensures EncodeLE(DecodeLE(bs), |bs|) == bs
  {
    if |bs| > 0 {
      var v := DecodeLE(bs);
      assert v % 256 == bs[0] && v / 256 == DecodeLE(bs[1..]);
      EncodeDecodeLE(bs[1..]);
      assert [bs[0]] + bs[1..] == bs;
    }
  }

  /** The four bytes `setUint32(_, v, true)` stores: those of ToUint32(v). */
  function EncodeU32(v: int): (bs: Bytes)
    ensures |bs| == 4
  {
    EncodeLE(ToUint32(v), 4)
  }

  /** `getUint32` reads back what `setUint32` wrote, modulo 2^32. */
  lemma DecodeEncodeU32(v: int)
    ensures DecodeLE(EncodeU32(v)) == ToUint32(v)
  {
    assert Pow256(4) == U32_RANGE;
    DecodeEncodeLE(ToUint32(v), 4);
  }

  /** Overwrites [addr, addr + |data|) with `data` and keeps every other byte. */
  function Store(mem: Bytes, addr: int, data: Bytes): (r: Bytes)
    requires InBounds(mem, addr, |data|)
    ensures |r| == |mem|
    ensures forall k | 0 <= k < |data| :: r[addr + k] == data[k]
    ensures forall k | 0 <= k < |mem| && !(addr <= k < addr + |data|) :: r[k] == mem[k]
  {
    seq(|mem|, k requires 0 <= k < |mem| => if addr <= k < addr + |data| then data[k - addr] else mem[k])
  }

  /** `setUint32(addr, v, true)`: the four bytes of `v`, least significant first. */
  function StoreU32(mem: Bytes, addr: int, v: int): (r: Bytes)
    requires InBounds(mem, addr, 4)
    ensures |r| == |mem|
    ensures forall k | 0 <= k < 4 :: r[addr + k] == EncodeU32(v)[k]
    ensures forall k | 0 <= k < |mem| && !(addr <= k < addr + 4) :: r[k] == mem[k]
  {
    Store(mem, addr, EncodeU32(v))
  }

  /** A `getUint32` at the address of a `setUint32` reads back the stored value modulo 2^32. */
  lemma StoreLoadU32(mem: Bytes, addr: int, v: int)
    requires InBounds(mem, addr, 4)
    ensures LoadU32(StoreU32(mem, addr, v), addr) == ToUint32(v)
  {
    var r := StoreU32(mem, addr, v);
    assert r[addr..addr + 4] == EncodeU32(v);
    DecodeEncodeU32(v);
  }

  /** `getUint32(addr, true)`: the four bytes at `addr`, least significant first. */
  function LoadU32(mem: Bytes, addr: int): (v: int)
    requires InBounds(mem, addr, 4)
    ensures 0 <= v < U32_RANGE
  {
    assert Pow256(4) == U32_RANGE;
    DecodeLE(mem[addr..addr + 4])
  }

  /** The four bytes at `addr` are the `setUint32` encoding of what `getUint32` reads there. */
  lemma LoadU32Encodes(mem: Bytes, addr: int)
    requires InBounds(mem, addr, 4)
    ensures EncodeU32(LoadU32(mem, addr)) == mem[addr..addr + 4]
  {
    EncodeDecodeLE(mem[addr..addr + 4]);
  }

  /** A store leaves the 32-bit values it does not overlap readable as before. */
  lemma LoadU32Disjoint(mem: Bytes, addr: int, data: Bytes, at: int)
    requires InBounds(mem, addr, |data|) && InBounds(mem, at, 4)
    requires Apart(at, 4, addr, |data|)
    ensures LoadU32(Store(mem, addr, data), at) == LoadU32(mem, at)
  {
    var r := Store(mem, addr, data);
    assert r[at..at + 4] == mem[at..at + 4];
  }

  /** The ranges [a, a + m) and [b, b + n) do not overlap. */
  predicate Apart(a: int, m: int, b: int, n: int) {
    a + m <= b || b + n <= a
  }

  /**
    Node's `Buffer.from(memory.buffer, offset, length)`: the `length` bytes
    at `offset`. It throws for a negative offset, an offset past the end, or
    a positive length that runs past the end; a length of 0 or less gives an
    empty view.
   */
  function BufferView(mem: Bytes, offset: int, length: int): (r: Option<Bytes>)
    ensures r.None? <==> offset < 0 || offset > |mem| || (length > 0 && offset + length > |mem|)
    ensures r.Some? ==> InBounds(mem, offset, |r.value|) && r.value == mem[offset..offset + |r.value|]
    ensures r.Some? ==> |r.value| == if length > 0 then length else 0
  {
    if offset < 0 || offset > |mem| then None
    else if length <= 0 then Some([])
    else if offset + length > |mem| then None
    else Some(mem[offset..offset + length])
  }

  /** `s` holds no NUL byte, so a C-string reader does not stop inside it. */
  predicate NoNul(s: Bytes) {
    forall k | 0 <= k < |s| :: s[k] != 0
  }

  /**
    The guest's view of a NUL-terminated string at `addr`: the bytes up to
    the first 0, or `None` when memory ends before a terminator.
   */
  function ReadCString(mem: Bytes, addr: nat): (r: Option<Bytes>)
    decreases |mem| - addr
    ensures r.Some? ==> InBounds(mem, addr, |r.value| + 1)
    ensures r.Some? ==> mem[addr..addr + |r.value|] == r.value && mem[addr + |r.value|] == 0
    ensures r.Some? ==> NoNul(r.value)
    ensures r.None? ==> forall k | addr <= k < |mem| :: mem[k] != 0
  {
    if addr >= |mem| then None
    else if mem[addr] == 0 then Some([])
    else
      match ReadCString(mem, addr + 1)
      case None => None
      case Some(rest) => Some([mem[addr]] + rest)
  }

  /** Reading a C string back at the address where `s` and a terminator were laid out recovers `s`. */
  lemma {:induction false} ReadCStringRecovers(mem: Bytes, addr: nat, s: Bytes)
    requires InBounds(mem, addr, |s| + 1)
    requires mem[addr..addr + |s|] == s && mem[addr + |s|] == 0
    requires NoNul(s)
    ensures ReadCString(mem, addr) == Some(s)
    decreases |s|
  {
    if |s| == 0 {
    } else {
      assert mem[addr] == s[0];
      assert mem[addr + 1..addr + 1 + |s[1..]|] == s[1..];
      ReadCStringRecovers(mem, addr + 1, s[1..]);
      assert [mem[addr]] + s[1..] == s;
    }
  }
}
