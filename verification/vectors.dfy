/**
  The two-phase vector protocol behind `args_sizes_get`/`args_get` and
  `environ_sizes_get`/`environ_get`: the sizes call reports how many
  strings there are and how many bytes they take NUL-terminated; the fill
  call writes a little-endian u32 pointer per string and the strings
  themselves, back to back, each followed by a 0 byte.

  Strings are byte sequences (their UTF-8 encoding).
 */
module Vectors {
  import opened Wrappers
  import opened LinearMemory

  /** The bytes all strings take NUL-terminated, summed from the first string on. */
  function TotalSize(strs: seq<Bytes>): (n: nat)
    ensures n >= |strs|
  {
    if |strs| == 0 then 0 else |strs[0]| + 1 + TotalSize(strs[1..])
  }

  /** Adding a string at the end adds its length and its NUL. */
  lemma {:induction false} TotalSizeSnoc(a: seq<Bytes>, x: Bytes)
    ensures TotalSize(a + [x]) == TotalSize(a) + |x| + 1
  {
    if |a| > 0 {
      assert (a + [x])[1..] == a[1..] + [x];
      TotalSizeSnoc(a[1..], x);
    }
  }

  /**
    Where string `i` starts, relative to the buffer: the cursor `argp` after
    `i` rounds, the lengths of the strings before it, each plus one for its
    NUL. `OffsetIsTotal` relates it to `TotalSize`.
   */
  function Offset(strs: seq<Bytes>, i: nat): (n: nat)
    requires i <= |strs|
    ensures n >= i
  {
    if i == 0 then 0 else Offset(strs, i - 1) + |strs[i - 1]| + 1
  }

  /** Each string before `i` adds its length and its NUL to the cursor. */
  lemma {:induction false} OffsetIsTotal(strs: seq<Bytes>, i: nat)
    requires i <= |strs|
    ensures Offset(strs, i) == TotalSize(strs[..i])
  {
    if i > 0 {
      OffsetIsTotal(strs, i - 1);
      TotalSizeSnoc(strs[..i - 1], strs[i - 1]);
      assert strs[..i] == strs[..i - 1] + [strs[i - 1]];
    }
  }

  /** The buffer size the sizes call reports, `buf_size`: the byte total of all strings, NUL-terminated. */
  function Footprint(strs: seq<Bytes>): (n: nat)
    ensures n >= |strs|
    ensures n == TotalSize(strs)
  {
    OffsetIsTotal(strs, |strs|);
    assert strs[..|strs|] == strs;
    Offset(strs, |strs|)
  }

  lemma OffsetStep(strs: seq<Bytes>, i: nat)
    requires i < |strs|
    ensures Offset(strs, i + 1) == Offset(strs, i) + |strs[i]| + 1
  {
  }

  /** Later strings start later. */
  lemma {:induction false} OffsetMonotone(strs: seq<Bytes>, i: nat, j: nat)
    requires i <= j <= |strs|
    ensures Offset(strs, i) <= Offset(strs, j)
    decreases j - i
  {
    if i < j {
      OffsetStep(strs, i);
      OffsetMonotone(strs, i + 1, j);
    }
  }

  /** Every string, with its NUL, ends inside the footprint. */
  lemma OffsetWithin(strs: seq<Bytes>, j: nat)
    requires j < |strs|
    ensures Offset(strs, j) + |strs[j]| + 1 == Offset(strs, j + 1) <= Footprint(strs)
  {
    OffsetStep(strs, j);
    OffsetMonotone(strs, j + 1, |strs|);
  }

  /** `*_sizes_get`: stores the string count at `countAt` and the footprint at `sizeAt`. */
  function VectorSizes(mem: Bytes, strs: seq<Bytes>, countAt: int, sizeAt: int): (r: Bytes)
    requires InBounds(mem, countAt, 4) && InBounds(mem, sizeAt, 4)
    ensures |r| == |mem|
    ensures LoadU32(r, sizeAt) == ToUint32(Footprint(strs))
    ensures countAt + 4 <= sizeAt || sizeAt + 4 <= countAt ==> LoadU32(r, countAt) == ToUint32(|strs|)
    ensures forall k | 0 <= k < |mem| && !(countAt <= k < countAt + 4) && !(sizeAt <= k < sizeAt + 4) :: r[k] == mem[k]
  {
    var m1 := StoreU32(mem, countAt, |strs|);
    var r := StoreU32(m1, sizeAt, Footprint(strs));
    StoreLoadU32(m1, sizeAt, Footprint(strs));
    assert countAt + 4 <= sizeAt || sizeAt + 4 <= countAt ==> LoadU32(r, countAt) == ToUint32(|strs|) by {
      if countAt + 4 <= sizeAt || sizeAt + 4 <= countAt {
        StoreLoadU32(mem, countAt, |strs|);
        LoadU32Disjoint(m1, sizeAt, EncodeU32(Footprint(strs)), countAt);
      }
    }
    r
  }

  /** Every access the fill call makes lies inside memory: the pointer table and the string buffer. */
  predicate Fits(mem: Bytes, strs: seq<Bytes>, ptrsAt: int, bufAt: int) {
    |strs| == 0 || (InBounds(mem, ptrsAt, 4 * |strs|) && InBounds(mem, bufAt, Footprint(strs)))
  }

  /** Iteration `i` of the fill loop stays in bounds: slot `i`, and string `i` with its NUL. */
  predicate AccessOk(mem: Bytes, strs: seq<Bytes>, ptrsAt: int, bufAt: int, i: nat)
    requires i < |strs|
  {
    InBounds(mem, ptrsAt + 4 * i, 4) && InBounds(mem, bufAt + Offset(strs, i), |strs[i]| + 1)
  }

  /** `Fits` says exactly that every access of the fill loop is in bounds. */
  lemma FitsEveryAccess(mem: Bytes, strs: seq<Bytes>, ptrsAt: int, bufAt: int)
    ensures Fits(mem, strs, ptrsAt, bufAt) <==> forall i | 0 <= i < |strs| :: AccessOk(mem, strs, ptrsAt, bufAt, i)
  {
    if Fits(mem, strs, ptrsAt, bufAt) {
      forall i | 0 <= i < |strs| ensures AccessOk(mem, strs, ptrsAt, bufAt, i) {
        OffsetWithin(strs, i);
      }
    }
    if forall i | 0 <= i < |strs| :: AccessOk(mem, strs, ptrsAt, bufAt, i) {
      FitsFromAccesses(mem, strs, ptrsAt, bufAt);
    }
  }

  lemma FitsFromAccesses(mem: Bytes, strs: seq<Bytes>, ptrsAt: int, bufAt: int)
    requires forall i | 0 <= i < |strs| :: AccessOk(mem, strs, ptrsAt, bufAt, i)
    ensures Fits(mem, strs, ptrsAt, bufAt)
  {
    var n := |strs|;
    if n > 0 {
      assert AccessOk(mem, strs, ptrsAt, bufAt, 0);
      assert AccessOk(mem, strs, ptrsAt, bufAt, n - 1);
      OffsetStep(strs, n - 1);
    }
  }

  /** The pointer table and the string buffer do not overlap. */
  predicate Separate(strs: seq<Bytes>, ptrsAt: int, bufAt: int) {
    ptrsAt + 4 * |strs| <= bufAt || bufAt + Footprint(strs) <= ptrsAt
  }

  /** The buffer after `i` iterations: strings 0 .. i-1, each followed by a NUL. */
  function Blob(strs: seq<Bytes>, i: nat): (b: Bytes)
    requires i <= |strs|
    ensures |b| == Offset(strs, i)
  {
    if i == 0 then [] else Blob(strs, i - 1) + strs[i - 1] + [0]
  }

  /** The pointer table after `i` iterations: the address of each of strings 0 .. i-1. */
  function PointerTable(strs: seq<Bytes>, bufAt: int, i: nat): (t: Bytes)
    requires i <= |strs|
    ensures |t| == 4 * i
  {
    if i == 0 then [] else PointerTable(strs, bufAt, i - 1) + EncodeU32(bufAt + Offset(strs, i - 1))
  }

  /** String `j` sits in the buffer at its offset, with a NUL after it. */
  lemma {:induction false} BlobHolds(strs: seq<Bytes>, i: nat, j: nat)
    requires j < i <= |strs|
    ensures Offset(strs, j) + |strs[j]| < |Blob(strs, i)|
    ensures Blob(strs, i)[Offset(strs, j)..Offset(strs, j) + |strs[j]|] == strs[j]
    ensures Blob(strs, i)[Offset(strs, j) + |strs[j]|] == 0
  {
    var b := Blob(strs, i - 1);
    if j < i - 1 {
      BlobHolds(strs, i - 1, j);
      assert Blob(strs, i)[..|b|] == b;
    } else {
      assert Blob(strs, i)[|b|..|b| + |strs[j]|] == strs[j];
    }
  }

  /** Slot `j` of the table holds the address of string `j`. */
  lemma {:induction false} PointerTableHolds(strs: seq<Bytes>, bufAt: int, i: nat, j: nat)
    requires j < i <= |strs|
    ensures PointerTable(strs, bufAt, i)[4 * j..4 * j + 4] == EncodeU32(bufAt + Offset(strs, j))
  {
    if j < i - 1 {
      PointerTableHolds(strs, bufAt, i - 1, j);
      PointerTableGrows(strs, bufAt, i, j);
    } else {
      assert i == j + 1;
      PointerTableLast(strs, bufAt, j);
    }
  }

  /** The slot a step appends holds the address of the step's string. */
  lemma PointerTableLast(strs: seq<Bytes>, bufAt: int, j: nat)
    requires j < |strs|
    ensures PointerTable(strs, bufAt, j + 1)[4 * j..4 * j + 4] == EncodeU32(bufAt + Offset(strs, j))
  {
    SliceOfRightAt(PointerTable(strs, bufAt, j), EncodeU32(bufAt + Offset(strs, j)), 4 * j, 4 * j + 4);
  }

  /** Growing the table keeps the slots already in it. */
  lemma PointerTableGrows(strs: seq<Bytes>, bufAt: int, i: nat, j: nat)
    requires j < i - 1 && i <= |strs|
    ensures PointerTable(strs, bufAt, i)[4 * j..4 * j + 4] == PointerTable(strs, bufAt, i - 1)[4 * j..4 * j + 4]
  {
    SliceOfLeft(PointerTable(strs, bufAt, i - 1), EncodeU32(bufAt + Offset(strs, i - 1)), 4 * j, 4 * j + 4);
  }

  lemma SliceOfLeft<T>(a: seq<T>, b: seq<T>, lo: int, hi: int)
    requires 0 <= lo <= hi <= |a|
    ensures (a + b)[lo..hi] == a[lo..hi]
  {
  }

  lemma SliceOfRightAt<T>(a: seq<T>, b: seq<T>, lo: int, hi: int)
    requires lo == |a| && hi == |a| + |b|
    ensures (a + b)[lo..hi] == b
  {
  }

  /**
    One iteration of the fill loop: store the pointer `cursor` in slot `i`,
    then copy string `i` and a NUL to `cursor`.
   */
  function FillStep(mem: Bytes, strs: seq<Bytes>, ptrsAt: int, i: nat, cursor: int): (r: Bytes)
    requires i < |strs|
    requires InBounds(mem, ptrsAt + 4 * i, 4) && InBounds(mem, cursor, |strs[i]| + 1)
    ensures |r| == |mem|
    ensures StepResult(mem, r, strs[i], ptrsAt + 4 * i, cursor)
  {
    Store(StoreU32(mem, ptrsAt + 4 * i, cursor), cursor, strs[i] + [0])
  }

  /**
    The first `i` iterations of the fill loop, in the source's order;
    iteration `i - 1` writes at the running address `bufAt + Offset(i - 1)`.
   */
  function Fill(mem: Bytes, strs: seq<Bytes>, ptrsAt: int, bufAt: int, i: nat): (r: Bytes)
    requires i <= |strs| && Fits(mem, strs, ptrsAt, bufAt)
    ensures |r| == |mem|
    ensures |strs| > 0 && Separate(strs, ptrsAt, bufAt) ==> LaidOutUpTo(mem, r, strs, ptrsAt, bufAt, i)
  {
    if i == 0 then mem
    else
      var p := Fill(mem, strs, ptrsAt, bufAt, i - 1);
      OffsetWithin(strs, i - 1);
      if |strs| > 0 && Separate(strs, ptrsAt, bufAt) then
        FillStepLaidOut(mem, p, strs, ptrsAt, bufAt, i);
        FillStep(p, strs, ptrsAt, i - 1, bufAt + Offset(strs, i - 1))
      else
        FillStep(p, strs, ptrsAt, i - 1, bufAt + Offset(strs, i - 1))
  }

  /**
    `r` is `mem` after `i` iterations, when table and buffer are apart: the
    first `i` slots hold the table, the first `Offset(i)` buffer bytes hold
    the strings, and nothing else changed.
   */
  predicate LaidOutUpTo(mem: Bytes, r: Bytes, strs: seq<Bytes>, ptrsAt: int, bufAt: int, i: nat)
    requires i <= |strs|
  {
    && |r| == |mem|
    && InBounds(r, ptrsAt, 4 * i) && InBounds(r, bufAt, Offset(strs, i))
    && (forall j {:trigger PointerTable(strs, bufAt, i)[j]} | 0 <= j < 4 * i :: r[ptrsAt + j] == PointerTable(strs, bufAt, i)[j])
    && (forall j {:trigger Blob(strs, i)[j]} | 0 <= j < Offset(strs, i) :: r[bufAt + j] == Blob(strs, i)[j])
    && forall k {:trigger mem[k]} | 0 <= k < |mem| && !(ptrsAt <= k < ptrsAt + 4 * i) && !(bufAt <= k < bufAt + Offset(strs, i)) ::
         r[k] == mem[k]
  }

  /** The byte at `k` after one iteration: the string or its NUL, else the pointer, else as before. */
  predicate StepResult(p: Bytes, r: Bytes, s: Bytes, slot: int, c: int)
  {
    && |r| == |p|
    && forall k | 0 <= k < |p| ::
         r[k] == if c <= k < c + |s| + 1 then (s + [0])[k - c]
                 else if slot <= k < slot + 4 then EncodeU32(c)[k - slot]
                 else p[k]
  }

  lemma FillStepLaidOut(mem: Bytes, p: Bytes, strs: seq<Bytes>, ptrsAt: int, bufAt: int, i: nat)
    requires 0 < i <= |strs| && Fits(mem, strs, ptrsAt, bufAt) && Separate(strs, ptrsAt, bufAt)
    requires LaidOutUpTo(mem, p, strs, ptrsAt, bufAt, i - 1)
    requires Offset(strs, i - 1) + |strs[i - 1]| + 1 == Offset(strs, i) <= Footprint(strs)
    ensures LaidOutUpTo(mem, FillStep(p, strs, ptrsAt, i - 1, bufAt + Offset(strs, i - 1)), strs, ptrsAt, bufAt, i)
  {
    StepLaidOut(mem, p, FillStep(p, strs, ptrsAt, i - 1, bufAt + Offset(strs, i - 1)), strs, ptrsAt, bufAt, i);
  }

  /** Iteration `i - 1` extends the table by one slot and the buffer by one string. */
  lemma StepLaidOut(mem: Bytes, p: Bytes, r: Bytes, strs: seq<Bytes>, ptrsAt: int, bufAt: int, i: nat)
    requires 0 < i <= |strs| && Fits(mem, strs, ptrsAt, bufAt) && Separate(strs, ptrsAt, bufAt)
    requires LaidOutUpTo(mem, p, strs, ptrsAt, bufAt, i - 1)
    requires Offset(strs, i - 1) + |strs[i - 1]| + 1 == Offset(strs, i) <= Footprint(strs)
    requires StepResult(p, r, strs[i - 1], ptrsAt + 4 * (i - 1), bufAt + Offset(strs, i - 1))
    ensures LaidOutUpTo(mem, r, strs, ptrsAt, bufAt, i)
  {
    forall j | 0 <= j < 4 * i
      ensures r[ptrsAt + j] == PointerTable(strs, bufAt, i)[j]
    {
      if j < 4 * (i - 1) {
        assert r[ptrsAt + j] == p[ptrsAt + j];
      }
    }
    forall j | 0 <= j < Offset(strs, i)
      ensures r[bufAt + j] == Blob(strs, i)[j]
    {
      if j < Offset(strs, i - 1) {
        assert r[bufAt + j] == p[bufAt + j];
      }
    }
  }

  /**
    `args_get` / `environ_get`: the fill loop over every string. With the
    table and the buffer apart, the result holds the table and the strings
    and is otherwise `mem`.
   */
  function VectorGet(mem: Bytes, strs: seq<Bytes>, ptrsAt: int, bufAt: int): (r: Bytes)
    requires Fits(mem, strs, ptrsAt, bufAt)
    ensures |r| == |mem|
    ensures |strs| == 0 ==> r == mem
    ensures |strs| > 0 && Separate(strs, ptrsAt, bufAt) ==> LaidOutUpTo(mem, r, strs, ptrsAt, bufAt, |strs|)
  {
    Fill(mem, strs, ptrsAt, bufAt, |strs|)
  }

  /** In a laid-out memory, slot `j` holds the encoded address of string `j`. */
  lemma SlotHolds(mem: Bytes, r: Bytes, strs: seq<Bytes>, ptrsAt: int, bufAt: int, j: nat)
    requires j < |strs| && LaidOutUpTo(mem, r, strs, ptrsAt, bufAt, |strs|)
    ensures InBounds(r, ptrsAt + 4 * j, 4)
    ensures r[ptrsAt + 4 * j..ptrsAt + 4 * j + 4] == EncodeU32(bufAt + Offset(strs, j))
  {
    var t := PointerTable(strs, bufAt, |strs|);
    PointerTableHolds(strs, bufAt, |strs|, j);
    forall k | ptrsAt + 4 * j <= k < ptrsAt + 4 * j + 4 ensures r[k] == t[k - ptrsAt] {
      assert r[ptrsAt + (k - ptrsAt)] == t[k - ptrsAt];
    }
  }

  /** In a laid-out memory, string `j` and a NUL sit at its offset in the buffer. */
  lemma StringHolds(mem: Bytes, r: Bytes, strs: seq<Bytes>, ptrsAt: int, bufAt: int, j: nat)
    requires j < |strs| && LaidOutUpTo(mem, r, strs, ptrsAt, bufAt, |strs|)
    ensures InBounds(r, bufAt + Offset(strs, j), |strs[j]| + 1)
    ensures r[bufAt + Offset(strs, j)..bufAt + Offset(strs, j) + |strs[j]|] == strs[j]
    ensures r[bufAt + Offset(strs, j) + |strs[j]|] == 0
  {
    var b := Blob(strs, |strs|);
    var o := Offset(strs, j);
    var s := strs[j];
    BlobHolds(strs, |strs|, j);
    forall k | bufAt + o <= k <= bufAt + o + |s| ensures r[k] == b[k - bufAt] {
      assert r[bufAt + (k - bufAt)] == b[k - bufAt];
    }
    forall d | 0 <= d < |s| ensures r[bufAt + o + d] == s[d] {
      assert b[o..o + |s|][d] == s[d];
    }
  }

  /** In a laid-out memory, slot `j` reads as the address of string `j`, and the string reads back from there. */
  lemma ReadSlot(mem: Bytes, r: Bytes, strs: seq<Bytes>, ptrsAt: int, bufAt: int, j: nat)
    requires j < |strs| && LaidOutUpTo(mem, r, strs, ptrsAt, bufAt, |strs|) && IsLinearMemory(r)
    ensures InBounds(r, ptrsAt + 4 * j, 4)
    ensures LoadU32(r, ptrsAt + 4 * j) == bufAt + Offset(strs, j)
    ensures NoNul(strs[j]) ==> ReadCString(r, bufAt + Offset(strs, j)) == Some(strs[j])
  {
    SlotAddress(mem, r, strs, ptrsAt, bufAt, j);
    StringReads(mem, r, strs, ptrsAt, bufAt, j);
  }

  /** In a laid-out memory, slot `j` reads as the address of string `j`. */
  lemma SlotAddress(mem: Bytes, r: Bytes, strs: seq<Bytes>, ptrsAt: int, bufAt: int, j: nat)
    requires j < |strs| && LaidOutUpTo(mem, r, strs, ptrsAt, bufAt, |strs|) && IsLinearMemory(r)
    ensures InBounds(r, ptrsAt + 4 * j, 4)
    ensures LoadU32(r, ptrsAt + 4 * j) == bufAt + Offset(strs, j)
  {
    StringHolds(mem, r, strs, ptrsAt, bufAt, j);
    SlotHolds(mem, r, strs, ptrsAt, bufAt, j);
    PointerReads(r, ptrsAt + 4 * j, bufAt + Offset(strs, j));
  }

  /** In a laid-out memory, a C-string read at the offset of string `j` gives the string, when it has no NUL of its own. */
  lemma StringReads(mem: Bytes, r: Bytes, strs: seq<Bytes>, ptrsAt: int, bufAt: int, j: nat)
    requires j < |strs| && LaidOutUpTo(mem, r, strs, ptrsAt, bufAt, |strs|)
    ensures NoNul(strs[j]) ==> ReadCString(r, bufAt + Offset(strs, j)) == Some(strs[j])
  {
    if NoNul(strs[j]) {
      StringHolds(mem, r, strs, ptrsAt, bufAt, j);
      ReadCStringRecovers(r, bufAt + Offset(strs, j), strs[j]);
    }
  }

  /** A slot holding the encoding of an address in memory reads back as that address. */
  lemma PointerReads(r: Bytes, slot: int, c: int)
    requires IsLinearMemory(r) && InBounds(r, slot, 4) && 0 <= c < |r|
    requires r[slot..slot + 4] == EncodeU32(c)
    ensures LoadU32(r, slot) == c
  {
    DecodeEncodeU32(c);
  }

  /**
    What the guest reads back: for string `j`, slot `j` holds its address,
    and a C-string read there gives the string (when it has no NUL of its own).
   */
  lemma VectorGetRoundTrip(mem: Bytes, strs: seq<Bytes>, ptrsAt: int, bufAt: int, j: nat)
    requires Fits(mem, strs, ptrsAt, bufAt) && Separate(strs, ptrsAt, bufAt) && IsLinearMemory(mem)
    requires j < |strs|
    ensures InBounds(mem, ptrsAt + 4 * j, 4)
    ensures LoadU32(VectorGet(mem, strs, ptrsAt, bufAt), ptrsAt + 4 * j) == bufAt + Offset(strs, j)
    ensures NoNul(strs[j]) ==> ReadCString(VectorGet(mem, strs, ptrsAt, bufAt), bufAt + Offset(strs, j)) == Some(strs[j])
  {
    ReadSlot(mem, VectorGet(mem, strs, ptrsAt, bufAt), strs, ptrsAt, bufAt, j);
  }

  /**
    The guest's reading of a `count`-entry vector at `ptrsAt`: each slot's
    address, and the C string there; `None` when a slot or string runs off
    the end of memory.
   */
  function ReadVector(mem: Bytes, ptrsAt: int, count: nat): (r: Option<seq<Bytes>>)
    ensures r.Some? ==> |r.value| == count
  {
    if count == 0 then Some([])
    else
      match ReadVector(mem, ptrsAt, count - 1)
      case None => None
      case Some(init) =>
        var slot := ptrsAt + 4 * (count - 1);
        if !InBounds(mem, slot, 4) then None
        else
          match ReadCString(mem, LoadU32(mem, slot))
          case None => None
          case Some(s) => Some(init + [s])
  }

  lemma ReadVectorStep(mem: Bytes, ptrsAt: int, i: nat, init: seq<Bytes>, s: Bytes)
    requires 0 < i && ReadVector(mem, ptrsAt, i - 1) == Some(init)
    requires SlotReads(mem, ptrsAt, i - 1, s)
    ensures ReadVector(mem, ptrsAt, i) == Some(init + [s])
  {
  }

  /** Slot `j` of the table at `ptrsAt` leads to the string `s`. */
  predicate SlotReads(mem: Bytes, ptrsAt: int, j: nat, s: Bytes) {
    && InBounds(mem, ptrsAt + 4 * j, 4)
    && ReadCString(mem, LoadU32(mem, ptrsAt + 4 * j)) == Some(s)
  }

  lemma PrefixStep<T>(xs: seq<T>, i: nat)
    requires 0 < i <= |xs|
    ensures xs[..i - 1] + [xs[i - 1]] == xs[..i]
  {
  }

  lemma {:induction false} ReadBackUpTo(mem: Bytes, ptrsAt: int, strs: seq<Bytes>, i: nat)
    requires i <= |strs|
    requires forall j | 0 <= j < i :: SlotReads(mem, ptrsAt, j, strs[j])
    ensures ReadVector(mem, ptrsAt, i) == Some(strs[..i])
  {
    if i > 0 {
      ReadBackUpTo(mem, ptrsAt, strs, i - 1);
      assert SlotReads(mem, ptrsAt, i - 1, strs[i - 1]);
      ReadVectorStep(mem, ptrsAt, i, strs[..i - 1], strs[i - 1]);
      PrefixStep(strs, i);
    }
  }

  /** Reading the whole vector back recovers every string, in order. */
  lemma VectorGetReadBack(mem: Bytes, strs: seq<Bytes>, ptrsAt: int, bufAt: int)
    requires Fits(mem, strs, ptrsAt, bufAt) && Separate(strs, ptrsAt, bufAt) && IsLinearMemory(mem)
    requires forall j | 0 <= j < |strs| :: NoNul(strs[j])
    ensures ReadVector(VectorGet(mem, strs, ptrsAt, bufAt), ptrsAt, |strs|) == Some(strs)
  {
    if |strs| > 0 {
      LaidOutReadsBack(mem, VectorGet(mem, strs, ptrsAt, bufAt), strs, ptrsAt, bufAt);
    }
  }

  lemma LaidOutReadsBack(mem: Bytes, r: Bytes, strs: seq<Bytes>, ptrsAt: int, bufAt: int)
    requires LaidOutUpTo(mem, r, strs, ptrsAt, bufAt, |strs|) && IsLinearMemory(r)
    requires forall j | 0 <= j < |strs| :: NoNul(strs[j])
    ensures ReadVector(r, ptrsAt, |strs|) == Some(strs)
  {
    EverySlotReads(mem, r, strs, ptrsAt, bufAt);
    ReadBackUpTo(r, ptrsAt, strs, |strs|);
    assert strs[..|strs|] == strs;
  }

  lemma EverySlotReads(mem: Bytes, r: Bytes, strs: seq<Bytes>, ptrsAt: int, bufAt: int)
    requires LaidOutUpTo(mem, r, strs, ptrsAt, bufAt, |strs|) && IsLinearMemory(r)
    requires forall j | 0 <= j < |strs| :: NoNul(strs[j])
    ensures forall j | 0 <= j < |strs| :: SlotReads(r, ptrsAt, j, strs[j])
  {
    forall j | 0 <= j < |strs| ensures SlotReads(r, ptrsAt, j, strs[j]) {
      ReadSlot(mem, r, strs, ptrsAt, bufAt, j);
    }
  }

  /** Two memories laid out from one another agree: a second layout changes nothing. */
  lemma LaidOutTwice(mem: Bytes, r1: Bytes, r2: Bytes, strs: seq<Bytes>, ptrsAt: int, bufAt: int)
    requires LaidOutUpTo(mem, r1, strs, ptrsAt, bufAt, |strs|) && LaidOutUpTo(r1, r2, strs, ptrsAt, bufAt, |strs|)
    ensures r2 == r1
  {
    var n := |strs|;
    forall k | 0 <= k < |r1| ensures r2[k] == r1[k] {
      if ptrsAt <= k < ptrsAt + 4 * n {
        assert r2[ptrsAt + (k - ptrsAt)] == PointerTable(strs, bufAt, n)[k - ptrsAt] == r1[ptrsAt + (k - ptrsAt)];
      } else if bufAt <= k < bufAt + Offset(strs, n) {
        assert r2[bufAt + (k - bufAt)] == Blob(strs, n)[k - bufAt] == r1[bufAt + (k - bufAt)];
      }
    }
  }

  /** Calling the fill call a second time leaves memory as the first call left it. */
  lemma VectorGetIdempotent(mem: Bytes, strs: seq<Bytes>, ptrsAt: int, bufAt: int)
    requires Fits(mem, strs, ptrsAt, bufAt) && Separate(strs, ptrsAt, bufAt)
    ensures Fits(VectorGet(mem, strs, ptrsAt, bufAt), strs, ptrsAt, bufAt)
    ensures VectorGet(VectorGet(mem, strs, ptrsAt, bufAt), strs, ptrsAt, bufAt) == VectorGet(mem, strs, ptrsAt, bufAt)
  {
    if |strs| > 0 {
      var r1 := VectorGet(mem, strs, ptrsAt, bufAt);
      LaidOutTwice(mem, r1, VectorGet(r1, strs, ptrsAt, bufAt), strs, ptrsAt, bufAt);
    }
  }

  /** The byte at `k` after the sizes call: the size slot wins over the count slot, else as before. */
  predicate SizesWritten(mem: Bytes, r: Bytes, strs: seq<Bytes>, countAt: int, sizeAt: int) {
    && |r| == |mem|
    && forall k | 0 <= k < |mem| ::
         r[k] == if sizeAt <= k < sizeAt + 4 then EncodeU32(Footprint(strs))[k - sizeAt]
                 else if countAt <= k < countAt + 4 then EncodeU32(|strs|)[k - countAt]
                 else mem[k]
  }

  lemma VectorSizesWritten(mem: Bytes, strs: seq<Bytes>, countAt: int, sizeAt: int)
    requires InBounds(mem, countAt, 4) && InBounds(mem, sizeAt, 4)
    ensures SizesWritten(mem, VectorSizes(mem, strs, countAt, sizeAt), strs, countAt, sizeAt)
  {
  }

  /** Both size slots lie outside the pointer table and the string buffer. */
  predicate SlotsApart(strs: seq<Bytes>, countAt: int, sizeAt: int, ptrsAt: int, bufAt: int) {
    && Apart(countAt, 4, ptrsAt, 4 * |strs|) && Apart(countAt, 4, bufAt, Footprint(strs))
    && Apart(sizeAt, 4, ptrsAt, 4 * |strs|) && Apart(sizeAt, 4, bufAt, Footprint(strs))
  }

  lemma CommuteAt(m: Bytes, sm: Bytes, gsm: Bytes, gm: Bytes, sgm: Bytes,
                  strs: seq<Bytes>, countAt: int, sizeAt: int, ptrsAt: int, bufAt: int)
    requires SizesWritten(m, sm, strs, countAt, sizeAt) && SizesWritten(gm, sgm, strs, countAt, sizeAt)
    requires LaidOutUpTo(sm, gsm, strs, ptrsAt, bufAt, |strs|) && LaidOutUpTo(m, gm, strs, ptrsAt, bufAt, |strs|)
    requires SlotsApart(strs, countAt, sizeAt, ptrsAt, bufAt)
    ensures gsm == sgm
  {
    var n := |strs|;
    forall k | 0 <= k < |m| ensures gsm[k] == sgm[k] {
      if ptrsAt <= k < ptrsAt + 4 * n {
        assert gsm[ptrsAt + (k - ptrsAt)] == PointerTable(strs, bufAt, n)[k - ptrsAt] == gm[ptrsAt + (k - ptrsAt)];
      } else if bufAt <= k < bufAt + Offset(strs, n) {
        assert gsm[bufAt + (k - bufAt)] == Blob(strs, n)[k - bufAt] == gm[bufAt + (k - bufAt)];
      } else {
        assert gsm[k] == sm[k] && gm[k] == m[k];
      }
    }
  }

  /**
    The sizes call and the fill call commute when the two size slots lie
    outside the table and the buffer: the guest may make them in either order.
   */
  lemma SizesGetCommute(mem: Bytes, strs: seq<Bytes>, countAt: int, sizeAt: int, ptrsAt: int, bufAt: int)
    requires InBounds(mem, countAt, 4) && InBounds(mem, sizeAt, 4)
    requires Fits(mem, strs, ptrsAt, bufAt) && Separate(strs, ptrsAt, bufAt)
    requires SlotsApart(strs, countAt, sizeAt, ptrsAt, bufAt)
    ensures Fits(VectorSizes(mem, strs, countAt, sizeAt), strs, ptrsAt, bufAt)
    ensures VectorGet(VectorSizes(mem, strs, countAt, sizeAt), strs, ptrsAt, bufAt)
         == VectorSizes(VectorGet(mem, strs, ptrsAt, bufAt), strs, countAt, sizeAt)
  {
    var sm := VectorSizes(mem, strs, countAt, sizeAt);
    var gm := VectorGet(mem, strs, ptrsAt, bufAt);
    VectorSizesWritten(mem, strs, countAt, sizeAt);
    VectorSizesWritten(gm, strs, countAt, sizeAt);
    if |strs| > 0 {
      CommuteAt(mem, sm, VectorGet(sm, strs, ptrsAt, bufAt), gm, VectorSizes(gm, strs, countAt, sizeAt),
                strs, countAt, sizeAt, ptrsAt, bufAt);
    }
  }
}
