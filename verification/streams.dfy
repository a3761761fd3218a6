/**
  The scatter/gather loops of `fd_read` and `fd_write`.

  Both walk an array of `iovec`s in guest memory, eight bytes each: a
  32-bit buffer address followed by a 32-bit length. For every segment they
  call the host at the entry's current position, move the position by the
  count the host reports and add that count to a running total. A segment
  the host call rejects stops the loop with an I/O error; what earlier
  segments did stays done.
 */
module Streams {
  import opened Wrappers
  import opened LinearMemory
  import opened Descriptors
  import opened HostOs

  /** One `iovec`: the guest buffer and its length, both as `getUint32` reads them. */
  datatype Segment = Segment(buf: int, len: int)

  /** The `i`-th `iovec` of the array at `iovs`. */
  function IovecAt(mem: Bytes, iovs: int, i: nat): (s: Segment)
    requires InBounds(mem, iovs + 8 * i, 8)
    ensures 0 <= s.buf < U32_RANGE && 0 <= s.len < U32_RANGE
    ensures s.buf == LoadU32(mem, iovs + 8 * i) && s.len == LoadU32(mem, iovs + 8 * i + 4)
  {
    Segment(LoadU32(mem, iovs + 8 * i), LoadU32(mem, iovs + 8 * i + 4))
  }

  datatype Status =
    /** Every segment was transferred. */
    | Completed
    /** A host call threw: the syscall answers `EIO`. */
    | HostError
    /** Reading an `iovec` left linear memory: the host function throws and the instance aborts. */
    | OutOfBounds

  /**
    Where a loop stopped, the table and memory it left, the running count,
    how many segments went through (the loop's `i` when it left) and the
    count the host reported for each of them.
   */
  datatype Transfer = Transfer(status: Status, fds: Table, mem: Bytes, total: int, done: nat, counts: seq<nat>)

  /** `t2` has the slots of `t` and agrees with it everywhere except possibly at `fd`. */
  predicate SameOtherSlots(t: Table, t2: Table, fd: int) {
    && t2.Keys == t.Keys
    && forall g | g in t && g != fd :: t2[g] == t[g]
  }

  /**
    `e2` is `e` after segments moving it by `k` bytes in all: untouched when
    no segment ran, advanced by `k` otherwise. A std stream's `undefined`
    position turns into `NaN` as soon as one segment runs, even for 0 bytes.
   */
  predicate Moved(e: Entry, e2: Entry, k: int)
    requires !e.FakeDir?
  {
    (e2 == e && k == 0) || e2 == Advance(e, k)
  }

  /** Two advances are one advance by the sum. */
  lemma AdvanceTwice(e: Entry, a: int, b: int)
    requires !e.FakeDir?
    ensures Advance(Advance(e, a), b) == Advance(e, a + b)
  {
    match e
    case File(_, _, _) =>
    case Std(h, cursor) =>
      assert PosAdd(PosAdd(cursor, a), b) == PosAdd(cursor, a + b);
  }

  /** A move by `a` followed by an advance by `c` is a move by `a + c`. */
  lemma MovedThen(e: Entry, e1: Entry, a: int, c: int)
    requires !e.FakeDir? && Moved(e, e1, a)
    ensures !e1.FakeDir? && Moved(e, Advance(e1, c), a + c)
  {
    if e1 != e || a != 0 {
      AdvanceTwice(e, a, c);
    }
  }

  /**
    Whether Node's `readSync`/`writeSync` accepts the segment: the byte range
    must lie inside the memory it is given, or the call throws.
   */
  predicate Accepts(mem: Bytes, s: Segment) {
    InBounds(mem, s.buf, s.len)
  }

  /** Segment `j`'s `iovec` is readable and the host would accept its range. */
  predicate SegmentOk(mem: Bytes, iovs: int, j: nat) {
    InBounds(mem, iovs + 8 * j, 8) && Accepts(mem, IovecAt(mem, iovs, j))
  }

  /** `iovec` `j` of the array at `iovs` lies in memory, so its two `getUint32`s do not throw. */
  predicate IovecIn(mem: Bytes, iovs: int, j: nat) {
    InBounds(mem, iovs + 8 * j, 8)
  }

  /** The first `i` `iovec`s lie in memory. */
  predicate IovecsIn(mem: Bytes, iovs: int, i: nat) {
    forall j: nat | j < i :: IovecIn(mem, iovs, j)
  }

  /** The `iovec`s in memory form one run: when the first and the `i`-th are in, so is every one between. */
  lemma IovecsBetween(mem: Bytes, iovs: int, i: nat)
    requires i > 0 && IovecIn(mem, iovs, 0) && IovecIn(mem, iovs, i - 1)
    ensures IovecsIn(mem, iovs, i)
  {
  }

  /** Segment `j` of a read on entry `e` goes through: Node accepts its range and the host answers. */
  predicate ReadAnswers(host: Host, e: Entry, m: Bytes, iovs: int, j: nat)
    requires !e.FakeDir?
  {
    SegmentOk(m, iovs, j) && host.read(e.handle, PositionOf(e), IovecAt(m, iovs, j).len).Some?
  }

  /** Segment `j` of a write on slot `fd` goes through: the slot is truthy, Node accepts the range and the host answers. */
  predicate WriteAnswers(host: Host, t: Table, fd: int, m: Bytes, iovs: int, j: nat) {
    && Truthy(t, fd) && SegmentOk(m, iovs, j)
    && var s := IovecAt(m, iovs, j);
       host.write(t[fd].handle, PositionOf(t[fd]), m[s.buf..s.buf + s.len]).Some?
  }

  /** What one segment does: stop the loop, or go on with the moved entry, the memory and the count. */
  datatype Step = Stop(status: Status) | Next(entry: Entry, mem: Bytes, count: nat)

  /** `m2` is `m1` with at most the bytes in [at, at + len) changed. */
  predicate AgreeOutside(m1: Bytes, m2: Bytes, at: int, len: int) {
    && |m2| == |m1|
    && forall k | 0 <= k < |m1| && !(at <= k < at + len) :: m2[k] == m1[k]
  }

  /**
    One iteration of the `fd_read` loop on entry `e`: load `iovec` `i`, ask
    the host for up to `len` bytes at the entry's position, and store what
    it returns at the segment's buffer.
   */
  method ReadSegment(host: Host, e: Entry, mem: Bytes, iovs: int, i: nat) returns (st: Step)
    requires ReadsWithinRequest(host) && !e.FakeDir?
    ensures st.Stop? ==> st.status != Completed
    ensures st.Stop? && st.status == OutOfBounds <==> !InBounds(mem, iovs + 8 * i, 8)
    ensures InBounds(mem, iovs + 8 * i, 8) && !SegmentOk(mem, iovs, i) ==> st == Stop(HostError)
    ensures st.Next? <==> ReadAnswers(host, e, mem, iovs, i)
    ensures SegmentOk(mem, iovs, i) ==>
      var s := IovecAt(mem, iovs, i);
      && (st.Next? <==> host.read(e.handle, PositionOf(e), s.len).Some?)
      && (st.Next? ==>
           && st.count <= s.len && st.entry == Advance(e, st.count)
           && AgreeOutside(mem, st.mem, s.buf, st.count)
           && host.read(e.handle, PositionOf(e), s.len) == Some(st.mem[s.buf..s.buf + st.count]))
    ensures ReadsFully(host) && SegmentOk(mem, iovs, i) ==>
      && st.Next? && st.count == LenAt(mem, iovs, i)
      && AgreeOutside(mem, st.mem, IovecAt(mem, iovs, i).buf, st.count)
  {
    if !InBounds(mem, iovs + 8 * i, 8) {
      return Stop(OutOfBounds);
    }
    var s := IovecAt(mem, iovs, i);
    if !Accepts(mem, s) {
      return Stop(HostError);
    }
    match host.read(e.handle, PositionOf(e), s.len)
    case None =>
      st := Stop(HostError);
    case Some(data) =>
      var m := Store(mem, s.buf, data);
      assert m[s.buf..s.buf + |data|] == data;
      st := Next(Advance(e, |data|), m, |data|);
  }

  /**
    One iteration of the `fd_write` loop: load `iovec` `i` and hand the
    segment's bytes to the host at the entry's position. The host call's
    first argument, `fds[fd].fd`, throws inside the `try` when the slot is
    `undefined` or `null`.
   */
  method WriteSegment(host: Host, t: Table, fd: int, mem: Bytes, iovs: int, i: nat) returns (st: Step)
    ensures st.Stop? ==> st.status != Completed
    ensures st.Stop? && st.status == OutOfBounds <==> !InBounds(mem, iovs + 8 * i, 8)
    ensures InBounds(mem, iovs + 8 * i, 8) && !(Truthy(t, fd) && SegmentOk(mem, iovs, i)) ==> st == Stop(HostError)
    ensures st.Next? <==> WriteAnswers(host, t, fd, mem, iovs, i)
    ensures Truthy(t, fd) && SegmentOk(mem, iovs, i) ==>
      var s := IovecAt(mem, iovs, i);
      var answer := host.write(t[fd].handle, PositionOf(t[fd]), mem[s.buf..s.buf + s.len]);
      && (st.Next? <==> answer.Some?)
      && (st.Next? ==> st.count == answer.value && st.entry == Advance(t[fd], st.count) && st.mem == mem)
    ensures WritesFully(host) && Truthy(t, fd) && SegmentOk(mem, iovs, i) ==> st.Next? && st.count == LenAt(mem, iovs, i)
  {
    if !InBounds(mem, iovs + 8 * i, 8) {
      return Stop(OutOfBounds);
    }
    if !Truthy(t, fd) {
      return Stop(HostError);
    }
    var s := IovecAt(mem, iovs, i);
    var e := t[fd];
    if !Accepts(mem, s) {
      return Stop(HostError);
    }
    match host.write(e.handle, PositionOf(e), mem[s.buf..s.buf + s.len])
    case None =>
      st := Stop(HostError);
    case Some(c) =>
      st := Next(Advance(e, c), mem, c);
  }

  /** How many times `for (i = 0; i < n; ++i)` runs. */
  function Rounds(n: int): (k: nat)
    ensures k == 0 <==> n <= 0
    ensures n > 0 ==> k == n
  {
    if n < 0 then 0 else n
  }

  /** Segments 0 .. n - 1 are all valid in `mem`. */
  predicate AllSegmentsOk(mem: Bytes, iovs: int, n: int) {
    forall j: nat | j < n :: SegmentOk(mem, iovs, j)
  }

  /** The length of `iovec` `j`, or 0 where the array leaves memory. */
  function LenAt(mem: Bytes, iovs: int, j: nat): (len: nat)
    ensures InBounds(mem, iovs + 8 * j, 8) ==> len == IovecAt(mem, iovs, j).len
  {
    if InBounds(mem, iovs + 8 * j, 8) then IovecAt(mem, iovs, j).len else 0
  }

  /** The sum of the lengths of the first `i` segments, read from `mem`. */
  function LensUpTo(mem: Bytes, iovs: int, i: nat): (sum: nat)
  {
    if i == 0 then 0 else LensUpTo(mem, iovs, i - 1) + LenAt(mem, iovs, i - 1)
  }

  /** The sum of the counts the host reported, one per segment. */
  function Sum(counts: seq<nat>): nat
  {
    if |counts| == 0 then 0 else Sum(counts[..|counts| - 1]) + counts[|counts| - 1]
  }

  /** Counts that each stay within their segment's length sum to at most the lengths. */
  lemma {:induction false} SumWithin(mem: Bytes, iovs: int, counts: seq<nat>)
    requires forall j | 0 <= j < |counts| :: counts[j] <= LenAt(mem, iovs, j)
    ensures Sum(counts) <= LensUpTo(mem, iovs, |counts|)
  {
    if |counts| > 0 {
      SumWithin(mem, iovs, counts[..|counts| - 1]);
    }
  }

  /** The entry as segment `j` finds it: `e` advanced by the counts of the segments before, untouched for the first. */
  function EntryBefore(e: Entry, counts: seq<nat>, j: nat): (e2: Entry)
    requires !e.FakeDir? && j <= |counts|
    ensures !e2.FakeDir? && e2.handle == e.handle
    ensures j > 0 ==> e2 == Advance(e, Sum(counts[..j]))
  {
    if j == 0 then e else Advance(e, Sum(counts[..j]))
  }

  /** A read of segment `j` on entry `e` goes through and the host hands back `c` bytes, no more than asked. */
  predicate ReadGot(host: Host, e: Entry, mem: Bytes, iovs: int, j: nat, c: int)
    requires !e.FakeDir?
  {
    && SegmentOk(mem, iovs, j)
    && c <= IovecAt(mem, iovs, j).len
    && host.read(e.handle, PositionOf(e), IovecAt(mem, iovs, j).len).Some?
    && |host.read(e.handle, PositionOf(e), IovecAt(mem, iovs, j).len).value| == c
  }

  /** A write of segment `j` on entry `e` hands the host the segment's bytes, and the host reports `c`. */
  predicate WriteGot(host: Host, e: Entry, mem: Bytes, iovs: int, j: nat, c: int)
    requires !e.FakeDir?
  {
    && SegmentOk(mem, iovs, j)
    && var s := IovecAt(mem, iovs, j);
       host.write(e.handle, PositionOf(e), mem[s.buf..s.buf + s.len]) == Some(c)
  }

  /**
    `counts` are the host's answers to the first reads on `e` of the
    segments of `mem`, each asked at the position the counts before it left.
   */
  predicate ReadCounts(host: Host, e: Entry, mem: Bytes, iovs: int, counts: seq<nat>)
    requires !e.FakeDir?
  {
    forall j | 0 <= j < |counts| :: ReadGot(host, EntryBefore(e, counts, j), mem, iovs, j, counts[j])
  }

  /**
    `counts` are the host's answers to the first writes on `e` of the
    segments of `mem`, each made at the position the counts before it left.
   */
  predicate WriteCounts(host: Host, e: Entry, mem: Bytes, iovs: int, counts: seq<nat>)
    requires !e.FakeDir?
  {
    forall j | 0 <= j < |counts| :: WriteGot(host, EntryBefore(e, counts, j), mem, iovs, j, counts[j])
  }

  /** One more count adds it to the sum. */
  lemma SumSnoc(counts: seq<nat>, c: nat)
    ensures Sum(counts + [c]) == Sum(counts) + c
  {
    assert (counts + [c])[..|counts|] == counts;
  }

  /** One more count leaves the entry before each earlier segment, and before the new one, as it was. */
  lemma EntriesBeforeKept(e: Entry, counts: seq<nat>, c: nat)
    requires !e.FakeDir?
    ensures forall j | 0 <= j <= |counts| :: EntryBefore(e, counts + [c], j) == EntryBefore(e, counts, j)
  {
    forall j | 0 <= j <= |counts|
      ensures EntryBefore(e, counts + [c], j) == EntryBefore(e, counts, j)
    {
      assert (counts + [c])[..j] == counts[..j];
    }
  }

  /** The entry after the new segment is the one before it advanced by the new count. */
  lemma EntryAfterSnoc(e: Entry, counts: seq<nat>, c: nat)
    requires !e.FakeDir?
    ensures EntryBefore(e, counts + [c], |counts| + 1) == Advance(EntryBefore(e, counts, |counts|), c)
  {
    assert (counts + [c])[..|counts| + 1] == counts + [c];
    SumSnoc(counts, c);
    if |counts| > 0 {
      assert counts[..|counts|] == counts;
      AdvanceTwice(e, Sum(counts), c);
    }
  }

  /** Counts the host answered for reads stay within the lengths asked for. */
  lemma ReadCountsWithin(host: Host, e: Entry, mem: Bytes, iovs: int, counts: seq<nat>)
    requires !e.FakeDir? && ReadCounts(host, e, mem, iovs, counts)
    ensures Sum(counts) <= LensUpTo(mem, iovs, |counts|)
  {
    forall j | 0 <= j < |counts|
      ensures counts[j] <= LenAt(mem, iovs, j)
    {
      assert ReadGot(host, EntryBefore(e, counts, j), mem, iovs, j, counts[j]);
    }
    SumWithin(mem, iovs, counts);
  }


  /** A host that writes every byte it is handed. */
  ghost predicate WritesFully(host: Host) {
    forall h, p, bs :: host.write(h, p, bs) == Some(|bs|)
  }

  /** A host that fills every read request completely. */
  ghost predicate ReadsFully(host: Host) {
    forall h, p, len | 0 <= len :: host.read(h, p, len).Some? && |host.read(h, p, len).value| == len
  }

  /** A host whose reads fill every request with zeros and whose writes take every byte. */
  const FullHost: Host := Host(
    (path, write) => None,
    handle => true,
    path => true,
    (h, p, len) => if 0 <= len then Some(seq(len, _ => 0)) else None,
    (h, p, bs) => Some(|bs|),
    command => Finished(None))

  /** Hosts that read and write in full exist, so the contracts that assume them are not vacuous. */
  lemma FullHostIsFull()
    ensures ReadsFully(FullHost) && WritesFully(FullHost) && ReadsWithinRequest(FullHost)
  {
  }

  /** Every segment's buffer lies outside the `iovec` array, so reads cannot rewrite it. */
  predicate BuffersApart(mem: Bytes, iovs: int, n: int) {
    forall j: nat | j < n :: SegmentOk(mem, iovs, j) ==> Apart(IovecAt(mem, iovs, j).buf, IovecAt(mem, iovs, j).len, iovs, 8 * n)
  }

  /** Segment `j` is valid in both memories and reads the same in both. */
  predicate SameSegment(m1: Bytes, m2: Bytes, iovs: int, j: nat) {
    SegmentOk(m1, iovs, j) && SegmentOk(m2, iovs, j) && IovecAt(m1, iovs, j) == IovecAt(m2, iovs, j)
  }

  /** From segment `i` on, every segment of the original memory `mem` reads the same in `m`. */
  predicate SegmentsKept(mem: Bytes, m: Bytes, iovs: int, n: int, i: nat) {
    forall j: nat | i <= j < n :: SameSegment(mem, m, iovs, j)
  }

  /** A write outside the `iovec` array leaves `iovec` `j` as it was. */
  lemma IovecAgree(m1: Bytes, m2: Bytes, iovs: int, n: int, at: int, len: int, j: nat)
    requires AgreeOutside(m1, m2, at, len) && j < n && InBounds(m1, iovs + 8 * j, 8)
    requires Apart(at, len, iovs, 8 * n)
    ensures InBounds(m2, iovs + 8 * j, 8) && IovecAt(m2, iovs, j) == IovecAt(m1, iovs, j)
  {
    var a := iovs + 8 * j;
    assert m2[a..a + 4] == m1[a..a + 4];
    assert m2[a + 4..a + 8] == m1[a + 4..a + 8];
  }

  /** A read into a buffer outside the `iovec` array keeps every `iovec` as it was. */
  lemma KeptAfter(mem: Bytes, m: Bytes, m2: Bytes, iovs: int, n: int, i: nat, at: int, len: int)
    requires SegmentsKept(mem, m, iovs, n, i)
    requires AgreeOutside(m, m2, at, len) && Apart(at, len, iovs, 8 * n)
    ensures SegmentsKept(mem, m2, iovs, n, i)
  {
    forall j: nat | i <= j < n
      ensures SameSegment(mem, m2, iovs, j)
    {
      assert SameSegment(mem, m, iovs, j);
      IovecAgree(m, m2, iovs, n, at, len, j);
    }
  }

  /** One complete read keeps the loop's full-host invariant. */
  lemma ReadFullStep(mem: Bytes, m: Bytes, m2: Bytes, iovs: int, n: int, i: nat, total: int, c: int)
    requires i < n && AllSegmentsOk(mem, iovs, n) && BuffersApart(mem, iovs, n)
    requires SegmentsKept(mem, m, iovs, n, i) && total == LensUpTo(mem, iovs, i)
    requires SameSegment(mem, m, iovs, i) && c == LenAt(m, iovs, i)
    requires AgreeOutside(m, m2, IovecAt(m, iovs, i).buf, c)
    ensures SegmentsKept(mem, m2, iovs, n, i + 1) && total + c == LensUpTo(mem, iovs, i + 1)
  {
    assert SegmentOk(mem, iovs, i);
    var s := IovecAt(mem, iovs, i);
    KeptAfter(mem, m, m2, iovs, n, i + 1, s.buf, s.len);
  }

  /** Byte `k` lies in the buffer of none of the first `i` segments of `mem` that the host would accept. */
  predicate Untouched(mem: Bytes, iovs: int, i: nat, k: int) {
    forall j: nat | j < i :: SegmentOk(mem, iovs, j) ==> !(IovecAt(mem, iovs, j).buf <= k < IovecAt(mem, iovs, j).buf + IovecAt(mem, iovs, j).len)
  }

  /** From segment `i` on, every `iovec` of `mem` that lies in memory reads the same in `m`. */
  predicate IovecsKept(mem: Bytes, m: Bytes, iovs: int, n: int, i: nat) {
    && |m| == |mem|
    && forall j: nat | i <= j < n && InBounds(mem, iovs + 8 * j, 8) :: IovecAt(m, iovs, j) == IovecAt(mem, iovs, j)
  }

  /**
    The read loop's frame after `i` rounds, when no buffer overlaps the
    `iovec` array: the later `iovec`s are as they were, and a byte outside
    the buffers of the first `i` segments is as it was.
   */
  predicate ReadFrame(mem: Bytes, m: Bytes, iovs: int, n: int, i: nat) {
    && |m| == |mem|
    && (BuffersApart(mem, iovs, n) ==>
         && IovecsKept(mem, m, iovs, n, i)
         && forall k | 0 <= k < |mem| && Untouched(mem, iovs, i, k) :: m[k] == mem[k])
  }

  /** A read of at most the segment's length into segment `i`'s buffer keeps the frame. */
  lemma ReadFrameStep(mem: Bytes, m: Bytes, m2: Bytes, iovs: int, n: int, i: nat, c: int)
    requires i < n && ReadFrame(mem, m, iovs, n, i) && SegmentOk(m, iovs, i)
    requires 0 <= c <= IovecAt(m, iovs, i).len && AgreeOutside(m, m2, IovecAt(m, iovs, i).buf, c)
    ensures ReadFrame(mem, m2, iovs, n, i + 1)
  {
    if BuffersApart(mem, iovs, n) {
      var s := IovecAt(m, iovs, i);
      assert IovecAt(mem, iovs, i) == s;
      assert SegmentOk(mem, iovs, i);
      forall j: nat | i + 1 <= j < n && InBounds(mem, iovs + 8 * j, 8)
        ensures IovecAt(m2, iovs, j) == IovecAt(mem, iovs, j)
      {
        IovecAgree(m, m2, iovs, n, s.buf, c, j);
      }
      forall k | 0 <= k < |mem| && Untouched(mem, iovs, i + 1, k)
        ensures m2[k] == mem[k]
      {
        assert !(s.buf <= k < s.buf + s.len);
      }
    }
  }

  /** Where the loop stops after `i` rounds, every byte outside all `n` buffers is as it was. */
  lemma Unchanged(mem: Bytes, m: Bytes, iovs: int, n: int, i: nat)
    requires i <= Rounds(n) && ReadFrame(mem, m, iovs, n, i)
    ensures BuffersApart(mem, iovs, n) ==>
      forall k | 0 <= k < |mem| && Untouched(mem, iovs, Rounds(n), k) :: m[k] == mem[k]
  {
    if BuffersApart(mem, iovs, n) {
      forall k | 0 <= k < |mem| && Untouched(mem, iovs, Rounds(n), k)
        ensures m[k] == mem[k]
      {
        UntouchedPrefix(mem, iovs, i, Rounds(n), k);
      }
    }
  }

  /** Untouched by more segments is untouched by fewer. */
  lemma UntouchedPrefix(mem: Bytes, iovs: int, i: nat, n: nat, k: int)
    requires i <= n && Untouched(mem, iovs, n, k)
    ensures Untouched(mem, iovs, i, k)
  {
  }

  /** What holds after `i` rounds of the `fd_read` loop on `t`, left as `fds`, `m` and `total`. */
  ghost predicate ReadInv(host: Host, t: Table, fd: int, mem: Bytes, iovs: int, n: int, full: bool,
                          i: nat, fds: Table, m: Bytes, total: int)
  {
    && i <= Rounds(n) && Truthy(t, fd) && Truthy(fds, fd) && Moved(t[fd], fds[fd], total)
    && SameOtherSlots(t, fds, fd) && |m| == |mem|
    && (i == 0 ==> fds == t && m == mem && total == 0)
    && (full ==> ReadsFully(host) && AllSegmentsOk(mem, iovs, n) && BuffersApart(mem, iovs, n))
    && (full ==> total == LensUpTo(mem, iovs, i) && SegmentsKept(mem, m, iovs, n, i))
    && ReadFrame(mem, m, iovs, n, i)
  }

  /** A segment that read `c` bytes into its buffer and moved the entry by `c` keeps the read loop's invariant. */
  lemma ReadInvStep(host: Host, t: Table, fd: int, mem: Bytes, iovs: int, n: int, full: bool,
                    i: nat, fds: Table, m: Bytes, total: int, c: nat, i2: nat, fds2: Table, m2: Bytes, total2: int)
    requires i < n && ReadInv(host, t, fd, mem, iovs, n, full, i, fds, m, total)
    requires SegmentOk(m, iovs, i) && c <= IovecAt(m, iovs, i).len
    requires AgreeOutside(m, m2, IovecAt(m, iovs, i).buf, c)
    requires full ==> c == LenAt(m, iovs, i)
    requires i2 == i + 1 && fds2 == fds[fd := Advance(fds[fd], c)] && total2 == total + c
    ensures ReadInv(host, t, fd, mem, iovs, n, full, i2, fds2, m2, total2)
  {
    if full {
      assert SameSegment(mem, m, iovs, i);
      ReadFullStep(mem, m, m2, iovs, n, i, total, c);
    }
    ReadFrameStep(mem, m, m2, iovs, n, i, c);
    MovedThen(t[fd], fds[fd], total, c);
  }

  /**
    The counts after `i` rounds of the `fd_read` loop on `t`: one per round,
    summing to the total and moving the entry by exactly that. When no
    buffer overlaps the `iovec` array, each is the host's answer for its
    segment.
   */
  predicate ReadTally(host: Host, t: Table, fd: int, mem: Bytes, iovs: int, n: int,
                      i: nat, fds: Table, total: int, counts: seq<nat>)
    requires Truthy(t, fd)
  {
    && |counts| == i && total == Sum(counts)
    && fd in fds && fds[fd] == EntryBefore(t[fd], counts, i)
    && (BuffersApart(mem, iovs, n) ==> ReadCounts(host, t[fd], mem, iovs, counts))
  }

  /** A round whose count `c` is the host's answer for segment `i` keeps the tally. */
  lemma ReadTallyStep(host: Host, t: Table, fd: int, mem: Bytes, iovs: int, n: int,
                      i: nat, fds: Table, m: Bytes, total: int, counts: seq<nat>,
                      c: nat, fds2: Table, total2: int, counts2: seq<nat>)
    requires Truthy(t, fd) && i < n && ReadTally(host, t, fd, mem, iovs, n, i, fds, total, counts)
    requires ReadFrame(mem, m, iovs, n, i) && ReadGot(host, fds[fd], m, iovs, i, c)
    requires fds2 == fds[fd := Advance(fds[fd], c)] && total2 == total + c && counts2 == counts + [c]
    ensures ReadTally(host, t, fd, mem, iovs, n, i + 1, fds2, total2, counts2)
  {
    SumSnoc(counts, c);
    EntriesBeforeKept(t[fd], counts, c);
    EntryAfterSnoc(t[fd], counts, c);
    if BuffersApart(mem, iovs, n) {
      assert IovecAt(m, iovs, i) == IovecAt(mem, iovs, i);
      assert ReadGot(host, fds[fd], mem, iovs, i, c);
    }
  }

  /** Round `i` of the `fd_read` loop. */
  method ReadRound(host: Host, t: Table, fd: int, mem: Bytes, iovs: int, n: int, ghost full: bool,
                   i: nat, fds: Table, m: Bytes, total: int, counts: seq<nat>)
    returns (stop: Option<Status>, fds2: Table, m2: Bytes, total2: int, i2: nat, counts2: seq<nat>)
    requires ReadsWithinRequest(host) && i < n
    requires ReadInv(host, t, fd, mem, iovs, n, full, i, fds, m, total)
    requires ReadTally(host, t, fd, mem, iovs, n, i, fds, total, counts)
    ensures stop.Some? ==> stop.value != Completed && !full && fds2 == fds && m2 == m && total2 == total && i2 == i
    ensures stop.Some? ==> counts2 == counts
    ensures stop.None? ==> i2 == i + 1 && ReadInv(host, t, fd, mem, iovs, n, full, i2, fds2, m2, total2)
    ensures stop.None? ==> ReadTally(host, t, fd, mem, iovs, n, i2, fds2, total2, counts2)
    ensures stop == Some(OutOfBounds) <==> !IovecIn(mem, iovs, i)
    ensures stop.None? <==> ReadAnswers(host, fds[fd], m, iovs, i)
    ensures stop.None? ==> ReadGot(host, fds[fd], m, iovs, i, total2 - total) && fds2[fd] == Advance(fds[fd], total2 - total)
  {
    if full {
      assert SameSegment(mem, m, iovs, i);
    }
    var st := ReadSegment(host, fds[fd], m, iovs, i);
    if st.Stop? {
      return Some(st.status), fds, m, total, i, counts;
    }
    stop, fds2, m2, total2, i2, counts2 := None, fds[fd := st.entry], st.mem, total + st.count, i + 1, counts + [st.count];
    ReadInvStep(host, t, fd, mem, iovs, n, full, i, fds, m, total, st.count, i2, fds2, m2, total2);
    ReadTallyStep(host, t, fd, mem, iovs, n, i, fds, m, total, counts, st.count, fds2, total2, counts2);
  }

  /** Where the read loop leaves after `i` rounds, with `status`, it stopped at the first segment that did not go through. */
  lemma ReadStopped(host: Host, t: Table, fd: int, mem: Bytes, iovs: int, n: int, full: bool,
                    i: nat, fds: Table, m: Bytes, total: int, counts: seq<nat>, status: Status)
    requires ReadInv(host, t, fd, mem, iovs, n, full, i, fds, m, total)
    requires i > 0 ==> ReadAnswers(host, t[fd], mem, iovs, 0) && IovecIn(mem, iovs, i - 1)
    requires status == Completed <==> i == Rounds(n)
    requires status == OutOfBounds <==> i < Rounds(n) && !IovecIn(mem, iovs, i)
    requires status == HostError ==> IovecIn(mem, iovs, i) && !ReadAnswers(host, fds[fd], m, iovs, i)
    ensures var r := Transfer(status, fds, m, total, i, counts);
      && r.done <= Rounds(n) && IovecsIn(mem, iovs, r.done)
      && (r.status == Completed <==> r.done == Rounds(n))
      && (r.status == OutOfBounds <==> r.done < Rounds(n) && !IovecIn(mem, iovs, r.done))
      && (r.status == HostError ==> IovecIn(mem, iovs, r.done) && !ReadAnswers(host, r.fds[fd], r.mem, iovs, r.done))
      && (r.done == 0 ==> r.fds == t && r.mem == mem && r.total == 0)
      && (r.done > 0 ==> ReadAnswers(host, t[fd], mem, iovs, 0))
      && (BuffersApart(mem, iovs, n) ==>
           forall k | 0 <= k < |mem| && Untouched(mem, iovs, Rounds(n), k) :: r.mem[k] == mem[k])
  {
    Unchanged(mem, m, iovs, n, i);
    if i > 0 {
      IovecsBetween(mem, iovs, i);
    }
  }

  /**
    The `fd_read` loop over `n` segments. The host's bytes land at each
    segment's buffer, so a later `iovec` is read from the memory the
    earlier segments left. When the host fills every request and no buffer
    overlaps the `iovec` array, the count is the sum of the lengths. The
    loop stops early exactly at the first segment that does not go through:
    with a trap when its `iovec` leaves memory, with `EIO` otherwise.
   */
  method ReadLoop(host: Host, t: Table, fd: int, mem: Bytes, iovs: int, n: int) returns (r: Transfer)
    requires ReadsWithinRequest(host) && Truthy(t, fd)
    ensures Truthy(r.fds, fd) && Moved(t[fd], r.fds[fd], r.total)
    ensures SameOtherSlots(t, r.fds, fd)
    ensures |r.mem| == |mem|
    ensures n <= 0 ==> r == Transfer(Completed, t, mem, 0, 0, [])
    ensures r.done <= Rounds(n) && IovecsIn(mem, iovs, r.done)
    ensures |r.counts| == r.done && r.total == Sum(r.counts)
    ensures r.fds[fd] == EntryBefore(t[fd], r.counts, r.done)
    ensures BuffersApart(mem, iovs, n) ==> ReadCounts(host, t[fd], mem, iovs, r.counts)
    ensures r.status == Completed <==> r.done == Rounds(n)
    ensures r.status == OutOfBounds <==> r.done < Rounds(n) && !IovecIn(mem, iovs, r.done)
    ensures r.status == HostError ==> IovecIn(mem, iovs, r.done) && !ReadAnswers(host, r.fds[fd], r.mem, iovs, r.done)
    ensures r.done == 0 ==> r.fds == t && r.mem == mem && r.total == 0
    ensures r.done > 0 ==> ReadAnswers(host, t[fd], mem, iovs, 0)
    ensures ReadsFully(host) && AllSegmentsOk(mem, iovs, n) && BuffersApart(mem, iovs, n)
      ==> r.status == Completed && r.total == LensUpTo(mem, iovs, Rounds(n))
    ensures BuffersApart(mem, iovs, n) ==>
      forall k | 0 <= k < |mem| && Untouched(mem, iovs, Rounds(n), k) :: r.mem[k] == mem[k]
  {
    ghost var full := ReadsFully(host) && AllSegmentsOk(mem, iovs, n) && BuffersApart(mem, iovs, n);
    var fds, m, total := t, mem, 0;
    var i: nat := 0;
    var counts: seq<nat> := [];
    while i < n
      invariant ReadInv(host, t, fd, mem, iovs, n, full, i, fds, m, total)
      invariant ReadTally(host, t, fd, mem, iovs, n, i, fds, total, counts)
      invariant i > 0 ==> ReadAnswers(host, t[fd], mem, iovs, 0) && IovecIn(mem, iovs, i - 1)
      decreases n - i
    {
      var stop;
      stop, fds, m, total, i, counts := ReadRound(host, t, fd, mem, iovs, n, full, i, fds, m, total, counts);
      if stop.Some? {
        ReadStopped(host, t, fd, mem, iovs, n, full, i, fds, m, total, counts, stop.value);
        return Transfer(stop.value, fds, m, total, i, counts);
      }
    }
    ReadStopped(host, t, fd, mem, iovs, n, full, i, fds, m, total, counts, Completed);
    return Transfer(Completed, fds, m, total, i, counts);
  }

  /** What holds after `i` rounds of the `fd_write` loop on `t`, left as `fds` and `total`. */
  ghost predicate WriteInv(host: Host, t: Table, fd: int, mem: Bytes, iovs: int, n: int, full: bool,
                           i: nat, fds: Table, total: int)
  {
    && i <= Rounds(n) && SameOtherSlots(t, fds, fd)
    && (Truthy(t, fd) ==> Truthy(fds, fd) && Moved(t[fd], fds[fd], total))
    && (!Truthy(t, fd) ==> i == 0)
    && (i == 0 ==> fds == t && total == 0)
    && (full ==> WritesFully(host) && Truthy(t, fd) && AllSegmentsOk(mem, iovs, n))
    && (full ==> total == LensUpTo(mem, iovs, i))
  }

  /**
    The counts after `i` rounds of the `fd_write` loop on `t`: one per
    round and summing to the total. On a truthy slot they move the entry by
    exactly that, and each is the host's answer for its segment.
   */
  predicate WriteTally(host: Host, t: Table, fd: int, mem: Bytes, iovs: int,
                       i: nat, fds: Table, total: int, counts: seq<nat>)
  {
    && |counts| == i && total == Sum(counts)
    && (Truthy(t, fd) ==>
         && fd in fds && fds[fd] == EntryBefore(t[fd], counts, i)
         && WriteCounts(host, t[fd], mem, iovs, counts))
  }

  /** A round whose count `c` is the host's answer for segment `i` keeps the tally. */
  lemma WriteTallyStep(host: Host, t: Table, fd: int, mem: Bytes, iovs: int,
                       i: nat, fds: Table, total: int, counts: seq<nat>,
                       c: nat, fds2: Table, total2: int, counts2: seq<nat>)
    requires Truthy(t, fd) && WriteTally(host, t, fd, mem, iovs, i, fds, total, counts)
    requires WriteGot(host, fds[fd], mem, iovs, i, c)
    requires fds2 == fds[fd := Advance(fds[fd], c)] && total2 == total + c && counts2 == counts + [c]
    ensures WriteTally(host, t, fd, mem, iovs, i + 1, fds2, total2, counts2)
  {
    SumSnoc(counts, c);
    EntriesBeforeKept(t[fd], counts, c);
    EntryAfterSnoc(t[fd], counts, c);
  }

  /** A segment the host wrote `c` bytes of, moving the entry by `c`, keeps the write loop's invariant. */
  lemma WriteInvStep(host: Host, t: Table, fd: int, mem: Bytes, iovs: int, n: int, full: bool,
                     i: nat, fds: Table, total: int, c: nat, i2: nat, fds2: Table, total2: int)
    requires i < n && Truthy(t, fd) && WriteInv(host, t, fd, mem, iovs, n, full, i, fds, total)
    requires full ==> c == LenAt(mem, iovs, i)
    requires i2 == i + 1 && fds2 == fds[fd := Advance(fds[fd], c)] && total2 == total + c
    ensures WriteInv(host, t, fd, mem, iovs, n, full, i2, fds2, total2)
  {
    MovedThen(t[fd], fds[fd], total, c);
  }

  /** Round `i` of the `fd_write` loop. */
  method WriteRound(host: Host, t: Table, fd: int, mem: Bytes, iovs: int, n: int, ghost full: bool,
                    i: nat, fds: Table, total: int, counts: seq<nat>)
    returns (stop: Option<Status>, fds2: Table, total2: int, i2: nat, counts2: seq<nat>)
    requires i < n
    requires WriteInv(host, t, fd, mem, iovs, n, full, i, fds, total)
    requires WriteTally(host, t, fd, mem, iovs, i, fds, total, counts)
    ensures stop.Some? ==> stop.value != Completed && !full && fds2 == fds && total2 == total && i2 == i
    ensures stop.Some? ==> counts2 == counts
    ensures stop.None? ==> i2 == i + 1 && WriteInv(host, t, fd, mem, iovs, n, full, i2, fds2, total2)
    ensures stop.None? ==> WriteTally(host, t, fd, mem, iovs, i2, fds2, total2, counts2)
    ensures !Truthy(t, fd) ==> stop.Some? && (stop.value == OutOfBounds <==> !InBounds(mem, iovs + 8 * i, 8))
    ensures stop == Some(OutOfBounds) <==> !IovecIn(mem, iovs, i)
    ensures stop.None? <==> WriteAnswers(host, fds, fd, mem, iovs, i)
    ensures stop.None? ==> WriteGot(host, fds[fd], mem, iovs, i, total2 - total) && fds2[fd] == Advance(fds[fd], total2 - total)
  {
    if full {
      assert SegmentOk(mem, iovs, i);
    }
    var st := WriteSegment(host, fds, fd, mem, iovs, i);
    if st.Stop? {
      return Some(st.status), fds, total, i, counts;
    }
    assert WriteGot(host, fds[fd], mem, iovs, i, st.count);
    stop, fds2, total2, i2, counts2 := None, fds[fd := st.entry], total + st.count, i + 1, counts + [st.count];
    WriteInvStep(host, t, fd, mem, iovs, n, full, i, fds, total, st.count, i2, fds2, total2);
    WriteTallyStep(host, t, fd, mem, iovs, i, fds, total, counts, st.count, fds2, total2, counts2);
  }

  /**
    The `fd_write` loop over `n` segments. There is no slot check before
    the loop, so with a slot that is `undefined` or `null` the first
    segment fails. When the host writes everything, the count is the sum of
    the lengths. As for reading, the loop stops early exactly at the first
    segment that does not go through.
   */
  method WriteLoop(host: Host, t: Table, fd: int, mem: Bytes, iovs: int, n: int) returns (r: Transfer)
    ensures r.mem == mem
    ensures SameOtherSlots(t, r.fds, fd)
    ensures Truthy(t, fd) ==> Truthy(r.fds, fd) && Moved(t[fd], r.fds[fd], r.total)
    ensures !Truthy(t, fd) ==> r.fds == t && r.total == 0 && (r.status == Completed <==> n <= 0)
    ensures !Truthy(t, fd) && n > 0 ==> (r.status == OutOfBounds <==> !InBounds(mem, iovs, 8))
    ensures n <= 0 ==> r == Transfer(Completed, t, mem, 0, 0, [])
    ensures r.done <= Rounds(n) && IovecsIn(mem, iovs, r.done)
    ensures |r.counts| == r.done && r.total == Sum(r.counts)
    ensures Truthy(t, fd) ==>
      && r.fds[fd] == EntryBefore(t[fd], r.counts, r.done)
      && WriteCounts(host, t[fd], mem, iovs, r.counts)
    ensures r.status == Completed <==> r.done == Rounds(n)
    ensures r.status == OutOfBounds <==> r.done < Rounds(n) && !IovecIn(mem, iovs, r.done)
    ensures r.status == HostError ==> IovecIn(mem, iovs, r.done) && !WriteAnswers(host, r.fds, fd, mem, iovs, r.done)
    ensures r.done == 0 ==> r.fds == t && r.total == 0
    ensures r.done > 0 ==> WriteAnswers(host, t, fd, mem, iovs, 0)
    ensures WritesFully(host) && Truthy(t, fd) && AllSegmentsOk(mem, iovs, n)
      ==> r.status == Completed && r.total == LensUpTo(mem, iovs, Rounds(n))
  {
    ghost var full := WritesFully(host) && Truthy(t, fd) && AllSegmentsOk(mem, iovs, n);
    var fds, total := t, 0;
    var i: nat := 0;
    var counts: seq<nat> := [];
    while i < n
      invariant WriteInv(host, t, fd, mem, iovs, n, full, i, fds, total)
      invariant WriteTally(host, t, fd, mem, iovs, i, fds, total, counts)
      invariant i > 0 ==> WriteAnswers(host, t, fd, mem, iovs, 0) && IovecIn(mem, iovs, i - 1)
      decreases n - i
    {
      var stop;
      stop, fds, total, i, counts := WriteRound(host, t, fd, mem, iovs, n, full, i, fds, total, counts);
      if stop.Some? {
        if i > 0 {
          IovecsBetween(mem, iovs, i);
        }
        return Transfer(stop.value, fds, mem, total, i, counts);
      }
    }
    if i > 0 {
      IovecsBetween(mem, iovs, i);
    }
    return Transfer(Completed, fds, mem, total, i, counts);
  }
}
