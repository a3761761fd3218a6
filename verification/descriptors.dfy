/**
  The shim's descriptor table: a map from the small integers the guest
  uses as file descriptors to the entry each one names.

  The table starts with the three standard streams at 0, 1 and 2 and the
  fake preopened directory at 3; `path_open32` adds open files at the lowest
  free slot and `fd_close` removes entries. The source stores the fake
  directory as JavaScript `null` and a freed slot as `undefined`, and tests a
  slot in three different ways; `Allocated`, `Truthy` and `HoldsNull` below
  are those three tests.
 */
module Descriptors {
  import opened WasiTypes
  import opened LinearMemory

  /**
    The JavaScript value of an entry's `position` property when the entry
    does not track one itself: a std stream starts with none (`undefined`),
    and adding a count to `undefined` gives `NaN`; `fd_seek32` with whence 0
    can give it a number.
   */
  datatype Pos = Undefined | NotANumber | At(n: int)

  datatype Entry =
    /** One of the process's standard streams, `{fd: handle}`. */
    | Std(handle: int, cursor: Pos)
    /** The fake preopened directory, stored as `null`. */
    | FakeDir
    /** A file opened by `path_open32`: `{fd: handle, position, size}`. */
    | File(handle: int, position: int, size: nat)

  type Table = map<int, Entry>

  /** The table at process start. */
  const InitialTable: Table :=
    map[0 := Std(0, Undefined), 1 := Std(1, Undefined), 2 := Std(2, Undefined), FAKE_DIR_FD := FakeDir]

  /** `fds[fd] !== undefined`: the slot holds an entry, the fake directory included. */
  predicate Allocated(t: Table, fd: int) {
    fd in t
  }

  /** `!!fds[fd]`: the slot holds an entry other than the fake directory's `null`. */
  predicate Truthy(t: Table, fd: int) {
    fd in t && !t[fd].FakeDir?
  }

  /** `fds[fd] === null`: the slot holds the fake directory. */
  predicate HoldsNull(t: Table, fd: int) {
    fd in t && t[fd].FakeDir?
  }

  /**
    The table invariant: slot 3 holds the fake directory, no other slot
    does, and every descriptor is non-negative.
   */
  predicate Wf(t: Table) {
    && FAKE_DIR_FD in t && t[FAKE_DIR_FD] == FakeDir
    && forall fd | fd in t :: 0 <= fd && (t[fd].FakeDir? ==> fd == FAKE_DIR_FD)
  }

  lemma InitialTableWf()
    ensures Wf(InitialTable)
    ensures forall fd :: Truthy(InitialTable, fd) <==> 0 <= fd < 3
  {
  }

  /**
    On a well-formed table the three slot tests differ exactly at slot 3:
    it is allocated and null but not truthy.
   */
  lemma SlotTests(t: Table, fd: int)
    requires Wf(t)
    ensures HoldsNull(t, fd) <==> fd == FAKE_DIR_FD
    ensures Truthy(t, fd) <==> Allocated(t, fd) && fd != FAKE_DIR_FD
    ensures Allocated(t, FAKE_DIR_FD) && !Truthy(t, FAKE_DIR_FD)
  {
  }

  /** `undefined + n` and `NaN + n` are `NaN`; a number adds. */
  function PosAdd(p: Pos, n: int): (q: Pos)
    ensures q.At? <==> p.At?
    ensures q.At? ==> q.n - p.n == n
    ensures !p.At? ==> q == NotANumber
  {
    match p
    case At(x) => At(x + n)
    case _ => NotANumber
  }

  /** `ToUint32` of a position: `undefined` and `NaN` convert to 0. */
  function PosToUint32(p: Pos): (w: int)
    ensures 0 <= w < U32_RANGE
    ensures p.At? ==> w == ToUint32(p.n)
    ensures !p.At? ==> w == 0
  {
    match p
    case At(x) => ToUint32(x)
    case _ => 0
  }

  /** The value `fds[fd].position` evaluates to, as handed to the host. */
  function PositionOf(e: Entry): (p: Pos)
    requires !e.FakeDir?
    ensures e.File? ==> p == At(e.position)
    ensures e.Std? ==> p == e.cursor
  {
    match e
    case File(_, position, _) => At(position)
    case Std(_, cursor) => cursor
  }

  /** `fds[fd].position += n`. */
  function Advance(e: Entry, n: int): (e': Entry)
    requires !e.FakeDir?
    ensures !e'.FakeDir? && e'.Std? == e.Std? && e'.handle == e.handle
    ensures e.File? ==> e'.size == e.size && e'.position == e.position + n
    ensures PositionOf(e') == PosAdd(PositionOf(e), n)
  {
    match e
    case File(h, position, size) => File(h, position + n, size)
    case Std(h, cursor) => Std(h, PosAdd(cursor, n))
  }

  /** The least free slot at or above `i`: the loop of `nextFd` from `i` on. */
  function NextFdFrom(t: Table, i: nat): (r: nat)
    ensures i <= r && r !in t
    ensures forall j | i <= j < r :: j in t
    decreases set k | k in t.Keys && k >= i
  {
    if i in t then
      assert i in (set k | k in t.Keys && k >= i) - (set k | k in t.Keys && k >= i + 1);
      NextFdFrom(t, i + 1)
    else i
  }

  /** `nextFd()`: the least non-negative integer whose slot is `undefined`. */
  function NextFd(t: Table): (r: nat)
    ensures r !in t
    ensures forall j | 0 <= j < r :: j in t
  {
    NextFdFrom(t, 0)
  }

  /** The least-free-slot characterisation pins `nextFd` down: no other slot satisfies it. */
  lemma NextFdIsLeastFree(t: Table, r: nat)
    ensures r == NextFd(t) <==> (r !in t && forall j | 0 <= j < r :: j in t)
  {
    var f := NextFd(t);
    if r !in t && forall j | 0 <= j < r :: j in t {
      assert !(f < r) && !(r < f);
    }
  }

  /** A well-formed table never hands out slot 3. */
  lemma NextFdNotFakeDir(t: Table)
    requires Wf(t)
    ensures NextFd(t) != FAKE_DIR_FD
  {
  }

  /** The slots 0 .. n-1, as a set. */
  function Below(n: nat): (s: set<int>)
    ensures n > 0 ==> n - 1 in s
  {
    if n == 0 then {} else Below(n - 1) + {n - 1}
  }

  lemma {:induction false} BelowMembers(n: nat)
    ensures forall j :: j in Below(n) <==> 0 <= j < n
  {
    if n > 0 {
      BelowMembers(n - 1);
    }
  }

  lemma {:induction false} BelowSize(n: nat)
    ensures |Below(n)| == n
  {
    if n > 0 {
      BelowSize(n - 1);
      BelowMembers(n - 1);
      var a := Below(n - 1);
      assert n - 1 !in a;
      assert |a + {n - 1}| == |a| + 1;
    }
  }

  /** The scan in `nextFd` stops within |table| + 1 probes. */
  lemma NextFdBound(t: Table)
    ensures NextFd(t) <= |t|
  {
    var r := NextFd(t);
    BelowSize(r);
    BelowMembers(r);
    assert Below(r) <= t.Keys;
    SubsetSize(Below(r), t.Keys);
  }

  lemma SubsetSize(a: set<int>, b: set<int>)
    requires a <= b
    ensures |a| <= |b|
  {
    assert b == a + (b - a);
    assert a * (b - a) == {};

  }
}
