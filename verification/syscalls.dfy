/**
  The WASI functions the shim exports to the module, one handler each.

  A handler answers an `errno` and leaves a descriptor table and a linear
  memory behind. A guest memory access outside a `try` that leaves memory
  throws out of the host function, which aborts the instance: the handler
  then `Trapped`, and what it wrote before the throw no longer matters.
 */
module Syscalls {
  import opened Wrappers
  import opened LinearMemory
  import opened WasiTypes
  import opened Descriptors
  import opened HostOs
  import opened Vectors
  import opened Streams

  /** The end of a host function call: an `errno` with the table and memory it left, or a trap. */
  datatype Outcome = Returned(errno: int, fds: Table, mem: Bytes) | Trapped

  /** `t2` is `t` with slot `fd` freed and every other slot as it was. */
  predicate Freed(t: Table, t2: Table, fd: int) {
    && t2.Keys == t.Keys - {fd}
    && forall g | g in t2 :: t2[g] == t[g]
  }

  /**
    `fd_close`: a slot that is not truthy (free, or the fake directory) is
    `EBADF`. Otherwise the host descriptor is closed and the slot is freed
    whether or not the close succeeded; a failed close answers `EIO`.
   */
  function FdClose(host: Host, t: Table, mem: Bytes, fd: int): (r: Outcome)
    ensures r.Returned? && r.mem == mem
    ensures !Truthy(t, fd) <==> r.errno == EBADF
    ensures !Truthy(t, fd) ==> r.fds == t
    ensures Truthy(t, fd) ==> Freed(t, r.fds, fd)
    ensures Truthy(t, fd) ==> (r.errno == SUCCESS <==> host.close(t[fd].handle)) && (r.errno == SUCCESS || r.errno == EIO)
    ensures Wf(t) ==> Wf(r.fds)
  {
    if !Truthy(t, fd) then Returned(EBADF, t, mem)
    else
      var freed := t - {fd};
      if host.close(t[fd].handle) then Returned(SUCCESS, freed, mem) else Returned(EIO, freed, mem)
  }

  /** The bytes `fd_fdstat_get` writes into the 24-byte `fdstat` at `stat`. */
  predicate FdstatWritten(mem: Bytes, r: Bytes, stat: int, filetype: int) {
    && |r| == |mem| && InBounds(r, stat, 24)
    && r[stat] == filetype
    && (forall k | stat + 2 <= k < stat + 24 && (k < stat + 4 || stat + 8 <= k) :: r[k] == 0)
    && forall k | 0 <= k < |mem| && k != stat && !(stat + 2 <= k < stat + 4) && !(stat + 8 <= k < stat + 24) ::
         r[k] == mem[k]
  }

  /**
    `fd_fdstat_get`: `EBADF` only for a free slot. The fake directory
    reports `filetype::directory`, every other entry (the std streams
    included) `filetype::regular_file`; the flags and both rights words are
    zero. The two-byte and the four four-byte stores are written as two
    runs of zeros.
   */
  function FdFdstatGet(t: Table, mem: Bytes, fd: int, stat: int): (r: Outcome)
    ensures !Allocated(t, fd) <==> r == Returned(EBADF, t, mem)
    ensures Allocated(t, fd) ==> (r.Trapped? <==> !InBounds(mem, stat, 24))
    ensures Allocated(t, fd) && r.Returned? ==>
      && r.errno == SUCCESS && r.fds == t
      && FdstatWritten(mem, r.mem, stat, if HoldsNull(t, fd) then FILETYPE_DIRECTORY else FILETYPE_REGULAR_FILE)
  {
    if !Allocated(t, fd) then Returned(EBADF, t, mem)
    else if !InBounds(mem, stat, 24) then Trapped
    else
      var filetype := if t[fd] == FakeDir then FILETYPE_DIRECTORY else FILETYPE_REGULAR_FILE;
      var m1 := Store(mem, stat, [filetype]);
      var m2 := Store(m1, stat + 2, [0, 0]);
      Returned(SUCCESS, t, Store(m2, stat + 8, seq(16, _ => 0)))
  }

  /**
    `(oflags & 1) ? 'w' : 'r'`: the low bit of the flags word, which is the
    low bit of its least significant byte as the guest stores it (`%` is
    Euclidean, so this is right for negative flags too).
   */
  predicate OpensForWriting(oflags: int)
    ensures OpensForWriting(oflags) <==> EncodeU32(oflags)[0] % 2 == 1
  {
    assert EncodeU32(oflags)[0] == ToUint32(oflags) % 256;
    oflags % 2 == 1
  }

  /**
    `path_open32`: `EBADF` unless the parent slot holds the fake directory.
    The path is a view of guest memory (a bad view traps). A host failure
    answers `EIO` with the table as it was. Otherwise the file takes the
    least free slot at position 0 with the host's size, and the slot number
    is stored at `openedFd`; that store is inside the `try`, so when it
    fails the answer is `EIO` and the slot stays taken.
   */
  function PathOpen(host: Host, t: Table, mem: Bytes, parentFd: int, dirflags: int, path: int, pathLen: int,
                    oflags: int, rightsBase: int, rightsInheriting: int, fdflags: int, openedFd: int): (r: Outcome)
    ensures !HoldsNull(t, parentFd) ==> r == Returned(EBADF, t, mem)
    ensures HoldsNull(t, parentFd) ==> (r.Trapped? <==> BufferView(mem, path, pathLen).None?)
    ensures HoldsNull(t, parentFd) && BufferView(mem, path, pathLen).Some? ==>
      var answer := host.open(BufferView(mem, path, pathLen).value, OpensForWriting(oflags));
      && (answer.None? ==> r == Returned(EIO, t, mem))
      && (answer.Some? ==>
           && r.Returned? && |r.mem| == |mem|
           && r.fds == t[NextFd(t) := File(answer.value.handle, 0, answer.value.size)]
           && (r.errno == SUCCESS <==> InBounds(mem, openedFd, 4))
           && (r.errno == SUCCESS ==> LoadU32(r.mem, openedFd) == ToUint32(NextFd(t)))
           && (r.errno != SUCCESS ==> r.errno == EIO && r.mem == mem))
    ensures r.Returned? ==> forall k | 0 <= k < |mem| && !(openedFd <= k < openedFd + 4) :: r.mem[k] == mem[k]
    ensures Wf(t) && r.Returned? ==> Wf(r.fds)
  {
    if !HoldsNull(t, parentFd) then Returned(EBADF, t, mem)
    else match BufferView(mem, path, pathLen)
      case None => Trapped
      case Some(name) =>
        match host.open(name, OpensForWriting(oflags))
        case None => Returned(EIO, t, mem)
        case Some(file) =>
          var fd := NextFd(t);
          var t2 := t[fd := File(file.handle, 0, file.size)];
          if InBounds(mem, openedFd, 4) then
            StoreLoadU32(mem, openedFd, fd);
            Returned(SUCCESS, t2, StoreU32(mem, openedFd, fd))
          else Returned(EIO, t2, mem)
  }

  /**
    `path_unlink_file`: `EBADF` unless the parent slot holds the fake
    directory; the path is a view of guest memory; the host deletes the
    file, and a failure answers `EIO`. The table and memory never change.
   */
  function PathUnlinkFile(host: Host, t: Table, mem: Bytes, parentFd: int, path: int, pathLen: int): (r: Outcome)
    ensures !HoldsNull(t, parentFd) ==> r == Returned(EBADF, t, mem)
    ensures HoldsNull(t, parentFd) ==> (r.Trapped? <==> BufferView(mem, path, pathLen).None?)
    ensures r.Returned? ==> r.fds == t && r.mem == mem
    ensures r.Returned? && HoldsNull(t, parentFd) ==>
      (r.errno == SUCCESS <==> host.unlink(BufferView(mem, path, pathLen).value)) && (r.errno == SUCCESS || r.errno == EIO)
  {
    if !HoldsNull(t, parentFd) then Returned(EBADF, t, mem)
    else match BufferView(mem, path, pathLen)
      case None => Trapped
      case Some(name) => if host.unlink(name) then Returned(SUCCESS, t, mem) else Returned(EIO, t, mem)
  }

  /**
    `args_sizes_get` and `environ_sizes_get` over the process's argument or
    environment strings: the count goes to `countAt` and the buffer size
    they need to `sizeAt`. Either store out of bounds traps.
   */
  function SizesGet(t: Table, mem: Bytes, strs: seq<Bytes>, countAt: int, sizeAt: int): (r: Outcome)
    ensures r.Trapped? <==> !(InBounds(mem, countAt, 4) && InBounds(mem, sizeAt, 4))
    ensures r.Returned? ==>
      && r.errno == SUCCESS && r.fds == t && |r.mem| == |mem|
      && LoadU32(r.mem, sizeAt) == ToUint32(Footprint(strs))
      && (Apart(countAt, 4, sizeAt, 4) ==> LoadU32(r.mem, countAt) == ToUint32(|strs|))
    ensures r.Returned? ==>
      forall k | 0 <= k < |mem| && !(countAt <= k < countAt + 4) && !(sizeAt <= k < sizeAt + 4) :: r.mem[k] == mem[k]
  {
    if InBounds(mem, countAt, 4) && InBounds(mem, sizeAt, 4) then
      Returned(SUCCESS, t, VectorSizes(mem, strs, countAt, sizeAt))
    else Trapped
  }

  /**
    `args_get` and `environ_get`: the fill loop over the strings. It traps
    unless every slot and every string with its NUL lies in memory. With the
    table and buffer apart, the guest reads every string back through its
    slot, and the memory is laid out as the fill loop promises: the pointer
    table, the strings with their NULs, and every other byte kept.
   */
  function VectorFill(t: Table, mem: Bytes, strs: seq<Bytes>, ptrsAt: int, bufAt: int): (r: Outcome)
    ensures r.Trapped? <==> exists i | 0 <= i < |strs| :: !AccessOk(mem, strs, ptrsAt, bufAt, i)
    ensures r.Returned? ==> r.errno == SUCCESS && r.fds == t && |r.mem| == |mem|
    ensures r.Returned? && |strs| == 0 ==> r.mem == mem
    ensures r.Returned? && |strs| > 0 && Separate(strs, ptrsAt, bufAt) ==> LaidOutUpTo(mem, r.mem, strs, ptrsAt, bufAt, |strs|)
    ensures r.Returned? && Separate(strs, ptrsAt, bufAt) && IsLinearMemory(mem) && (forall j | 0 <= j < |strs| :: NoNul(strs[j]))
      ==> ReadVector(r.mem, ptrsAt, |strs|) == Some(strs)
  {
    FitsEveryAccess(mem, strs, ptrsAt, bufAt);
    if Fits(mem, strs, ptrsAt, bufAt) then
      var r := VectorGet(mem, strs, ptrsAt, bufAt);
      if |strs| > 0 && Separate(strs, ptrsAt, bufAt) && IsLinearMemory(mem) && (forall j | 0 <= j < |strs| :: NoNul(strs[j])) then
        LaidOutReadsBack(mem, r, strs, ptrsAt, bufAt);
        Returned(SUCCESS, t, r)
      else Returned(SUCCESS, t, r)
    else Trapped
  }

  /**
    `fd_prestat_get`: descriptor 3 is the one preopened directory, with tag
    0 (`preopentype::dir`) and a name length of 0; any other descriptor is
    `EBADF`, whatever its slot holds. Either store out of bounds traps.
   */
  function FdPrestatGet(t: Table, mem: Bytes, fd: int, buf: int): (r: Outcome)
    ensures fd != FAKE_DIR_FD ==> r == Returned(EBADF, t, mem)
    ensures fd == FAKE_DIR_FD ==> (r.Trapped? <==> !InBounds(mem, buf, 8))
    ensures fd == FAKE_DIR_FD && r.Returned? ==>
      && r.errno == SUCCESS && r.fds == t && |r.mem| == |mem|
      && r.mem[buf] == 0 && LoadU32(r.mem, buf + 4) == 0
      && forall k | 0 <= k < |mem| && k != buf && !(buf + 4 <= k < buf + 8) :: r.mem[k] == mem[k]
  {
    if fd != FAKE_DIR_FD then Returned(EBADF, t, mem)
    else if !InBounds(mem, buf, 8) then Trapped
    else
      var m1 := Store(mem, buf, [0]);
      var m2 := StoreU32(m1, buf + 4, 0);
      StoreLoadU32(m1, buf + 4, 0);
      assert m2[buf] == m1[buf] == 0;
      Returned(SUCCESS, t, m2)
  }

  /** `fd_prestat_dir_name`: succeeds without writing the name. */
  function FdPrestatDirName(t: Table, mem: Bytes, fd: int, path: int, pathLen: int): (r: Outcome)
    ensures r == Returned(SUCCESS, t, mem)
  {
    Returned(SUCCESS, t, mem)
  }

  /** `path_remove_directory`: always `EINVAL`, nothing changes. */
  function PathRemoveDirectory(t: Table, mem: Bytes, parentFd: int, path: int, pathLen: int): (r: Outcome)
    ensures r == Returned(EINVAL, t, mem)
  {
    Returned(EINVAL, t, mem)
  }

  /** `fd_fdstat_set_flags`: always `ENOSYS`, nothing changes. */
  function FdFdstatSetFlags(t: Table, mem: Bytes, fd: int, flags: int): (r: Outcome)
    ensures r == Returned(ENOSYS, t, mem)
  {
    Returned(ENOSYS, t, mem)
  }

  /** A `whence` that `fd_seek32` knows. */
  predicate KnownWhence(whence: int) {
    whence == WHENCE_SET || whence == WHENCE_CUR || whence == WHENCE_END
  }

  /**
    The entry after `fds[fd].position` is set (whence 0), moved (1) or set
    to `fds[fd].size` (2). A std stream has no `size`, so whence 2 leaves its
    position `undefined`.
   */
  function Seek(e: Entry, offset: int, whence: int): (e2: Entry)
    requires !e.FakeDir? && KnownWhence(whence)
    ensures !e2.FakeDir? && e2.Std? == e.Std? && e2.handle == e.handle
    ensures e.File? ==> e2.size == e.size
    ensures whence == WHENCE_SET ==> PositionOf(e2) == At(offset)
    ensures whence == WHENCE_CUR ==> PositionOf(e2) == PosAdd(PositionOf(e), offset)
    ensures whence == WHENCE_END ==> PositionOf(e2) == if e.File? then At(e.size) else Undefined
  {
    match e
    case File(h, position, size) =>
      if whence == WHENCE_SET then File(h, offset, size)
      else if whence == WHENCE_CUR then File(h, position + offset, size)
      else File(h, size, size)
    case Std(h, cursor) =>
      if whence == WHENCE_SET then Std(h, At(offset))
      else if whence == WHENCE_CUR then Std(h, PosAdd(cursor, offset))
      else Std(h, Undefined)
  }

  /**
    `fd_seek32`: `EBADF` on a slot that is not truthy, `EINVAL` on an
    unknown whence (with nothing changed); otherwise the new position is
    stored at `newOffset` as a u32 (`undefined` and `NaN` store 0), and
    that store out of bounds traps.
   */
  function FdSeek(t: Table, mem: Bytes, fd: int, offset: int, whence: int, newOffset: int): (r: Outcome)
    ensures !Truthy(t, fd) ==> r == Returned(EBADF, t, mem)
    ensures Truthy(t, fd) && !KnownWhence(whence) ==> r == Returned(EINVAL, t, mem)
    ensures Truthy(t, fd) && KnownWhence(whence) ==>
      && (r.Trapped? <==> !InBounds(mem, newOffset, 4))
      && (r.Returned? ==>
           && r.errno == SUCCESS && |r.mem| == |mem|
           && SameOtherSlots(t, r.fds, fd) && r.fds[fd] == Seek(t[fd], offset, whence)
           && LoadU32(r.mem, newOffset) == PosToUint32(PositionOf(r.fds[fd]))
           && forall k | 0 <= k < |mem| && !(newOffset <= k < newOffset + 4) :: r.mem[k] == mem[k])
    ensures Wf(t) && r.Returned? ==> Wf(r.fds)
  {
    if !Truthy(t, fd) then Returned(EBADF, t, mem)
    else if !KnownWhence(whence) then Returned(EINVAL, t, mem)
    else
      var e := Seek(t[fd], offset, whence);
      if InBounds(mem, newOffset, 4) then
        var w := PosToUint32(PositionOf(e));
        StoreLoadU32(mem, newOffset, w);
        Returned(SUCCESS, t[fd := e], StoreU32(mem, newOffset, w))
      else Trapped
  }

  /** A table that moved only the truthy entry at `fd` is still well formed. */
  lemma WfAfterMove(t: Table, t2: Table, fd: int)
    requires Wf(t) && Truthy(t, fd) && Truthy(t2, fd) && SameOtherSlots(t, t2, fd)
    ensures Wf(t2)
  {
  }

  /**
    `fd_read`: `EBADF` on a slot that is not truthy. Otherwise the read
    loop runs; an `iovec` outside memory traps, a failed segment answers
    `EIO` with what earlier segments did kept, and on completion the total
    is stored at `nread` (a trap when that store is out of bounds).
    `transferred` is the running total the shim kept and `done` the number
    of segments that went through, the loop's `i` when it left: the call
    succeeds exactly when every segment went through, and otherwise stops
    at segment `done`, trapping if its `iovec` leaves memory and answering
    `EIO` if Node rejected its range or the host read threw. When no buffer
    overlaps the `iovec` array, a byte outside every segment's buffer
    changes only if it is one of the four at `nread` and the call succeeds.
   */
  method FdRead(host: Host, t: Table, mem: Bytes, fd: int, iovs: int, iovsLen: int, nread: int)
    returns (r: Outcome, transferred: int, done: nat, counts: seq<nat>)
    requires ReadsWithinRequest(host)
    ensures !Truthy(t, fd) ==> r == Returned(EBADF, t, mem) && done == 0
    ensures |counts| == done && transferred == Sum(counts)
    ensures Truthy(t, fd) && BuffersApart(mem, iovs, iovsLen) ==>
      && ReadCounts(host, t[fd], mem, iovs, counts)
      && transferred <= LensUpTo(mem, iovs, done)
    ensures Truthy(t, fd) ==> done <= Rounds(iovsLen) && IovecsIn(mem, iovs, done)
    ensures Truthy(t, fd) ==>
      (r.Trapped? <==> (done < Rounds(iovsLen) && !IovecIn(mem, iovs, done)) || (done == Rounds(iovsLen) && !InBounds(mem, nread, 4)))
    ensures Truthy(t, fd) && r.Returned? ==> (r.errno == SUCCESS <==> done == Rounds(iovsLen))
    ensures Truthy(t, fd) && r.Returned? && r.errno == EIO ==>
      Truthy(r.fds, fd) && IovecIn(mem, iovs, done) && !ReadAnswers(host, r.fds[fd], r.mem, iovs, done)
    ensures Truthy(t, fd) && iovsLen > 0 && IovecIn(mem, iovs, 0) && !ReadAnswers(host, t[fd], mem, iovs, 0) ==>
      r == Returned(EIO, t, mem)
    ensures r.Returned? ==> |r.mem| == |mem| && SameOtherSlots(t, r.fds, fd)
    ensures Truthy(t, fd) && r.Returned? ==>
      && Truthy(r.fds, fd) && Moved(t[fd], r.fds[fd], transferred)
      && r.fds[fd] == EntryBefore(t[fd], counts, done)
      && (r.errno == SUCCESS || r.errno == EIO)
    ensures Truthy(t, fd) && r.Returned? && r.errno == SUCCESS ==>
      InBounds(r.mem, nread, 4) && LoadU32(r.mem, nread) == ToUint32(transferred)
    ensures Truthy(t, fd) && iovsLen <= 0 ==>
      && (r.Trapped? <==> !InBounds(mem, nread, 4))
      && (r.Returned? ==> r.errno == SUCCESS && r.fds == t && transferred == 0)
    ensures Truthy(t, fd) && ReadsFully(host) && AllSegmentsOk(mem, iovs, iovsLen) && BuffersApart(mem, iovs, iovsLen)
      && InBounds(mem, nread, 4)
      ==> r.Returned? && r.errno == SUCCESS && transferred == LensUpTo(mem, iovs, Rounds(iovsLen))
    ensures Truthy(t, fd) && r.Returned? && r.errno == EIO && BuffersApart(mem, iovs, iovsLen) ==>
      forall k | 0 <= k < |mem| && Untouched(mem, iovs, Rounds(iovsLen), k) :: r.mem[k] == mem[k]
    ensures Truthy(t, fd) && r.Returned? && r.errno == SUCCESS && BuffersApart(mem, iovs, iovsLen) ==>
      forall k | 0 <= k < |mem| && Untouched(mem, iovs, Rounds(iovsLen), k) && !(nread <= k < nread + 4) :: r.mem[k] == mem[k]
    ensures Wf(t) && r.Returned? ==> Wf(r.fds)
  {
    if !Truthy(t, fd) {
      return Returned(EBADF, t, mem), 0, 0, [];
    }
    var tr := ReadLoop(host, t, fd, mem, iovs, iovsLen);
    transferred, done, counts := tr.total, tr.done, tr.counts;
    if BuffersApart(mem, iovs, iovsLen) {
      ReadCountsWithin(host, t[fd], mem, iovs, counts);
    }
    match tr.status
    case OutOfBounds =>
      r := Trapped;
    case HostError =>
      r := Returned(EIO, tr.fds, tr.mem);
    case Completed =>
      if InBounds(tr.mem, nread, 4) {
        StoreLoadU32(tr.mem, nread, tr.total);
        r := Returned(SUCCESS, tr.fds, StoreU32(tr.mem, nread, tr.total));
      } else {
        r := Trapped;
      }
    if Wf(t) && r.Returned? {
      WfAfterMove(t, r.fds, fd);
    }
  }

  /**
    `fd_write`: there is no slot check, so a slot that is free or holds the
    fake directory fails its first segment with `EIO` (the loop runs at
    least once) and succeeds with a count of 0 when there are no segments.
    Otherwise as `fd_read`, with memory only read: the call succeeds exactly
    when all `done` segments went through, and otherwise traps or answers
    `EIO` at segment `done`.
   */
  method FdWrite(host: Host, t: Table, mem: Bytes, fd: int, iovs: int, iovsLen: int, nwritten: int)
    returns (r: Outcome, transferred: int, done: nat, counts: seq<nat>)
    ensures done <= Rounds(iovsLen) && IovecsIn(mem, iovs, done)
    ensures |counts| == done && transferred == Sum(counts)
    ensures Truthy(t, fd) ==> WriteCounts(host, t[fd], mem, iovs, counts)
    ensures r.Trapped? <==> (done < Rounds(iovsLen) && !IovecIn(mem, iovs, done)) || (done == Rounds(iovsLen) && !InBounds(mem, nwritten, 4))
    ensures r.Returned? ==> (r.errno == SUCCESS <==> done == Rounds(iovsLen))
    ensures r.Returned? && r.errno == EIO ==> IovecIn(mem, iovs, done) && !WriteAnswers(host, r.fds, fd, mem, iovs, done)
    ensures iovsLen > 0 && IovecIn(mem, iovs, 0) && !WriteAnswers(host, t, fd, mem, iovs, 0) ==> r == Returned(EIO, t, mem)
    ensures r.Returned? ==> SameOtherSlots(t, r.fds, fd) && (r.errno == SUCCESS || r.errno == EIO)
    ensures r.Returned? && r.errno == EIO ==> r.mem == mem
    ensures r.Returned? && r.errno == SUCCESS ==>
      && InBounds(mem, nwritten, 4) && |r.mem| == |mem|
      && LoadU32(r.mem, nwritten) == ToUint32(transferred)
      && forall k | 0 <= k < |mem| && !(nwritten <= k < nwritten + 4) :: r.mem[k] == mem[k]
    ensures Truthy(t, fd) && r.Returned? ==>
      && Truthy(r.fds, fd) && Moved(t[fd], r.fds[fd], transferred)
      && r.fds[fd] == EntryBefore(t[fd], counts, done)
    ensures !Truthy(t, fd) && iovsLen > 0 ==>
      && (r.Trapped? <==> !InBounds(mem, iovs, 8))
      && (r.Returned? ==> r == Returned(EIO, t, mem))
    ensures iovsLen <= 0 ==>
      && (r.Trapped? <==> !InBounds(mem, nwritten, 4))
      && (r.Returned? ==> r.errno == SUCCESS && r.fds == t && transferred == 0)
    ensures Truthy(t, fd) && WritesFully(host) && AllSegmentsOk(mem, iovs, iovsLen) && InBounds(mem, nwritten, 4)
      ==> r.Returned? && r.errno == SUCCESS && transferred == LensUpTo(mem, iovs, Rounds(iovsLen))
    ensures Wf(t) && r.Returned? ==> Wf(r.fds)
  {
    var tr := WriteLoop(host, t, fd, mem, iovs, iovsLen);
    transferred, done, counts := tr.total, tr.done, tr.counts;
    match tr.status
    case OutOfBounds =>
      r := Trapped;
    case HostError =>
      r := Returned(EIO, tr.fds, mem);
    case Completed =>
      if InBounds(mem, nwritten, 4) {
        StoreLoadU32(mem, nwritten, tr.total);
        r := Returned(SUCCESS, tr.fds, StoreU32(mem, nwritten, tr.total));
      } else {
        r := Trapped;
      }
    if Wf(t) && r.Returned? && Truthy(t, fd) {
      WfAfterMove(t, r.fds, fd);
    }
  }

  /**
    `path_readlink`, which the module uses to run a shell command: any
    descriptor but -1 is `ENOSYS`. The command is a view of guest memory;
    the answer is the command's exit status, or 256 when there is none.
    `spawnSync` runs outside any `try`: Node rejects an empty command by
    throwing, and any other throw of the host aborts the instance too.
    The output buffer is never written.
   */
  function PathReadlink(host: Host, t: Table, mem: Bytes, fd: int, path: int, pathLen: int,
                        buf: int, bufLen: int, bufused: int): (r: Outcome)
    ensures fd != SHELL_FD ==> r == Returned(ENOSYS, t, mem)
    ensures fd == SHELL_FD ==>
      var view := BufferView(mem, path, pathLen);
      r.Trapped? <==> view.None? || |view.value| == 0 || host.shell(view.value).Threw?
    ensures r.Returned? ==> r.fds == t && r.mem == mem
    ensures fd == SHELL_FD && r.Returned? ==>
      var status := host.shell(BufferView(mem, path, pathLen).value).status;
      r.errno == if status.Some? then status.value else NO_EXIT_STATUS
  {
    if fd != SHELL_FD then Returned(ENOSYS, t, mem)
    else match BufferView(mem, path, pathLen)
      case None => Trapped
      case Some(command) =>
        if |command| == 0 then Trapped
        else match host.shell(command)
          case Threw => Trapped
          case Finished(None) => Returned(NO_EXIT_STATUS, t, mem)
          case Finished(Some(status)) => Returned(status, t, mem)
  }
}
