/**
  Properties of the descriptor table across several calls: how slots are
  handed out by `path_open32` and given back by `fd_close`, and that the
  fake directory at slot 3 can be neither closed nor replaced.
 */
module Lifecycle {
  import opened LinearMemory
  import opened WasiTypes
  import opened Descriptors
  import opened HostOs
  import opened Syscalls

  /** Freeing slot `k` makes it the least free slot exactly when it lies below the old one. */
  lemma NextFdAfterFree(t: Table, k: int)
    requires k in t && 0 <= k
    ensures NextFd(t - {k}) == if k < NextFd(t) then k else NextFd(t)
  {
    var f := NextFd(t);
    var u := t - {k};
    if k < f {
      NextFdIsLeastFree(u, k);
    } else {
      assert f != k;
      NextFdIsLeastFree(u, f);
    }
  }

  /** Taking the least free slot and freeing it again restores the table. */
  lemma TakeThenFree(t: Table, e: Entry)
    ensures t[NextFd(t) := e] - {NextFd(t)} == t
  {
    var k := NextFd(t);
    assert (t[k := e] - {k}).Keys == t.Keys;
  }

  /** A second `fd_close` of the same descriptor is `EBADF` and changes nothing. */
  lemma CloseTwice(host: Host, host2: Host, t: Table, mem: Bytes, fd: int)
    ensures var r := FdClose(host, t, mem, fd);
      FdClose(host2, r.fds, r.mem, fd) == Returned(EBADF, r.fds, r.mem)
  {
  }

  /** On a well-formed table the fake directory cannot be closed. */
  lemma FakeDirNotClosable(host: Host, t: Table, mem: Bytes)
    requires Wf(t)
    ensures FdClose(host, t, mem, FAKE_DIR_FD) == Returned(EBADF, t, mem)
  {
  }

  /** On a well-formed table only descriptor 3 may be the parent of `path_open32` and `path_unlink_file`. */
  lemma ParentMustBeFakeDir(host: Host, t: Table, mem: Bytes, parentFd: int, dirflags: int, path: int, pathLen: int,
                            oflags: int, rightsBase: int, rightsInheriting: int, fdflags: int, openedFd: int)
    requires Wf(t) && parentFd != FAKE_DIR_FD
    ensures PathOpen(host, t, mem, parentFd, dirflags, path, pathLen, oflags, rightsBase, rightsInheriting, fdflags, openedFd) == Returned(EBADF, t, mem)
    ensures PathUnlinkFile(host, t, mem, parentFd, path, pathLen) == Returned(EBADF, t, mem)
  {
    SlotTests(t, parentFd);
  }

  /** The conditions under which `path_open32` from descriptor 3 succeeds. */
  predicate OpenSucceeds(host: Host, mem: Bytes, path: int, pathLen: int, oflags: int, openedFd: int) {
    && BufferView(mem, path, pathLen).Some?
    && host.open(BufferView(mem, path, pathLen).value, OpensForWriting(oflags)).Some?
    && InBounds(mem, openedFd, 4)
  }

  /** The descriptor number a successful `path_open32` reports. */
  function OpenedFd(r: Outcome, openedFd: int): (fd: int)
    requires r.Returned? && InBounds(r.mem, openedFd, 4)
    ensures 0 <= fd < U32_RANGE
  {
    LoadU32(r.mem, openedFd)
  }

  /** At start-up the first file opened gets descriptor 4, reported at `openedFd`. */
  lemma FirstOpenIsFour(host: Host, mem: Bytes, dirflags: int, path: int, pathLen: int, oflags: int,
                        rightsBase: int, rightsInheriting: int, fdflags: int, openedFd: int)
    requires OpenSucceeds(host, mem, path, pathLen, oflags, openedFd)
    ensures var r := PathOpen(host, InitialTable, mem, FAKE_DIR_FD, dirflags, path, pathLen, oflags, rightsBase, rightsInheriting, fdflags, openedFd);
      && r.Returned? && r.errno == SUCCESS
      && OpenedFd(r, openedFd) == 4
      && r.fds[4].File? && r.fds[4].position == 0
  {
    NextFdIsLeastFree(InitialTable, 4);
  }

  /**
    Closing one of the std streams at start-up and then opening a file
    hands the stream's descriptor to the file.
   */
  lemma ClosedStreamIsReused(host: Host, host2: Host, mem: Bytes, k: int, dirflags: int, path: int, pathLen: int,
                             oflags: int, rightsBase: int, rightsInheriting: int, fdflags: int, openedFd: int)
    requires 0 <= k < 3
    requires OpenSucceeds(host2, mem, path, pathLen, oflags, openedFd)
    ensures var c := FdClose(host, InitialTable, mem, k);
      var r := PathOpen(host2, c.fds, c.mem, FAKE_DIR_FD, dirflags, path, pathLen, oflags, rightsBase, rightsInheriting, fdflags, openedFd);
      r.Returned? && r.errno == SUCCESS && OpenedFd(r, openedFd) == k && r.fds[k].File?
  {
    NextFdIsLeastFree(InitialTable, 4);
    NextFdAfterFree(InitialTable, k);
  }

  /**
    Closing the descriptor a successful `path_open32` reported gives back
    exactly the slot the open took. The reported number is the slot's
    number modulo 2^32, so the table must have fewer than 2^32 entries.
   */
  lemma OpenThenClose(host: Host, host2: Host, t: Table, mem: Bytes, dirflags: int,
                      path: int, pathLen: int, oflags: int, rightsBase: int, rightsInheriting: int,
                      fdflags: int, openedFd: int)
    requires Wf(t) && |t| < U32_RANGE
    requires OpenSucceeds(host, mem, path, pathLen, oflags, openedFd)
    ensures var r := PathOpen(host, t, mem, FAKE_DIR_FD, dirflags, path, pathLen, oflags, rightsBase, rightsInheriting, fdflags, openedFd);
      && r.Returned? && r.errno == SUCCESS
      && OpenedFd(r, openedFd) == NextFd(t)
      && FdClose(host2, r.fds, r.mem, OpenedFd(r, openedFd)).fds == t
  {
    var f := NextFd(t);
    var r := PathOpen(host, t, mem, FAKE_DIR_FD, dirflags, path, pathLen, oflags, rightsBase, rightsInheriting, fdflags, openedFd);
    NextFdBound(t);
    assert OpenedFd(r, openedFd) == f;
    TakeThenFree(t, r.fds[f]);
  }

  /** Opening a file, closing it and opening again hands out the same descriptor. */
  lemma OpenCloseOpen(host: Host, host2: Host, host3: Host, t: Table, mem: Bytes, dirflags: int,
                      path: int, pathLen: int, oflags: int, rightsBase: int, rightsInheriting: int,
                      fdflags: int, openedFd: int,
                      path2: int, pathLen2: int, oflags2: int, openedFd2: int)
    requires Wf(t) && |t| < U32_RANGE
    requires OpenSucceeds(host, mem, path, pathLen, oflags, openedFd)
    ensures var r1 := PathOpen(host, t, mem, FAKE_DIR_FD, dirflags, path, pathLen, oflags, rightsBase, rightsInheriting, fdflags, openedFd);
      && r1.Returned?
      && var c := FdClose(host2, r1.fds, r1.mem, OpenedFd(r1, openedFd));
         OpenSucceeds(host3, c.mem, path2, pathLen2, oflags2, openedFd2) ==>
           var r2 := PathOpen(host3, c.fds, c.mem, FAKE_DIR_FD, dirflags, path2, pathLen2, oflags2, rightsBase, rightsInheriting, fdflags, openedFd2);
           r2.Returned? && r2.errno == SUCCESS && OpenedFd(r2, openedFd2) == OpenedFd(r1, openedFd)
  {
    OpenThenClose(host, host2, t, mem, dirflags, path, pathLen, oflags, rightsBase, rightsInheriting, fdflags, openedFd);
    NextFdBound(t);
  }
}
