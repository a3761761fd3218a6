/**
  The `wasi` import object as a whole: a call names one of its functions
  with that function's arguments, and the dispatcher runs the handler on
  the process's descriptor table and linear memory.
 */
module Dispatch {
  import opened LinearMemory
  import opened WasiTypes
  import opened Descriptors
  import opened HostOs
  import Syscalls

  /** The strings the shim captured at start-up: `process.argv` from index 1, and `KEY=value` per variable. */
  datatype Process = Process(args: seq<Bytes>, env: seq<Bytes>)

  /** One call from the module into `wasi_snapshot_preview1`, with the arguments the shim receives. */
  datatype Call =
    | FdClose(fd: int)
    | FdFdstatGet(fd: int, stat: int)
    | PathOpen32(parentFd: int, dirflags: int, path: int, pathLen: int, oflags: int,
                 rightsBase: int, rightsInheriting: int, fdflags: int, openedFd: int)
    | PathUnlinkFile(parentFd: int, path: int, pathLen: int)
    | ArgsSizesGet(argc: int, argvBufSize: int)
    | ArgsGet(argv: int, argvBuf: int)
    | FdPrestatGet(fd: int, buf: int)
    | FdPrestatDirName(fd: int, path: int, pathLen: int)
    | PathRemoveDirectory(parentFd: int, path: int, pathLen: int)
    | EnvironSizesGet(environc: int, environBufSize: int)
    | EnvironGet(environ: int, environBuf: int)
    | FdFdstatSetFlags(fd: int, flags: int)
    | FdSeek32(fd: int, offset: int, whence: int, newOffset: int)
    | FdRead(fd: int, iovs: int, iovsLen: int, nread: int)
    | FdWrite(fd: int, iovs: int, iovsLen: int, nwritten: int)
    | PathReadlink(fd: int, path: int, pathLen: int, buf: int, bufLen: int, bufused: int)

  /** The calls that can change the descriptor table. */
  predicate ChangesTable(c: Call) {
    c.FdClose? || c.PathOpen32? || c.FdSeek32? || c.FdRead? || c.FdWrite?
  }

  /** The calls that can store into linear memory. */
  predicate WritesMemory(c: Call) {
    || c.FdFdstatGet? || c.PathOpen32? || c.ArgsSizesGet? || c.ArgsGet? || c.FdPrestatGet?
    || c.EnvironSizesGet? || c.EnvironGet? || c.FdSeek32? || c.FdRead? || c.FdWrite?
  }

  /** The `errno` values the shim answers with; a shell command's exit status is the one other answer. */
  predicate KnownErrno(e: int) {
    e == SUCCESS || e == EBADF || e == EINVAL || e == EIO || e == ENOSYS
  }

  /** Runs call `c` through its handler. */
  method Dispatch(host: Host, p: Process, t: Table, mem: Bytes, c: Call) returns (r: Syscalls.Outcome)
    requires ReadsWithinRequest(host)
    ensures r.Returned? ==> |r.mem| == |mem|
    ensures Wf(t) && r.Returned? ==> Wf(r.fds)
    ensures !ChangesTable(c) && r.Returned? ==> r.fds == t
    ensures !WritesMemory(c) && r.Returned? ==> r.mem == mem
    ensures r.Returned? && !(c.PathReadlink? && c.fd == SHELL_FD) ==> KnownErrno(r.errno)
  {
    match c
    case FdClose(fd) =>
      r := Syscalls.FdClose(host, t, mem, fd);
    case FdFdstatGet(fd, stat) =>
      r := Syscalls.FdFdstatGet(t, mem, fd, stat);
    case PathOpen32(parentFd, dirflags, path, pathLen, oflags, rightsBase, rightsInheriting, fdflags, openedFd) =>
      r := Syscalls.PathOpen(host, t, mem, parentFd, dirflags, path, pathLen, oflags, rightsBase, rightsInheriting, fdflags, openedFd);
    case PathUnlinkFile(parentFd, path, pathLen) =>
      r := Syscalls.PathUnlinkFile(host, t, mem, parentFd, path, pathLen);
    case ArgsSizesGet(argc, argvBufSize) =>
      r := Syscalls.SizesGet(t, mem, p.args, argc, argvBufSize);
    case ArgsGet(argv, argvBuf) =>
      r := Syscalls.VectorFill(t, mem, p.args, argv, argvBuf);
    case FdPrestatGet(fd, buf) =>
      r := Syscalls.FdPrestatGet(t, mem, fd, buf);
    case FdPrestatDirName(fd, path, pathLen) =>
      r := Syscalls.FdPrestatDirName(t, mem, fd, path, pathLen);
    case PathRemoveDirectory(parentFd, path, pathLen) =>
      r := Syscalls.PathRemoveDirectory(t, mem, parentFd, path, pathLen);
    case EnvironSizesGet(environc, environBufSize) =>
      r := Syscalls.SizesGet(t, mem, p.env, environc, environBufSize);
    case EnvironGet(environ, environBuf) =>
      r := Syscalls.VectorFill(t, mem, p.env, environ, environBuf);
    case FdFdstatSetFlags(fd, flags) =>
      r := Syscalls.FdFdstatSetFlags(t, mem, fd, flags);
    case FdSeek32(fd, offset, whence, newOffset) =>
      r := Syscalls.FdSeek(t, mem, fd, offset, whence, newOffset);
    case FdRead(fd, iovs, iovsLen, nread) =>
      var count, done, counts;
      r, count, done, counts := Syscalls.FdRead(host, t, mem, fd, iovs, iovsLen, nread);
    case FdWrite(fd, iovs, iovsLen, nwritten) =>
      var count, done, counts;
      r, count, done, counts := Syscalls.FdWrite(host, t, mem, fd, iovs, iovsLen, nwritten);
    case PathReadlink(fd, path, pathLen, buf, bufLen, bufused) =>
      r := Syscalls.PathReadlink(host, t, mem, fd, path, pathLen, buf, bufLen, bufused);
  }
}
