/**
  The host operations the shim calls, as oracles: each takes exactly the
  request the shim makes and answers with what the call returned, or
  `None` when it threw. They stand for `fs.openSync` followed by
  `fs.fstatSync`, `fs.closeSync`, `fs.unlinkSync`, `fs.readSync`,
  `fs.writeSync` and `child_process.spawnSync` with a shell.
 */
module HostOs {
  import opened Wrappers
  import opened LinearMemory
  import opened Descriptors

  /** What opening and stat-ing a file yields: the host descriptor and the file's size. */
  datatype Opened = Opened(handle: int, size: nat)

  /** What `spawnSync` does with a command: throw, or finish with its exit status (`None` for a `null` status). */
  datatype Spawn = Threw | Finished(status: Option<int>)

  datatype Host = Host(
    /** Open `path` for writing (`'w'`) or reading (`'r'`). */
    open: (Bytes, bool) -> Option<Opened>,
    /** Close a host descriptor; false when it threw. */
    close: int -> bool,
    /** Delete the file at `path`; false when it threw. */
    unlink: Bytes -> bool,
    /** Read up to `len` bytes from a host descriptor at a position; the bytes read. */
    read: (int, Pos, int) -> Option<Bytes>,
    /** Write bytes to a host descriptor at a position; the count written. */
    write: (int, Pos, Bytes) -> Option<nat>,
    /** Run a shell command. */
    shell: Bytes -> Spawn)

  /** A read never yields more bytes than were asked for. */
  ghost predicate ReadsWithinRequest(host: Host) {
    forall h, p, len | 0 <= len :: host.read(h, p, len).Some? ==> |host.read(h, p, len).value| <= len
  }
}
