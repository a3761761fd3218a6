/**
  The numeric constants of the WASI snapshot-preview1 interface that the
  shim uses: the `errno` values it returns, the `filetype` codes it reports
  and the `whence` codes it accepts.
 */
module WasiTypes {

  /** `errno::success` */
  const SUCCESS: int := 0
  /** `errno::badf`: bad file descriptor */
  const EBADF: int := 8
  /** `errno::inval`: invalid argument */
  const EINVAL: int := 28
  /** `errno::io`: I/O error */
  const EIO: int := 29
  /** `errno::nosys`: function not supported */
  const ENOSYS: int := 52

  /**
    Not an errno: the status `path_readlink` returns when the shell child
    left no exit status (killed by a signal, or never started).
   */
  const NO_EXIT_STATUS: int := 256

  /** `filetype::directory` */
  const FILETYPE_DIRECTORY: int := 3
  /** `filetype::regular_file` */
  const FILETYPE_REGULAR_FILE: int := 4

  /** `whence::set`, `whence::cur`, `whence::end` */
  const WHENCE_SET: int := 0
  const WHENCE_CUR: int := 1
  const WHENCE_END: int := 2

  /** The descriptor value `path_readlink` reserves for running a shell command. */
  const SHELL_FD: int := -1

  /** The descriptor number of the single preopened (fake) directory. */
  const FAKE_DIR_FD: int := 3
}
