# gltfpack's WASI shim, in Dafny

`gltf/bin/gltfpack.js` runs the gltfpack WebAssembly module under Node and
supplies its `wasi_snapshot_preview1` imports itself: a small object of host
functions over a JavaScript descriptor table (`fds`) and the module's linear
memory. This project models that object as pure Dafny and proves what each
host function does to the table and to memory.

What is modelled:

- **Descriptor table** (`Descriptors`). The table is a `map<int, Entry>` with
  three entry kinds: a std stream `{fd}`, the fake preopened directory
  stored as `null` at slot 3, and an open file `{fd, position, size}`. The
  source tests a slot in three different ways: `!fds[fd]`,
  `fds[fd] === undefined` and `fds[fd] === null`. These become `Truthy`,
  `Allocated` and `HoldsNull`. `nextFd` is `NextFd`, the least free
  non-negative slot. A std stream's `position` is `undefined`, becomes `NaN`
  after arithmetic, or holds a number after a seek; this is the `Pos` type.
- **Linear memory** (`LinearMemory`). Memory is a byte sequence, read and
  written through `DataView` loads and stores (little-endian). `Buffer.from`
  is modelled with Node's range rules, and NUL-terminated strings are read
  back the way the guest reads them.
- **Argument and environment vectors** (`Vectors`). The sizes call stores
  the count and the NUL-terminated byte total. The fill loop stores a u32
  pointer per string, then the string and a 0 byte at a running cursor.
- **Scatter/gather loops** of `fd_read` and `fd_write` (`Streams`). Each
  loop loads an `iovec` per round, calls the host at the entry's current
  position, moves the position and sums the counts. The loop stops at the
  first segment that does not go through: with a trap when its `iovec`
  leaves memory, and with `EIO` when Node rejects its range or the host
  call throws, keeping what earlier rounds did. `FdRead` and `FdWrite` also
  return `done`, the number of segments that went through (the loop's `i`
  when it left), so that their contracts can say where a failure happened,
  and `counts`, the count the host reported for each of those segments. The
  reported total is the sum of the counts. Segment `j` is asked at the
  position the earlier counts left (`EntryBefore`), and its count is the
  host's answer there.
- **Host functions** (`Syscalls`). There is one function or method per
  export, returning `Returned(errno, table, memory)` or `Trapped`.
  `Trapped` means a memory access outside any `try` threw out of the host
  function, which aborts the instance.
- **The import object as a whole** (`Dispatch`). `Dispatch` takes a call
  with its arguments and runs the matching handler.
- **Properties across calls** (`Lifecycle`): how slots are taken, freed and
  reused.

The host operations (`fs.openSync` with `fs.fstatSync`, `closeSync`,
`unlinkSync`, `readSync`, `writeSync`, and `child_process.spawnSync`) are
oracle functions in a `Host` record. Each one answers for exactly the
request the shim makes. For open, read and write, `None` stands for
"threw"; close and unlink answer `false` when they threw; the shell answers
`Threw` or `Finished` with an exit status that may be `null`. The argument and
environment strings are an immutable `Process` parameter of `Dispatch`,
already UTF-8 encoded.

Points where the code behaves differently from what a reader of WASI might
expect, and which the model follows exactly:

- `fd_fdstat_get` reports std streams as regular files (4), not as
  directories.
- `fd_seek32`, `fd_read` and `fd_close` reject slot 3, because `!fds[3]`
  is true for `null`.
- `fd_write` has no slot check. An `undefined` or `null` slot fails its
  first segment with `EIO` inside the `try`, and with no segments the call
  succeeds with a count of 0.
- An out-of-range guest address is not turned into `EIO`; a `DataView`
  access outside a `try` throws, so the model says `Trapped`. The one
  store inside a `try` is `opened_fd` in `path_open32`. When that store
  fails, the answer is `EIO` and the new slot stays taken.

## Model

| member | source | states |
|---|---|---|
| Descriptors.InitialTableWf | gltf/bin/gltfpack.js:15-20 | the start-up table keeps the invariant (the fake directory is at 3 and only there, and every slot is non-negative), and exactly slots 0, 1 and 2 are truthy |
| Descriptors.SlotTests | gltf/bin/gltfpack.js:15-20 | on a table keeping that invariant, `=== null` holds exactly at slot 3; `!!fds[fd]` is "allocated and not slot 3"; slot 3 is allocated but falsy |
| Descriptors.NextFd | gltf/bin/gltfpack.js:25-31 | the slot `nextFd` returns is `undefined` and every smaller non-negative slot is taken |
| Descriptors.NextFdIsLeastFree | gltf/bin/gltfpack.js:25-31 | a slot is the one `nextFd` returns if and only if it is free and every smaller slot is taken |
| Descriptors.NextFdBound | gltf/bin/gltfpack.js:25-31 | the scan stops after at most one probe more than the table has entries |
| Descriptors.NextFdNotFakeDir | gltf/bin/gltfpack.js:25-31 | on a table keeping the invariant, `nextFd` never returns 3 |
| Descriptors.PosAdd | gltf/bin/gltfpack.js:209 | `position += offset` yields a number exactly when the position was a number, differing by the offset; `undefined` and `NaN` give `NaN` |
| Descriptors.PosToUint32 | gltf/bin/gltfpack.js:220 | storing a position with `setUint32` stores it modulo 2^32; `undefined` and `NaN` store 0 |
| Descriptors.PositionOf | gltf/bin/gltfpack.js:237 | the position handed to the host is a file's own number, or whatever a std stream's `position` holds (`undefined`, `NaN` or a number) |
| Descriptors.Advance | gltf/bin/gltfpack.js:239 | advancing an entry keeps its kind, handle and size and moves its position by the count |
| Lifecycle.NextFdAfterFree | gltf/bin/gltfpack.js:25-31 | after slot k is freed, `nextFd` returns k if k was below the old answer, else the old answer |
| Lifecycle.TakeThenFree | gltf/bin/gltfpack.js:25-31 | taking the slot `nextFd` returns and freeing it again gives back the same table |
| LinearMemory.ToUint32 | gltf/bin/gltfpack.js:85 | the value `setUint32` stores lies in [0, 2^32), differs from the input by a multiple of 2^32, and is the input itself when that already fits |
| LinearMemory.DecodeEncodeLE | gltf/bin/gltfpack.js:85 | decoding the n little-endian bytes of a value below 256^n gives the value back |
| LinearMemory.EncodeDecodeLE | gltf/bin/gltfpack.js:233-234 | every byte run is the encoding of the value it decodes to |
| LinearMemory.StoreLoadU32 | gltf/bin/gltfpack.js:85 | a `getUint32` at the address of a `setUint32` reads back the stored value modulo 2^32 |
| LinearMemory.StoreU32 | gltf/bin/gltfpack.js:85 | `setUint32(addr, v, true)` writes the four little-endian bytes of ToUint32(v) at the address and keeps every other byte and the length (also lines 116-117, 130, 220, 246, 268) |
| LinearMemory.LoadU32 | gltf/bin/gltfpack.js:233-234 | `getUint32(addr, true)` reads a value in [0, 2^32) |
| LinearMemory.LoadU32Encodes | gltf/bin/gltfpack.js:233-234 | the four bytes a `getUint32` reads are exactly the `setUint32` encoding of the value it returns, so loads and stores are inverse on every byte run |
| LinearMemory.LoadU32Disjoint | gltf/bin/gltfpack.js:116-117 | a store leaves every u32 it does not overlap readable as before |
| LinearMemory.Store | gltf/bin/gltfpack.js:59-64 | a store writes its bytes at the address, keeps every other byte and keeps the length |
| LinearMemory.BufferView | gltf/bin/gltfpack.js:75 | `Buffer.from(buffer, offset, length)` throws exactly for a negative offset, an offset past the end, or a positive length running past the end; otherwise it gives the `max(length, 0)` bytes at the offset |
| LinearMemory.ReadCString | gltf/bin/gltfpack.js:130-132 | a C-string read gives bytes without NUL that sit at the address followed by a 0, or fails only when no 0 follows |
| LinearMemory.ReadCStringRecovers | gltf/bin/gltfpack.js:130-132 | a string without NUL, laid out with a 0 after it, is read back exactly |
| Vectors.Offset | gltf/bin/gltfpack.js:125-134 | the cursor `argp` before string i lies at least i bytes past `argv_buf`, one NUL per earlier string |
| Vectors.OffsetIsTotal | gltf/bin/gltfpack.js:125-134 | the cursor before string i is the sum, over the strings before it, of their byte length plus one |
| Vectors.Footprint | gltf/bin/gltfpack.js:111-114 | `buf_size` is the sum over all strings of their byte length plus one, summed from the first string on, so at least one byte per string |
| Vectors.OffsetWithin | gltf/bin/gltfpack.js:111-114 | each string's offset plus its length and NUL is the next offset, and never exceeds the reported total size |
| Vectors.OffsetMonotone | gltf/bin/gltfpack.js:134 | the cursor `argp` never moves backwards |
| Vectors.VectorSizes | gltf/bin/gltfpack.js:108-119 | the size slot reads back as the NUL-terminated byte total modulo 2^32; the count slot reads back as the count when the two slots do not overlap; nothing else changes (also `environ_sizes_get`, lines 160-171) |
| Vectors.VectorSizesWritten | gltf/bin/gltfpack.js:116-117 | every byte after the sizes call: the size slot wins where the two slots overlap, then the count slot, else memory as before |
| Vectors.FitsEveryAccess | gltf/bin/gltfpack.js:127-135 | the two ranges (table and buffer) lie in memory if and only if every pointer slot and every string with its NUL lies in memory |
| Vectors.FillStep | gltf/bin/gltfpack.js:130-132 | one round writes string i and a NUL at the cursor, writes the cursor's encoding in slot i, and keeps every other byte |
| Vectors.Fill | gltf/bin/gltfpack.js:127-135 | after i rounds, with table and buffer apart, the first i slots hold the pointer table, the first Offset(i) buffer bytes hold the strings, and the rest is untouched |
| Vectors.VectorGet | gltf/bin/gltfpack.js:121-138 | the fill call keeps memory's length, is the identity on no strings, and lays out table and strings when the two are apart (also `environ_get`, lines 173-190) |
| Vectors.PointerTableHolds | gltf/bin/gltfpack.js:130 | slot j of the pointer table is the encoding of `argv_buf` plus the bytes before string j |
| Vectors.BlobHolds | gltf/bin/gltfpack.js:131-132 | string j and a NUL sit at its offset in the string buffer |
| Vectors.ReadSlot | gltf/bin/gltfpack.js:127-135 | in a laid-out memory, slot j loads as the address of string j, and a C-string read there gives string j |
| Vectors.VectorGetRoundTrip | gltf/bin/gltfpack.js:121-138 | after the fill call, slot j holds `argv_buf + Σ_{k<j}(len_k + 1)` and the guest reads string j back from it |
| Vectors.VectorGetReadBack | gltf/bin/gltfpack.js:121-138 | after the fill call, the guest's reading of the whole vector is the original string list, in order |
| Vectors.LaidOutReadsBack | gltf/bin/gltfpack.js:121-138 | any laid-out memory reads back as the string list |
| Vectors.VectorGetIdempotent | gltf/bin/gltfpack.js:121-138 | a second fill call changes nothing |
| Vectors.SizesGetCommute | gltf/bin/gltfpack.js:108-138 | with the size slots outside table and buffer, the sizes call and the fill call commute, so a fill without a sizes call first writes the same vector |
| Syscalls.FdClose | gltf/bin/gltfpack.js:38-51 | `EBADF` exactly for a falsy slot, with nothing changed; otherwise the slot is freed, every other slot is kept, and the answer is 0 if and only if the host close succeeded, else `EIO`; memory is never written; the table invariant is kept |
| Lifecycle.CloseTwice | gltf/bin/gltfpack.js:38-51 | a second close of the same id is `EBADF` and changes nothing |
| Lifecycle.FakeDirNotClosable | gltf/bin/gltfpack.js:38-41 | closing slot 3 is `EBADF` and changes nothing |
| Syscalls.FdFdstatGet | gltf/bin/gltfpack.js:53-66 | `EBADF` exactly for an `undefined` slot; otherwise a trap exactly when the 24 bytes at `stat` leave memory; on success the filetype byte is 3 for slot 3 and 4 for any other entry, bytes 2-3 and 8-23 are zero, and no other byte changes |
| Syscalls.PathOpen | gltf/bin/gltfpack.js:68-90 | `EBADF` unless the parent slot is `null`, with nothing changed; a trap exactly when the path view throws; host failure is `EIO` with nothing changed; otherwise the least free slot gets a file at position 0 with the host's size, and the answer is 0 exactly when `opened_fd` is in memory, where the slot number then reads back; only those 4 bytes change; the table invariant is kept |
| Syscalls.OpensForWriting | gltf/bin/gltfpack.js:76 | the file is opened for writing exactly when the low bit of the flags word's least significant byte is set, whatever the sign or width of the argument |
| Lifecycle.ParentMustBeFakeDir | gltf/bin/gltfpack.js:68-71 | on a table keeping the invariant, any parent but 3 makes `path_open32` and `path_unlink_file` answer `EBADF` with nothing changed |
| Lifecycle.FirstOpenIsFour | gltf/bin/gltfpack.js:68-90 | the first successful open after start-up reports descriptor 4, a file at position 0 |
| Lifecycle.ClosedStreamIsReused | gltf/bin/gltfpack.js:38-90 | after closing std stream k at start-up, the next successful open reports k |
| Lifecycle.OpenThenClose | gltf/bin/gltfpack.js:38-90 | closing the descriptor a successful open reported restores the table exactly |
| Lifecycle.OpenCloseOpen | gltf/bin/gltfpack.js:38-90 | open, close, open: the second open reports the same descriptor as the first |
| Syscalls.PathUnlinkFile | gltf/bin/gltfpack.js:92-106 | `EBADF` unless the parent slot is `null`; a trap exactly when the path view throws; 0 if and only if the host unlink succeeded, else `EIO`; table and memory never change |
| Syscalls.SizesGet | gltf/bin/gltfpack.js:108-119 | a trap exactly when either slot leaves memory; otherwise 0 with the count and byte total stored and every byte outside the two slots unchanged (also `environ_sizes_get`, lines 160-171) |
| Syscalls.VectorFill | gltf/bin/gltfpack.js:121-138 | a trap exactly when some slot, or some string with its NUL, leaves memory; otherwise 0 with memory unchanged when there are no strings, and with table and buffer apart the pointer table and the strings laid out, every other byte kept, and the original strings read back in order (also `environ_get`, lines 173-190) |
| Syscalls.FdPrestatGet | gltf/bin/gltfpack.js:140-150 | `EBADF` for any descriptor but 3, whatever the table holds; for 3, a trap exactly when the 8 bytes at `buf` leave memory, else tag 0 and a name length of 0 with no other byte changed |
| Syscalls.FdPrestatDirName | gltf/bin/gltfpack.js:152-154 | always 0, nothing changes |
| Syscalls.PathRemoveDirectory | gltf/bin/gltfpack.js:156-158 | always `EINVAL`, nothing changes |
| Syscalls.FdFdstatSetFlags | gltf/bin/gltfpack.js:192-194 | always `ENOSYS`, nothing changes |
| Syscalls.Seek | gltf/bin/gltfpack.js:203-218 | whence 0 sets the position to the offset, 1 adds the offset, 2 sets it to the recorded size and ignores the offset (`undefined` for a std stream); kind, handle and size are kept |
| Syscalls.FdSeek | gltf/bin/gltfpack.js:196-222 | `EBADF` on a falsy slot, then `EINVAL` on an unknown whence, both with nothing changed; otherwise a trap exactly when `newoffset` leaves memory, else only that slot moves and the new position reads back as a u32 at `newoffset`, with no other byte changed |
| Streams.IovecAt | gltf/bin/gltfpack.js:233-234 | an `iovec` is the u32 at +0 (buffer) and the u32 at +4 (length) |
| Streams.AdvanceTwice | gltf/bin/gltfpack.js:239-240 | two position advances are one advance by the sum |
| Streams.ReadSegment | gltf/bin/gltfpack.js:233-243 | a trap exactly when the `iovec` leaves memory; `EIO` when Node rejects the range or the host read throws; the segment goes on exactly when it goes through; then the host's bytes (no more than asked) land at the buffer, nothing else changes and the position moves by their count |
| Streams.ReadRound | gltf/bin/gltfpack.js:232-244 | a round stops with the state unchanged, reporting a trap exactly when its `iovec` leaves memory, or goes on exactly when the segment goes through; then it adds to the total exactly the number of bytes the host returned for that segment at the entry's position, moves the entry by that number, and keeps the loop invariant and the tally of counts |
| Streams.ReadLoop | gltf/bin/gltfpack.js:229-244 | the loop completes exactly when every segment went through, and otherwise stops at the first that did not: a trap exactly when its `iovec` leaves memory, else `EIO` with Node's rejection or the host's failure at that segment; every `iovec` before it lies in memory, and a failure at the first segment leaves table and memory as they were; the slot moves by exactly the running total; there is one count per segment that went through, the total is their sum and the slot ends at the entry advanced by that sum; with buffers outside the `iovec` array, every count is the host's answer for its segment at the position the earlier counts left, only bytes inside some segment's buffer change, and if the host also fills every request the loop completes with the sum of the lengths |
| Streams.ReadFrameStep | gltf/bin/gltfpack.js:236-237 | a read of at most the segment's length into its buffer keeps the later `iovec`s and every byte outside the buffers read so far |
| Streams.EntryAfterSnoc | gltf/bin/gltfpack.js:239-240 | after one more segment, the entry is the one the segment found advanced by the segment's count, so the position always equals the start advanced by the sum of the counts |
| Streams.EntriesBeforeKept | gltf/bin/gltfpack.js:239-240 | a later segment's count does not change the position any earlier segment was asked at |
| Streams.ReadCountsWithin | gltf/bin/gltfpack.js:237-240 | counts that are the host's answers to reads of at most the requested length sum to at most the total length requested |
| Streams.FullHostIsFull | gltf/bin/gltfpack.js:237 | a host that fills every read request and writes every byte exists, and it returns no more than asked |
| Syscalls.FdRead | gltf/bin/gltfpack.js:224-248 | `EBADF` on a falsy slot; otherwise 0 exactly when every segment went through and `nread` is in memory, a trap exactly when the first segment that did not go through has its `iovec` outside memory or `nread` is outside memory after all went through, and `EIO` when Node rejected the range or the host read threw at that segment; a failure at the first segment is `EIO` with nothing changed; only the slot at `fd` moves, by the reported total, which reads back at `nread` on success; the total is the sum of one count per segment that went through, and the slot ends at the entry advanced by them; with buffers apart from the `iovec` array, every count is the host's answer for its segment at the position the earlier counts left, the total is at most the sum of the lengths asked for, and a byte outside every buffer is unchanged on `EIO` and changes on success only if it is one of the four at `nread`; if the host also fills every request and `nread` is in memory, the answer is 0 with the sum of the lengths |
| Streams.WriteSegment | gltf/bin/gltfpack.js:255-265 | a trap exactly when the `iovec` leaves memory; `EIO` for an `undefined` or `null` slot, a rejected range, or a throwing host; the segment goes on exactly when it goes through; then the host gets exactly the segment's bytes and the position moves by the count it reports |
| Streams.WriteRound | gltf/bin/gltfpack.js:254-266 | a round stops with the state unchanged, reporting a trap exactly when its `iovec` leaves memory, or goes on exactly when the segment goes through; then it adds to the total exactly the count the host reported for the segment's bytes at the entry's position, moves the entry by that count, and keeps the loop invariant and the tally of counts; on a falsy slot the first round always stops |
| Streams.WriteLoop | gltf/bin/gltfpack.js:251-266 | memory is never written; the loop completes exactly when every segment went through, and otherwise stops at the first that did not, with a trap exactly when its `iovec` leaves memory and `EIO` otherwise; a failure at the first segment leaves the table as it was; there is one count per segment that went through, the total is their sum, and on a truthy slot each count is the host's answer for its segment at the position the earlier counts left and the slot ends advanced by the sum; on a falsy slot the loop fails if and only if there is a segment; with a host that writes everything the count is the sum of the lengths |
| Syscalls.FdWrite | gltf/bin/gltfpack.js:250-270 | with no slot check: 0 exactly when every segment went through and `nwritten` is in memory, a trap exactly when the first segment that did not go through has its `iovec` outside memory or `nwritten` is outside memory after all went through, and `EIO` when the slot is falsy, Node rejected the range or the host write threw at that segment; a failure at the first segment is `EIO` with nothing changed; only the count at `nwritten` is stored; the total is the sum of one count per segment that went through, each the host's answer for its segment at the position the earlier counts left, and the slot ends advanced by that sum; with a host that writes everything the count is the sum of the lengths |
| Syscalls.PathReadlink | gltf/bin/gltfpack.js:272-282 | `ENOSYS` for any descriptor but -1; a trap exactly when the command view throws, the command is empty (Node rejects it) or the host's `spawnSync` throws; otherwise the command's exit status, or 256 when there is none; table and memory never change |
| Dispatch.Dispatch | gltf/bin/gltfpack.js:33-283 | every handler keeps memory's length and the table invariant; calls that cannot touch the table or memory leave them unchanged; every answer is one of 0, `EBADF`, `EINVAL`, `EIO`, `ENOSYS`, except the shell command's status |

## Left out

- `proc_exit` (`process.exit`) ends the host process; the model has no process to end.
- Loading and instantiating the module, `_start`, and the `getHeap` re-fetch are start-up plumbing. Memory is passed to every call as the current byte sequence, so memory growth between calls needs no modelling.
- Capturing `process.argv.slice(1)` and `process.env` as `KEY=value` strings, and their UTF-8 encoding by `Buffer.from`, are not modelled. The strings arrive already encoded in `Process`.
- The UTF-8 decoding of paths and commands (`toString('utf-8')`) is left out; the host oracles receive the raw bytes.
- Real file system and child process effects are oracle answers in `Host`. Node's own checks of `readSync`/`writeSync` arguments are modelled only as the range check on the segment.
- Node's `readSync`/`writeSync` shortcut for a zero-length request is left out; the host oracle is asked for it like any other segment.
- JavaScript numbers are unbounded integers here. Positions and totals above 2^53, where doubles lose precision, are not modelled.
- Guest pointers arrive as the wasm `i32` values JavaScript sees; a negative address simply fails the bounds test, as in a `DataView`.
- `args_get`/`environ_get` copy each string with `item.copy` and then store the NUL with `setUint8`. The model writes the string and its NUL as one store. The two differ only when the NUL store traps, and then the partial copy no longer matters.
- Syscalls.FdRead, Dispatch.Dispatch: both require a host whose reads never return more bytes than asked for (`ReadsWithinRequest`), which Node's `readSync` guarantees.
- Syscalls.FdRead, Streams.ReadLoop: each count is tied to the host's answer for its segment only when no buffer overlaps the `iovec` array. When one does, a read rewrites later `iovec`s, so the length a later round asks for is not a function of the original memory. The total is still the sum of the counts, and the position is still the start advanced by them. `ReadRound` ties each single count to the host's answer in every case.
- Syscalls.FdRead, Streams.ReadLoop: which bytes stay unchanged is stated only when no segment's buffer overlaps the `iovec` array. When one does, a read rewrites later `iovec`s and the buffers are no longer those of the original memory.
- Syscalls.PathReadlink: only the empty command is a throw of the model's own; any other `spawnSync` throw, such as recent Node versions' rejection of a command holding a 0 byte, is the host's `Threw` answer.
- Vectors.VectorGet, Syscalls.VectorFill: the layout is stated only when the pointer table and the string buffer do not overlap; when they overlap, later rounds overwrite earlier ones, and only the length is stated.
- Lifecycle.OpenThenClose, Lifecycle.OpenCloseOpen: both assume the table has fewer than 2^32 entries. The guest receives descriptors as u32, so a larger slot number would come back truncated.
- The host descriptor that `path_open32` leaks when the `opened_fd` store fails is not tracked; the model keeps only the table entry the code leaves behind.
