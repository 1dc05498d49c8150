# wotr value log, modelled in Dafny

wotr is a value log: an append-only file of variable-length key/value
records. Sorted-index stores keep only the offsets of their values, and the
log turns an offset back into a value. This project models the log engine
of `wotr.cc` and the record types in `wotr.h`:

- the **registration table** of the stores that share one log;
- the **append path** `WotrWrite`, which writes a payload and issues it an
  offset and a sequence number, and records in the version table where the
  payload ends;
- the **read path** `WotrGet`, which checks the optional version watermark,
  decodes one `item_header` at the offset, skips the key and returns the
  value;
- the **full-transfer loops** `safe_write` and `safe_read`, which retry
  interrupted system calls until every byte has moved.

The log file is a `Posix.FileDescriptor`. It holds the file's bytes, its
read position and a budget of signal interruptions. Its `write`, `read`,
`lseek` and `fsync` choose nondeterministically among the outcomes the
system allows: short transfers, errors and `EINTR`. `write` appends at the
end of the file whatever the position, as `O_APPEND` requires. The descriptor
also keeps a ghost history, `failures`. Each call that fails with an error
other than `EINTR` appends one entry, naming the call and the file offset it
worked at. A second ghost history, `calls`, records every call and how it
ended, so that contracts can also say which calls are made and in what order.
The engine's error handling is stated against these histories:

- which results mean failure;
- which failures are retried;
- which failures are reported and which are ignored;
- that a reported failure is the last call made.

Modules:

- `Framing` (`framing.dfy`) covers `wotr.h`. It has the header and entry
  datatypes, the little-endian header codec with both round trips, the
  record layout, and the log as the concatenation of its payloads.
- `Posix` (`posix.dfy`) models the operating-system calls. It is not part of
  the source.
- `StdMap` (`std_map.dfy`) models the two `std::unordered_map` operations the
  engine uses. It also holds the counterexample for the finding below.
- `WotrLog` (`wotr.dfy`) covers `wotr.cc`. It has the loops `SafeWrite` and
  `SafeRead`, the class `Wotr` with the fields `_offset`, `_seq`,
  `_db_counter`, `_dbs` and `_versions`, and the positional read
  `ReadRecord`.

`Wotr.Valid()` is the class invariant:

- every registration id is below the counter;
- `_seq` counts the successful appends;
- `_offset` is the total length of their payloads;
- `_versions` maps exactly the issued sequence numbers to the ends of their
  payloads.

`Valid()` does not assume that the file holds exactly those payloads. That
property is the separate predicate `Clean()`, and its length-only form is
`InSync()`. The model exposes the two ways it fails:

- the constructor sets `_offset` to 0 even when the file already has bytes
  in it;
- a write that fails partway, or an fsync that fails after the write,
  leaves bytes in the file without advancing the counters.

On-disk header: `sizeof(item_header)` is 24 bytes on an LP64 target. That
is an 8-byte `ksize`, an 8-byte `vsize`, a 4-byte `cfid` and 4 bytes of
padding. The model reads those bytes in little-endian order. A byte is an
integer in [0, 256).

Behaviour of the code that the model keeps as it is:

- `_offset` starts at 0, not at the length the file already has (wotr.cc:15).
- `sizeof(item_header)` includes 4 bytes of trailing padding, so a header
  takes 24 bytes, not the 20 bytes of its fields (wotr.h:12-16).
- A registration id is never reused, because `_db_counter` only grows
  (wotr.cc:26-28).
- A version equal to 0 disables the watermark check (wotr.cc:109-110),
  although 0 is also the first sequence number issued (wotr.cc:17, 100).
- A failed key or value read in `WotrGet` is reported as success
  (wotr.cc:131-141).

`wotr.h` declares `_lock`, has no `_seq`, `_m` or `_versions`, and gives
other signatures. The model follows `wotr.cc`.

## Model

| member | source | states |
|---|---|---|
| Framing.DecodeLE | wotr.h:12-16 | a field decoded from n bytes is below 256^n, so `ksize` and `vsize` fit in 64 bits and `cfid` in 32 |
| Framing.DecodeEncodeLE | wotr.h:12-16 | decoding the little-endian bytes of a value below 256^n gives back the value |
| Framing.EncodeDecodeLE | wotr.h:12-16 | re-encoding a decoded field at its width gives back the same bytes (the codec is a bijection) |
| Framing.EncodeHeader | wotr.h:12-16 | a header always takes exactly `HEADER_SIZE` = `sizeof(item_header)` = 24 bytes |
| Framing.HeaderRoundTrip | wotr.cc:115-127 | reading back a written header gives the same key size, value size and column-family id |
| Framing.DecodeHeader | wotr.cc:122-138 | the 24 bytes read into an `item_header` give its `ksize`, `vsize` and `cfid`, and no field byte is lost: encoding the result reproduces the first 20 bytes followed by zero padding |
| Framing.DecodeIgnoresPadding | wotr.h:12-16 | two header blocks that differ only in the 4 padding bytes decode to the same header |
| Framing.EncodeRecord | wotr.h:12-16 | a framed record is `HEADER_SIZE + ksize + vsize` bytes long |
| Framing.EntryAt | wotr.h:18-24 | the key starts right after the header, the value right after the key, and the entry ends right after the value |
| Framing.RecordRoundTrip | wotr.cc:115-138 | a record framed at offset o decodes to its own sizes and `cfid`; the key is at `o + HEADER_SIZE`, the value follows it, and the stride `size` lands on the first byte after the record |
| Framing.RecordInLog | wotr.h:23 | in a log of appended payloads, a framed record can be read back where it was appended, and its stride leads to the start of the next payload |
| StdMap.Insert | wotr.cc:27 | `insert` adds the key and keeps every existing entry, including an existing value at that key |
| StdMap.Subscript | wotr.cc:110 | `operator[]` returns the mapped value and, for an absent key, first inserts and returns 0 |
| StdMap.Lookup | wotr.cc:110 | the value-only lookup returns exactly what `operator[]` would return |
| StdMap.StaleVersionEntry | wotr.cc:103-110 | counterexample: after a read at version 1 on a fresh log, appends ending at 30 and 60 still leave version 1 with watermark 0, so a read of record 1 at offset 30 is rejected |
| StdMap.SubscriptBeforeInsert | wotr.cc:103-110 | for every version table and every version not yet issued, an `operator[]` read before the issuing `insert` leaves the version at watermark 0, whatever watermark the `insert` carries; without that read the `insert` records the watermark |
| WotrLog.SafeWrite | wotr.cc:41-59 | returns 0 exactly when all of `data` was appended and no `write` failed, so interrupted calls are retried; returns -1 exactly when one `write` failed with another error, and that write is the last call it made; it issues only writes; in either case the file grows by a prefix of `data`, in order |
| WotrLog.SafeRead | wotr.cc:61-79 | returns 0 exactly when no `read` failed, and then `buf[..size]` holds the `size` file bytes from the old position and the position has moved past them; returns -1 exactly when one `read` failed with an error other than `EINTR`, at a position inside the request, and that read is the last call it made; it issues only reads; the file is never changed |
| WotrLog.WatermarkAdmits | wotr.cc:110 | when no payload is empty, record j starts below the watermark of version v exactly when j <= v |
| WotrLog.Wotr.constructor | wotr.cc:13-22 | all counters are 0 and both tables are empty; the file matches the counters exactly when it starts empty |
| WotrLog.Wotr.Register | wotr.cc:24-31 | returns the old counter and increments it; adds exactly one new id-to-path entry, even for a path already present; ids stay below the counter |
| WotrLog.Wotr.UnRegister | wotr.cc:33-35 | removes only that id; no effect for an absent id |
| WotrLog.Wotr.NumRegistered | wotr.cc:37-39 | returns the size of the table, which is never more than the number of ids issued |
| WotrLog.Wotr.WotrWrite | wotr.cc:82-106 | first seeks to `_offset`, calls `fsync` only when `flush` is set, and on a flushed success ends with a successful `fsync`; returns `nullptr` exactly when a call failed, and that call is the last one made: the seek (nothing written), the write (part of the payload written) or the requested fsync (all of it written); no counter changes then; otherwise it returns the old offset and sequence number, advances the offset by the payload length, increments the sequence number and records the new end for the issued version |
| WotrLog.Wotr.Commit | wotr.cc:98-105 | the bookkeeping after a complete write: issues the old offset and sequence number, and changes only the version entry of the issued sequence number |
| WotrLog.VersionsAfterAppend | wotr.cc:102-103 | after an append, the version table still maps exactly the issued sequence numbers to the ends of their payloads |
| WotrLog.Wotr.Watermark | wotr.cc:110 | the watermark of an issued version is the end of its payload; an unknown version has watermark 0 |
| WotrLog.Wotr.WotrGet | wotr.cc:108-142 | returns -1 without any call when `version != 0` and `offset >= _versions[version]`, which includes every unknown version; otherwise it reads the record as `ReadRecord` does; the version table is left unchanged |
| WotrLog.ReadRecord | wotr.cc:115-141 | first seeks to `offset`; returns -1 exactly when the seek or the header read failed, and that failed call is the last one made; a failed key or value read still returns 0 with `len` set to the header's `vsize`, and after a failed key read a non-empty value is still read, so the last call succeeds; when no call failed, the data are the `vsize` bytes at `offset + HEADER_SIZE + ksize` |
| WotrLog.ReadHeader | wotr.cc:115-125 | seeks to `offset` first; fails exactly when the seek or the header read failed, with that one failure as the last call; otherwise decodes the header in the file at `offset` and leaves the position right after it |
| WotrLog.ReadBody | wotr.cc:127-139 | reads the key and then the value, and still reads a non-empty value after a failure inside the key, ending with a successful call; at most two new failures, all reads past the header, none of them reported; the data always have the header's `vsize` bytes, and are the value when no read failed |
| WotrLog.AppendThenGet | wotr.cc:82-142 | appending a framed record to a log that holds exactly its payloads, then reading at the issued offset and version, is never rejected, so -1 means a call failed; when no call fails the append succeeds and the read returns the record's value |

## Findings

| source | as written | input that shows it | evidently intended | confidence | as-written member | corrected member |
|---|---|---|---|---|---|---|
| wotr.cc:110 | `_versions[version]` inserts a 0 entry for a version not yet issued, and the later `_versions.insert` at wotr.cc:103 cannot replace it | on a fresh log, `WotrGet(0, _, _, 1)`, then two appends ending at 30 and 60, then `WotrGet(30, _, _, 1)` is rejected | a read leaves the version table alone (a `find`-based lookup), so version 1 has watermark 60 | high; not executed | StdMap.StaleVersionEntry | WotrLog.Wotr.WotrGet |

## Left out

- The `std::scoped_lock` on `_m` is left out: every operation is modelled as sequential and atomic.
- The constructor's `open`, its error message and its `throw` are left out. The constructor takes an already opened descriptor, with whatever contents it has.
- `Flush` and `CloseAndDestroy` are left out: they are bare `fsync`, `close` and `unlink` calls.
- `Head`, `Sync`, `WotrPGet` and `StartupRecovery` are declared in `wotr.h` but have no body in the source, so they are not modelled.
- `_logname` is left out: it only serves `CloseAndDestroy`, which is left out too. The unused fields `_statslog`, `_statsstart`, `_statsptr` and `_inception` are left out.
- `c.h` and `c.cc` are not part of this model: they are a C pass-through wrapper.
- The malloc/free ownership of the buffers is left out, and so is the header buffer that `WotrGet` never frees. Values come back as sequences.
- The `std::cout` logging is left out, and so is the text of `strerror(errno)`.
- An iterator, recovery by log replay and a raw ranged read have no code in `wotr.cc`, so they are not part of this model.
- SafeRead: requires that the requested bytes exist in the file. The source does no bounds check and loops forever when `read` returns 0 at end of file.
- WotrGet: requires `RecordFits` unless the version rejects the read. `RecordFits` means the header and the key and value it announces lie inside the file, for the same reason as in `SafeRead`. A rejected read makes no call, so it needs nothing of the file.
- SafeWrite: interrupted calls are bounded by the descriptor's `interrupts` budget, so that the retry loop provably ends. The source retries `EINTR` without limit.
- SafeRead: interrupted calls are bounded by the same `interrupts` budget, for the same reason.
- ReadRecord: after a failed key or value read it says nothing about the bytes returned. The source returns a partly filled, uninitialised buffer, and after a failed key read the value read starts from wherever the key read stopped.
- WotrGet: on a -1 return, `data` and `len` come back empty and 0. The source leaves them unassigned.
- WotrGet: does not model the insertion done by `_versions[version]`. It uses the corrected, non-inserting lookup described under Findings.
- Integer widths are not modelled: the model does not wrap the 64-bit `_offset`, `_seq` and file offsets, or the `int` counter `_db_counter`, whose signed overflow after 2^31 registrations is undefined behaviour.
- The `int` return of `NumRegistered` is not truncated from `size_t`.
- Byte order: the source never writes a header, because `WotrWrite` appends the caller's bytes unchanged. It reads the header in the machine's native order. The model fixes little-endian, the order of LP64 x86-64 and AArch64 targets. `EncodeHeader` is the writer's side that the source expects its callers to follow.
- Durability is not modelled: `fsync` only succeeds or fails.
