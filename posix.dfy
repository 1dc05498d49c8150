/** The operating-system file that the value log writes to and reads from.

    The log's descriptor is opened with `O_RDWR | O_CREAT | O_APPEND`, so every
    `write` lands at the end of the file whatever the file position; `read`
    starts at the file position and `lseek(fd, off, SEEK_SET)` moves it. Each
    call may fail; `write` and `read` may also transfer fewer bytes than asked.
    Which of these happens is chosen nondeterministically. A call may be
    interrupted by a signal (`EINTR`) only while the budget `interrupts`
    lasts, so that a retry loop around these calls terminates.

    The ghost history `failures` records every call that failed with an error
    other than `EINTR`, in order, with the file position it worked at. Callers
    state their error handling against it: a caller reports failure exactly
    when one of its calls added an entry. The ghost history `calls` records
    every call, in order, whatever its outcome, so callers can also state
    which calls they make and that they stop after a failure.
 */
module Posix {
  import opened Framing

  datatype Errno = NoError | EINTR | EIO

  datatype Call = SeekCall | ReadCall | WriteCall | SyncCall

  /** A call that failed, and the file offset it was working at: the target of
      a seek, the read position of a read, the end of the file for a write or
      an fsync. */
  datatype Failure = Failure(call: Call, at: int)

  /** A call made, the offset it worked at and how it ended. */
  datatype Event = Event(call: Call, at: int, err: Errno)

  class FileDescriptor {
    /** The bytes of the file. */
    var contents: seq<byte>
    /** The file position used by `read`. */
    var pos: nat
    /** How many more calls a signal may still interrupt. */
    var interrupts: nat
    /** The calls that failed so far, other than interrupted ones. */
    ghost var failures: seq<Failure>
    /** Every call made so far. */
    ghost var calls: seq<Event>

    constructor (initial: seq<byte>, signals: nat)
      ensures contents == initial && pos == 0 && interrupts == signals && failures == [] && calls == []
    {
      contents, pos, interrupts, failures, calls := initial, 0, signals, [], [];
    }

    /** `write(fd, src, |src|)` on a descriptor opened with `O_APPEND`. */
    method Write(src: seq<byte>) returns (done: int, err: Errno)
      requires |src| > 0
      modifies this
      ensures done == -1 || 1 <= done <= |src|
      ensures done == -1 ==> err != NoError && contents == old(contents)
      ensures done == -1 && err == EINTR ==> interrupts < old(interrupts)
      ensures !(done == -1 && err == EINTR) ==> interrupts == old(interrupts)
      ensures done >= 1 ==> err == NoError && contents == old(contents) + src[..done] && pos == |contents|
      ensures failures == old(failures) + (if done == -1 && err != EINTR then [Failure(WriteCall, |old(contents)|)] else [])
      ensures calls == old(calls) + [Event(WriteCall, |old(contents)|, err)]
    {
      var signalled: bool :| true;
      if signalled && interrupts > 0 {
        interrupts := interrupts - 1;
        calls := calls + [Event(WriteCall, |contents|, EINTR)];
        return -1, EINTR;
      }
      var failed: bool :| true;
      if failed {
        failures := failures + [Failure(WriteCall, |contents|)];
        calls := calls + [Event(WriteCall, |contents|, EIO)];
        return -1, EIO;
      }
      calls := calls + [Event(WriteCall, |contents|, NoError)];
      var n: int :| 1 <= n <= |src|;
      contents := contents + src[..n];
      pos := |contents|;
      return n, NoError;
    }

    /** `read(fd, buf + at, n)`: copies up to `n` bytes starting at the file
        position into `buf[at..]`; returns 0 at end of file. */
    method Read(buf: array<byte>, at: nat, n: nat) returns (done: int, err: Errno)
      requires n > 0 && at + n <= buf.Length
      modifies this, buf
      ensures contents == old(contents)
      ensures done == -1 || 0 <= done <= n
      ensures done == 0 <==> old(pos) >= |contents|
      ensures done == -1 ==> err != NoError && pos == old(pos) && buf[..] == old(buf[..])
      ensures done == -1 && err == EINTR ==> interrupts < old(interrupts)
      ensures !(done == -1 && err == EINTR) ==> interrupts == old(interrupts)
      ensures done >= 0 ==> err == NoError
      ensures done == 0 ==> pos == old(pos) && buf[..] == old(buf[..])
      ensures done >= 1 ==> old(pos) + done <= |contents| && pos == old(pos) + done
      ensures done >= 1 ==> buf[at..at + done] == contents[old(pos)..old(pos) + done]
      ensures done >= 1 ==> buf[..at] == old(buf[..at]) && buf[at + done..] == old(buf[at + done..])
      ensures failures == old(failures) + (if done == -1 && err != EINTR then [Failure(ReadCall, old(pos))] else [])
      ensures calls == old(calls) + [Event(ReadCall, old(pos), err)]
    {
      if pos >= |contents| {
        calls := calls + [Event(ReadCall, pos, NoError)];
        return 0, NoError;
      }
      var signalled: bool :| true;
      if signalled && interrupts > 0 {
        interrupts := interrupts - 1;
        calls := calls + [Event(ReadCall, pos, EINTR)];
        return -1, EINTR;
      }
      var failed: bool :| true;
      if failed {
        failures := failures + [Failure(ReadCall, pos)];
        calls := calls + [Event(ReadCall, pos, EIO)];
        return -1, EIO;
      }
      calls := calls + [Event(ReadCall, pos, NoError)];
      var available := |contents| - pos;
      var k: int :| 1 <= k <= n && k <= available;
      forall j | at <= j < at + k {
        buf[j] := contents[pos + j - at];
      }
      assert buf[at..at + k] == contents[pos..pos + k];
      pos := pos + k;
      return k, NoError;
    }

    /** `lseek(fd, off, SEEK_SET)`: -1 on failure, otherwise the new position. */
    method Seek(off: int) returns (r: int)
      modifies this
      ensures contents == old(contents) && interrupts == old(interrupts)
      ensures r == -1 || r == off
      ensures off < 0 ==> r == -1
      ensures r == -1 ==> pos == old(pos)
      ensures r != -1 ==> pos == off
      ensures failures == old(failures) + (if r == -1 then [Failure(SeekCall, off)] else [])
      ensures calls == old(calls) + [Event(SeekCall, off, if r == -1 then EIO else NoError)]
    {
      var failed: bool :| true;
      if off < 0 || failed {
        failures := failures + [Failure(SeekCall, off)];
        calls := calls + [Event(SeekCall, off, EIO)];
        return -1;
      }
      calls := calls + [Event(SeekCall, off, NoError)];
      pos := off;
      return off;
    }

    /** `fsync(fd)`: 0 or -1. Durability itself is not modelled. */
    method Fsync() returns (r: int)
      modifies this`failures, this`calls
      ensures r == 0 || r == -1
      ensures failures == old(failures) + (if r == -1 then [Failure(SyncCall, |contents|)] else [])
      ensures calls == old(calls) + [Event(SyncCall, |contents|, if r == -1 then EIO else NoError)]
    {
      var failed: bool :| true;
      r := if failed then -1 else 0;
      if failed {
        failures := failures + [Failure(SyncCall, |contents|)];
      }
      calls := calls + [Event(SyncCall, |contents|, if failed then EIO else NoError)];
    }
  }
}
