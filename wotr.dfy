/** The value-log engine (wotr.cc): a registration table of the stores that
    share the log, an append path that issues offsets and sequence numbers,
    and a read path that decodes one record at a given offset, all over one
    log file opened for appending.
 */
module WotrLog {
  import opened Framing
  import opened Posix
  import StdMap

  /** `logoffset_t`: where an appended payload starts and the sequence number
      it was issued. */
  datatype LogOffset = LogOffset(offset: int, seqNo: nat)

  datatype Option<T> = None | Some(value: T)

  // ---------------------------------------------------------------------------
  // Full-transfer loops

  /** `safe_write`: writes all of `data`, retrying interrupted calls. It
      returns -1 as soon as one `write` fails with another error, and the file
      has then received a proper prefix of `data`. */
  method SafeWrite(fd: FileDescriptor, data: seq<byte>) returns (rc: int, ghost written: nat)
    modifies fd
    ensures rc == 0 || rc == -1
    ensures written <= |data| && fd.contents == old(fd.contents) + data[..written]
    ensures rc == 0 <==> written == |data|
    ensures rc == 0 ==> fd.failures == old(fd.failures)
    ensures rc == -1 ==> fd.failures == old(fd.failures) + [Failure(WriteCall, |fd.contents|)]
    // only writes are issued, and a failed one is the last
    ensures old(fd.calls) <= fd.calls
    ensures forall i :: |old(fd.calls)| <= i < |fd.calls| ==> fd.calls[i].call == WriteCall
    ensures rc == -1 ==> |fd.calls| > |old(fd.calls)| && fd.calls[|fd.calls| - 1] == Event(WriteCall, |fd.contents|, EIO)
  {
    var src: nat := 0;
    var left: nat := |data|;
    while left != 0
      invariant src + left == |data|
      invariant fd.contents == old(fd.contents) + data[..src]
      invariant fd.failures == old(fd.failures)
      invariant old(fd.calls) <= fd.calls
      invariant forall i :: |old(fd.calls)| <= i < |fd.calls| ==> fd.calls[i].call == WriteCall
      decreases left, fd.interrupts
    {
      var bytesToWrite := left;
      var done, err := fd.Write(data[src..src + bytesToWrite]);
      if done < 0 {
        if err == EINTR {
          continue;
        }
        return -1, src;
      }
      assert data[..src] + data[src..src + bytesToWrite][..done] == data[..src + done];
      left := left - done;
      src := src + done;
    }
    return 0, src;
  }

  /** `safe_read`: fills `buf[..size]` from the file position on, retrying
      interrupted calls. It returns -1 as soon as one `read` fails with
      another error, at a position short of the end of the request. The bytes
      must be in the file: the source loops for ever at end of file. */
  method SafeRead(fd: FileDescriptor, buf: array<byte>, size: nat) returns (rc: int)
    requires size <= buf.Length
    requires fd.pos + size <= |fd.contents|
    modifies fd, buf
    ensures rc == 0 || rc == -1
    ensures fd.contents == old(fd.contents)
    ensures old(fd.pos) <= fd.pos <= old(fd.pos) + size
    ensures rc == 0 ==> fd.pos == old(fd.pos) + size
    ensures rc == 0 ==> buf[..size] == fd.contents[old(fd.pos)..old(fd.pos) + size]
    ensures buf[size..] == old(buf[size..])
    ensures rc == 0 ==> fd.failures == old(fd.failures)
    ensures rc == -1 ==> fd.pos < old(fd.pos) + size && fd.failures == old(fd.failures) + [Failure(ReadCall, fd.pos)]
    // only reads are issued, and a failed one is the last
    ensures old(fd.calls) <= fd.calls
    ensures forall i :: |old(fd.calls)| <= i < |fd.calls| ==> fd.calls[i].call == ReadCall
    ensures rc == -1 ==> |fd.calls| > |old(fd.calls)| && fd.calls[|fd.calls| - 1] == Event(ReadCall, fd.pos, EIO)
    ensures rc == 0 && size > 0 ==> |fd.calls| > |old(fd.calls)| && fd.calls[|fd.calls| - 1].err == NoError
  {
    var dest: nat := 0;
    var left: nat := size;
    while left != 0
      invariant dest + left == size
      invariant fd.contents == old(fd.contents)
      invariant fd.pos == old(fd.pos) + dest
      invariant buf[..dest] == fd.contents[old(fd.pos)..fd.pos]
      invariant buf[size..] == old(buf[size..])
      invariant fd.failures == old(fd.failures)
      invariant old(fd.calls) <= fd.calls
      invariant forall i :: |old(fd.calls)| <= i < |fd.calls| ==> fd.calls[i].call == ReadCall
      invariant left == 0 && size > 0 ==> |fd.calls| > |old(fd.calls)| && fd.calls[|fd.calls| - 1].err == NoError
      decreases left, fd.interrupts
    {
      var bytesToRead := left;
      ghost var filled := buf[..dest];
      var done, err := fd.Read(buf, dest, bytesToRead);
      if done < 0 {
        if err == EINTR {
          assert buf[..dest] == filled;
          continue;
        }
        return -1;
      }
      assert buf[..dest] == filled == fd.contents[old(fd.pos)..old(fd.pos) + dest];
      assert buf[dest..dest + done] == fd.contents[old(fd.pos) + dest..fd.pos];
      assert buf[..dest + done] == buf[..dest] + buf[dest..dest + done];
      assert fd.contents[old(fd.pos)..fd.pos]
          == fd.contents[old(fd.pos)..old(fd.pos) + dest] + fd.contents[old(fd.pos) + dest..fd.pos];
      left := left - done;
      dest := dest + done;
    }
    return 0;
  }

  // ---------------------------------------------------------------------------
  // Version watermarks

  /** A version's watermark admits exactly the records issued up to and
      including it, when no payload is empty: record `j` starts below the end
      of record `v` if and only if `j <= v`. */
  lemma WatermarkAdmits(ps: seq<seq<byte>>, j: nat, v: nat)
    requires j < |ps| && v < |ps|
    requires forall k :: 0 <= k < |ps| ==> |ps[k]| > 0
    ensures Start(ps, j) < Start(ps, v + 1) <==> j <= v
  {
    if j <= v {
      StartMonotone(ps, j, v + 1);
    } else {
      StartMonotone(ps, v + 1, j);
    }
  }

  // ---------------------------------------------------------------------------
  // The log

  class Wotr {
    /** `_log`: the log file, opened with `O_APPEND`. */
    const log: FileDescriptor
    /** `_offset`: where the next payload is expected to start. */
    var offset: int
    /** `_seq`: the next sequence number. */
    var seqNo: nat
    /** `_db_counter`: the next registration id. */
    var dbCounter: int
    /** `_dbs`: registration id to store path. */
    var dbs: map<int, string>
    /** `_versions`: sequence number to the end offset of its payload. */
    var versions: map<nat, int>
    /** The payloads of the successful appends, in order. */
    ghost var payloads: seq<seq<byte>>

    ghost predicate Valid()
      reads this
    {
      0 <= dbCounter &&
      (forall id :: id in dbs ==> 0 <= id < dbCounter) &&
      seqNo == |payloads| &&
      offset == |Concat(payloads)| &&
      (forall v: nat :: v in versions <==> v < seqNo) &&
      (forall v :: 0 <= v < seqNo ==> versions[v] == Start(payloads, v + 1))
    }

    /** The file is exactly as long as the payloads appended so far. */
    ghost predicate InSync()
      reads this, log
    {
      |log.contents| == offset
    }

    /** The file holds exactly the payloads appended so far. */
    ghost predicate Clean()
      reads this, log
    {
      log.contents == Concat(payloads)
    }

    /** The initial state after the file has been opened: all counters zero
        and both tables empty, whatever the file already holds. */
    constructor (fd: FileDescriptor)
      ensures Valid() && log == fd
      ensures offset == 0 && seqNo == 0 && dbCounter == 0
      ensures dbs == map[] && versions == map[] && payloads == []
      ensures InSync() <==> fd.contents == []
      ensures Clean() <==> fd.contents == []
    {
      log := fd;
      offset := 0;
      dbCounter := 0;
      seqNo := 0;
      dbs := map[];
      versions := map[];
      payloads := [];
    }

    // -------------------------------------------------------------------------
    // Registration table

    /** Issues the next id for `path`, even if `path` is already registered. */
    method Register(path: string) returns (id: int)
      requires Valid()
      modifies this`dbs, this`dbCounter
      ensures Valid()
      ensures id == old(dbCounter) && dbCounter == old(dbCounter) + 1
      ensures id !in old(dbs) && dbs == old(dbs)[id := path]
      ensures |dbs| == |old(dbs)| + 1
    {
      var ret := dbCounter;
      dbs := StdMap.Insert(dbs, dbCounter, path);
      dbCounter := dbCounter + 1;
      return ret;
    }

    /** Removes `ident`; nothing happens when it is not registered. */
    method UnRegister(ident: int)
      requires Valid()
      modifies this`dbs
      ensures Valid()
      ensures dbs == old(dbs) - {ident}
      ensures ident in old(dbs) ==> |dbs| == |old(dbs)| - 1
      ensures ident !in old(dbs) ==> dbs == old(dbs)
    {
      dbs := dbs - {ident};
    }

    method NumRegistered() returns (n: int)
      requires Valid()
      ensures n == |dbs| && n <= dbCounter
    {
      IdsBelowCounter(dbs, dbCounter);
      n := |dbs|;
    }

    // -------------------------------------------------------------------------
    // Append path

    /** `WotrWrite`: appends `logdata` and issues it an offset and a sequence
        number. It returns `nullptr` exactly when the seek, the write or the
        requested fsync fails; then nothing is issued and the counters stay
        put, although the file may already hold part or all of `logdata`. */
    method WotrWrite(logdata: seq<byte>, flush: bool) returns (r: Option<LogOffset>, ghost written: nat)
      requires Valid()
      modifies this`offset, this`seqNo, this`versions, this`payloads, log
      ensures Valid()
      ensures written <= |logdata| && log.contents == old(log.contents) + logdata[..written]
      ensures r.Some? <==> log.failures == old(log.failures)
      ensures r.Some? ==> written == |logdata| && r.value == LogOffset(old(offset), old(seqNo))
      ensures r.Some? ==> offset == old(offset) + |logdata| && seqNo == old(seqNo) + 1
      ensures r.Some? ==> versions == old(versions)[old(seqNo) := offset]
      ensures r.Some? ==> payloads == old(payloads) + [logdata]
      ensures r.None? ==> offset == old(offset) && seqNo == old(seqNo) && versions == old(versions) && payloads == old(payloads)
      // exactly one call failed, and it decides how much of `logdata` reached the file
      ensures r.None? ==>
                (written == 0 && log.failures == old(log.failures) + [Failure(SeekCall, old(offset))]) ||
                (written < |logdata| && log.failures == old(log.failures) + [Failure(WriteCall, |log.contents|)]) ||
                (flush && written == |logdata| && log.failures == old(log.failures) + [Failure(SyncCall, |log.contents|)])
      // the seek comes first, the fsync only when asked for, and a failed call last
      ensures old(log.calls) < log.calls
      ensures log.calls[|old(log.calls)|].call == SeekCall && log.calls[|old(log.calls)|].at == old(offset)
      ensures !flush ==> forall i :: |old(log.calls)| <= i < |log.calls| ==> log.calls[i].call != SyncCall
      ensures r.Some? && flush ==> log.calls[|log.calls| - 1] == Event(SyncCall, |log.contents|, NoError)
      ensures r.None? ==> log.calls[|log.calls| - 1].err == EIO
      ensures r.Some? && old(Clean()) ==> Clean()
      ensures r.Some? && old(InSync()) ==> InSync()
      ensures r.None? && written == |logdata| && old(InSync()) ==> (InSync() <==> logdata == [])
    {
      var s := log.Seek(offset);
      if s < 0 {
        return None, 0;
      }
      var rc;
      rc, written := SafeWrite(log, logdata);
      if rc < 0 {
        return None, written;
      }
      assert logdata[..written] == logdata;
      if flush {
        var f := log.Fsync();
        if f < 0 {
          return None, written;
        }
      }
      var ret := Commit(logdata);
      return Some(ret), written;
    }

    /** The bookkeeping that ends a complete append: the payload is issued the
        current offset and sequence number, the offset moves past it, the
        version table records where it ends and the sequence number moves on. */
    method Commit(logdata: seq<byte>) returns (ret: LogOffset)
      requires Valid()
      modifies this`offset, this`seqNo, this`versions, this`payloads
      ensures Valid()
      ensures ret == LogOffset(old(offset), old(seqNo))
      ensures offset == old(offset) + |logdata| && seqNo == old(seqNo) + 1
      ensures versions == old(versions)[old(seqNo) := offset]
      ensures payloads == old(payloads) + [logdata]
      ensures Concat(payloads) == Concat(old(payloads)) + logdata
    {
      ret := LogOffset(offset, seqNo);
      VersionsAfterAppend(versions, payloads, logdata);
      ConcatSnoc(payloads, logdata);
      offset := offset + |logdata|;
      versions := StdMap.Insert(versions, seqNo, offset);
      payloads := payloads + [logdata];
      seqNo := seqNo + 1;
    }

    // -------------------------------------------------------------------------
    // Read path

    /** The watermark of `version`: the end of the payload issued that
        sequence number, and 0 for a version not yet issued. */
    function Watermark(version: nat): (w: int)
      requires Valid()
      reads this
      ensures version < seqNo ==> w == Start(payloads, version + 1)
      ensures version >= seqNo ==> w == 0
    {
      StdMap.Lookup(versions, version)
    }

    /** Whether `version` rejects a read at `offset` before any I/O. Version 0
        admits every offset. */
    predicate Rejects(version: nat, offset: nat)
      requires Valid()
      reads this
    {
      version != 0 && offset >= Watermark(version)
    }

    /** `WotrGet`: the value of the record whose header starts at `offset`.
        A non-zero `version` first bounds the read: `offset` must lie below
        that version's watermark, which rejects every offset for a version
        not yet issued. */
    method WotrGet(offset: nat, version: nat) returns (rc: int, data: seq<byte>, len: nat)
      requires Valid()
      requires Rejects(version, offset) || RecordFits(log.contents, offset)
      modifies log
      ensures log.contents == old(log.contents) && old(log.failures) <= log.failures
      ensures old(log.calls) <= log.calls
      ensures Rejects(version, offset) ==>
                rc == -1 && data == [] && len == 0 && log.pos == old(log.pos) && log.calls == old(log.calls) &&
                log.failures == old(log.failures)
      ensures !Rejects(version, offset) ==>
                ReadOutcome(old(log.contents), offset, log.failures[|old(log.failures)|..],
                            log.calls[|old(log.calls)|..], rc, data, len)
    {
      if Rejects(version, offset) {
        return -1, [], 0;
      }
      rc, data, len := ReadRecord(log, offset);
    }
  }

  /** A failure of the seek to `offset` or of the header read there. */
  ghost predicate HeaderFailure(f: Failure, offset: nat)
  {
    f == Failure(SeekCall, offset) || (f.call == ReadCall && offset <= f.at < offset + HEADER_SIZE)
  }

  /** A failure of a read past the header: of the key or of the value. */
  ghost predicate BodyFailure(f: Failure, offset: nat)
  {
    f.call == ReadCall && f.at >= offset + HEADER_SIZE
  }

  /** What reading the record at `offset` of `file` returns, given the calls
      `made` by the read and the failed ones among them, `more`. The read
      starts with a seek to `offset`. It returns -1 exactly when the seek or
      the header read failed, and that failed call was the last one it made.
      Otherwise it returns 0 with the header's value size, however the key and
      value reads went, and the value itself when no call failed. */
  ghost predicate ReadOutcome(file: seq<byte>, offset: nat, more: seq<Failure>, made: seq<Event>,
                              rc: int, data: seq<byte>, len: nat)
    requires RecordFits(file, offset)
  {
    (rc == 0 || rc == -1) &&
    |made| > 0 && made[0].call == SeekCall && made[0].at == offset &&
    (rc == -1 ==> made[|made| - 1].err == EIO) &&
    (rc == -1 ==> |more| == 1 && HeaderFailure(more[0], offset) && data == [] && len == 0) &&
    (rc == 0 ==> |more| <= 2 && (forall i :: 0 <= i < |more| ==> BodyFailure(more[i], offset))) &&
    (rc == 0 ==> len == HeaderIn(file, offset).vsize && |data| == len) &&
    (more == [] ==> rc == 0 && data == ValueAt(file, offset)) &&
    // the value is still read after the key read failed
    ((rc == 0 && HeaderIn(file, offset).vsize > 0 && |more| == 1 &&
      more[0].at < offset + HEADER_SIZE + HeaderIn(file, offset).ksize) ==>
       made[|made| - 1].err == NoError)
  }

  /** The positional part of `WotrGet`: seeks to `offset`, reads one header,
      then reads and drops the key and reads the value. A failure to read the
      key or the value is not reported: the call still succeeds, with the value
      buffer as far as it was filled. */
  method ReadRecord(fd: FileDescriptor, offset: nat) returns (rc: int, data: seq<byte>, len: nat)
    requires RecordFits(fd.contents, offset)
    modifies fd
    ensures fd.contents == old(fd.contents) && old(fd.failures) <= fd.failures && old(fd.calls) <= fd.calls
    ensures ReadOutcome(old(fd.contents), offset, fd.failures[|old(fd.failures)|..],
                        fd.calls[|old(fd.calls)|..], rc, data, len)
  {
    ghost var f0, c0 := fd.failures, fd.calls;
    var h := ReadHeader(fd, offset);
    if h.None? {
      return -1, [], 0;
    }
    ghost var f1, c1 := fd.failures, fd.calls;
    data := ReadBody(fd, offset, h.value);
    len := h.value.vsize;
    rc := 0;
    assert fd.calls[|c0|] == c1[|c0|];
    assert fd.calls[|c0|..][|fd.calls[|c0|..]| - 1] == fd.calls[|fd.calls| - 1];
    assert fd.failures[|f0|..] == fd.failures[|f1|..];
  }

  /** The seek to `offset` and the read of the header there. */
  method ReadHeader(fd: FileDescriptor, offset: nat) returns (h: Option<ItemHeader>)
    requires offset + HEADER_SIZE <= |fd.contents|
    modifies fd
    ensures fd.contents == old(fd.contents) && old(fd.failures) <= fd.failures && old(fd.calls) <= fd.calls
    ensures |fd.calls| > |old(fd.calls)|
    ensures fd.calls[|old(fd.calls)|].call == SeekCall && fd.calls[|old(fd.calls)|].at == offset
    ensures h.None? ==> |fd.failures| == |old(fd.failures)| + 1 && HeaderFailure(fd.failures[|old(fd.failures)|], offset)
    ensures h.None? ==> fd.calls[|fd.calls| - 1].err == EIO
    ensures h.Some? ==> fd.failures == old(fd.failures) && fd.pos == offset + HEADER_SIZE
    ensures h.Some? ==> h.value == HeaderIn(fd.contents, offset)
  {
    ghost var file := fd.contents;
    var header := new byte[HEADER_SIZE];
    var s := fd.Seek(offset);
    if s < 0 {
      return None;
    }
    var hr := SafeRead(fd, header, HEADER_SIZE);
    if hr < 0 {
      return None;
    }
    assert header[..] == file[offset..offset + HEADER_SIZE];
    return Some(DecodeHeader(header[..]));
  }

  /** The key read and the value read that follow a header `h` read at
      `offset`; their failures are not reported. */
  method ReadBody(fd: FileDescriptor, offset: nat, h: ItemHeader) returns (data: seq<byte>)
    requires RecordFits(fd.contents, offset) && h == HeaderIn(fd.contents, offset)
    requires fd.pos == offset + HEADER_SIZE
    modifies fd
    ensures fd.contents == old(fd.contents) && old(fd.failures) <= fd.failures && old(fd.calls) <= fd.calls
    ensures |data| == h.vsize
    ensures |fd.failures| <= |old(fd.failures)| + 2
    ensures forall i :: |old(fd.failures)| <= i < |fd.failures| ==> BodyFailure(fd.failures[i], offset)
    ensures fd.failures == old(fd.failures) ==> data == ValueAt(fd.contents, offset)
    // a failure inside the key leaves the value read to do, and it is done
    ensures h.vsize > 0 && |fd.failures| == |old(fd.failures)| + 1 &&
            fd.failures[|old(fd.failures)|].at < offset + HEADER_SIZE + h.ksize ==>
              |fd.calls| > |old(fd.calls)| && fd.calls[|fd.calls| - 1].err == NoError
  {
    ghost var file, f0 := fd.contents, fd.failures;
    ghost var e := EntryIn(file, offset);
    var kbuf := new byte[h.ksize];
    var vbuf := new byte[h.vsize];
    var kr := SafeRead(fd, kbuf, h.ksize);
    var vr := SafeRead(fd, vbuf, h.vsize);
    if kr == 0 && vr == 0 {
      assert vbuf[..] == vbuf[..h.vsize] == file[e.valueOffset..e.valueOffset + e.vsize];
    }
    data := vbuf[..];
  }

  /** Recording the end of a new payload under the next sequence number keeps
      the version table exactly the table of payload ends. */
  lemma VersionsAfterAppend(versions: map<nat, int>, ps: seq<seq<byte>>, d: seq<byte>)
    requires forall v: nat :: v in versions <==> v < |ps|
    requires forall v :: 0 <= v < |ps| ==> versions[v] == Start(ps, v + 1)
    ensures |Concat(ps + [d])| == |Concat(ps)| + |d|
    ensures var versions' := StdMap.Insert(versions, |ps|, |Concat(ps)| + |d|);
            (forall v: nat :: v in versions' <==> v < |ps| + 1) &&
            (forall v :: 0 <= v < |ps| + 1 ==> versions'[v] == Start(ps + [d], v + 1)) &&
            versions' == versions[|ps| := |Concat(ps)| + |d|]
  {
    ConcatSnoc(ps, d);
    assert (ps + [d])[..|ps| + 1] == ps + [d];
  }

  /** Registration ids are all below the counter, so there are at most as many
      of them as the counter's value. */
  lemma IdsBelowCounter(dbs: map<int, string>, counter: int)
    requires 0 <= counter
    requires forall id :: id in dbs ==> 0 <= id < counter
    ensures |dbs| <= counter
  {
    BoundedIds(dbs.Keys, counter);
  }

  lemma {:induction false} BoundedIds(ids: set<int>, n: nat)
    requires forall id :: id in ids ==> 0 <= id < n
    ensures |ids| <= n
  {
    if n > 0 {
      var rest := ids - {n - 1};
      assert |rest| >= |ids| - 1;
      BoundedIds(rest, n - 1);
    } else {
      assert forall id :: id !in ids;
      assert ids == {};
    }
  }

  // ---------------------------------------------------------------------------
  // End to end

  /** Appends a framed record to a log that holds exactly its payloads, then
      reads it back at the issued offset and version: the read is never
      rejected, so -1 means that some call failed, and when no call fails the
      read returns the record's value. */
  method AppendThenGet(w: Wotr, r: Record, flush: bool)
      returns (appended: Option<LogOffset>, rc: int, value: seq<byte>)
    requires w.Valid() && w.Clean() && WellSized(r)
    modifies w, w.log
    ensures w.Valid() && old(w.log.failures) <= w.log.failures
    ensures appended.Some? ==> w.Clean()
    ensures appended.Some? ==> appended.value == LogOffset(old(w.offset), old(w.seqNo))
    ensures appended.Some? && rc == -1 ==> w.log.failures != old(w.log.failures)
    ensures w.log.failures == old(w.log.failures) ==> appended.Some? && rc == 0 && value == r.value
  {
    ghost var written;
    appended, written := w.WotrWrite(EncodeRecord(r), flush);
    if appended.None? {
      return appended, -1, [];
    }
    var i := |w.payloads| - 1;
    RecordInLog(w.payloads, i, r);
    var o := appended.value.offset;
    assert o == Start(w.payloads, i) by {
      ConcatSnoc(old(w.payloads), EncodeRecord(r));
    }
    StartStep(w.payloads, i);
    assert !w.Rejects(appended.value.seqNo, o);
    ghost var f1 := w.log.failures;
    var len;
    rc, value, len := w.WotrGet(o, appended.value.seqNo);
    if rc == -1 {
      assert |w.log.failures| > |f1|;
    }
  }
}
