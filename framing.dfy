/** On-disk record framing of the value log (wotr.h).

    A record is an `item_header` followed by the key bytes and then the value
    bytes. The header is the C struct `{ size_t ksize; size_t vsize; uint32_t cfid; }`
    written as one unit; on an LP64 target it occupies 24 bytes: two 8-byte
    sizes, a 4-byte column-family id and 4 bytes of trailing padding that brings
    the struct to its 8-byte alignment. This model fixes little-endian byte order and represents a byte as an
    integer in [0, 256).
 */
module Framing {

  type byte = x: int | 0 <= x < 256

  const U32_LIMIT: nat := 0x1_0000_0000
  const U64_LIMIT: nat := 0x1_0000_0000_0000_0000

  type uint32 = x: int | 0 <= x < 0x1_0000_0000
  type uint64 = x: int | 0 <= x < 0x1_0000_0000_0000_0000

  /** `sizeof(item_header)` on LP64. */
  const HEADER_SIZE: nat := 24
  /** Byte positions of the header's fields and of its padding. */
  const KSIZE_AT: nat := 0
  const VSIZE_AT: nat := 8
  const CFID_AT: nat := 16
  const PADDING_AT: nat := 20

  /** `item_header`: the fixed-size preamble of every record. */
  datatype ItemHeader = ItemHeader(ksize: uint64, vsize: uint64, cfid: uint32)

  /** `kv_entry_info`: where the parts of the record starting at some offset lie. */
  datatype KvEntryInfo = KvEntryInfo(ksize: nat, vsize: nat, keyOffset: nat, valueOffset: nat, size: nat)

  /** A record as a writer frames it: key, value and column family. */
  datatype Record = Record(key: seq<byte>, value: seq<byte>, cfid: uint32)

  // ---------------------------------------------------------------------------
  // Fixed-width little-endian integers

  function Pow256(n: nat): (p: nat)
    ensures p >= 1
  {
    if n == 0 then 1 else 256 * Pow256(n - 1)
  }

  /** The `n` low-order bytes of `x`, least significant first. */
  function EncodeLE(x: nat, n: nat): (r: seq<byte>)
    requires x < Pow256(n)
    ensures |r| == n
  {
    if n == 0 then [] else [x % 256] + EncodeLE(x / 256, n - 1)
  }

  /** The unsigned integer whose little-endian bytes are `s`. */
  function DecodeLE(s: seq<byte>): (r: nat)
    ensures r < Pow256(|s|)
  {
    if s == [] then 0 else s[0] + 256 * DecodeLE(s[1..])
  }

  lemma {:induction false} DecodeEncodeLE(x: nat, n: nat)
    requires x < Pow256(n)
    ensures DecodeLE(EncodeLE(x, n)) == x
  {
    if n > 0 {
      var low, high := x % 256, x / 256;
      assert x == 256 * high + low;
      var r := EncodeLE(x, n);
      assert r[0] == low;
      assert r[1..] == EncodeLE(high, n - 1);
      DecodeEncodeLE(high, n - 1);
      assert DecodeLE(r) == low + 256 * high;
    }
  }

  lemma {:induction false} EncodeDecodeLE(s: seq<byte>)
    ensures EncodeLE(DecodeLE(s), |s|) == s
  {
    if s != [] {
      var low, high := s[0], DecodeLE(s[1..]);
      var x := DecodeLE(s);
      assert x == low + 256 * high && low < 256;
      assert x % 256 == low && x / 256 == high;
      EncodeDecodeLE(s[1..]);
    }
  }

  lemma WidthLimits()
    ensures Pow256(4) == U32_LIMIT && Pow256(8) == U64_LIMIT
  {
  }

  // ---------------------------------------------------------------------------
  // The header

  const PADDING: seq<byte> := [0, 0, 0, 0]

  /** The header as it lies on disk; the padding bytes are written as zero. */
  function EncodeHeader(h: ItemHeader): (r: seq<byte>)
    ensures |r| == HEADER_SIZE
  {
    WidthLimits();
    EncodeLE(h.ksize, 8) + EncodeLE(h.vsize, 8) + EncodeLE(h.cfid, 4) + PADDING
  }

  /** Reads the header from exactly `sizeof(item_header)` bytes. The padding is
      not looked at; every other byte is kept, since encoding the result gives
      back the first 20 bytes followed by zero padding. */
  function DecodeHeader(b: seq<byte>): (h: ItemHeader)
    requires |b| == HEADER_SIZE
    ensures EncodeHeader(h) == b[..PADDING_AT] + PADDING
  {
    assert b[..PADDING_AT] == b[KSIZE_AT..VSIZE_AT] + b[VSIZE_AT..CFID_AT] + b[CFID_AT..PADDING_AT];
    EncodeDecodeLE(b[KSIZE_AT..VSIZE_AT]);
    EncodeDecodeLE(b[VSIZE_AT..CFID_AT]);
    EncodeDecodeLE(b[CFID_AT..PADDING_AT]);
    WidthLimits();
    ItemHeader(DecodeLE(b[KSIZE_AT..VSIZE_AT]), DecodeLE(b[VSIZE_AT..CFID_AT]), DecodeLE(b[CFID_AT..PADDING_AT]))
  }

  lemma HeaderRoundTrip(h: ItemHeader)
    ensures DecodeHeader(EncodeHeader(h)) == h
  {
    WidthLimits();
    var b := EncodeHeader(h);
    assert b[KSIZE_AT..VSIZE_AT] == EncodeLE(h.ksize, 8);
    assert b[VSIZE_AT..CFID_AT] == EncodeLE(h.vsize, 8);
    assert b[CFID_AT..PADDING_AT] == EncodeLE(h.cfid, 4);
    DecodeEncodeLE(h.ksize, 8);
    DecodeEncodeLE(h.vsize, 8);
    DecodeEncodeLE(h.cfid, 4);
  }

  /** Two blocks that agree outside the padding decode to the same header. */
  lemma DecodeIgnoresPadding(b1: seq<byte>, b2: seq<byte>)
    requires |b1| == |b2| == HEADER_SIZE
    requires b1[..PADDING_AT] == b2[..PADDING_AT]
    ensures DecodeHeader(b1) == DecodeHeader(b2)
  {
    assert b1[KSIZE_AT..VSIZE_AT] == b1[..PADDING_AT][KSIZE_AT..VSIZE_AT];
    assert b2[KSIZE_AT..VSIZE_AT] == b2[..PADDING_AT][KSIZE_AT..VSIZE_AT];
    assert b1[VSIZE_AT..CFID_AT] == b1[..PADDING_AT][VSIZE_AT..CFID_AT];
    assert b2[VSIZE_AT..CFID_AT] == b2[..PADDING_AT][VSIZE_AT..CFID_AT];
    assert b1[CFID_AT..PADDING_AT] == b1[..PADDING_AT][CFID_AT..PADDING_AT];
    assert b2[CFID_AT..PADDING_AT] == b2[..PADDING_AT][CFID_AT..PADDING_AT];
  }

  // ---------------------------------------------------------------------------
  // Records and entries

  predicate WellSized(r: Record)
  {
    |r.key| < U64_LIMIT && |r.value| < U64_LIMIT
  }

  /** Header, then key, then value. */
  function EncodeRecord(r: Record): (b: seq<byte>)
    requires WellSized(r)
    ensures |b| == HEADER_SIZE + |r.key| + |r.value|
  {
    EncodeHeader(ItemHeader(|r.key|, |r.value|, r.cfid)) + r.key + r.value
  }

  /** The `kv_entry_info` of a record whose header `h` starts at `offset`. */
  function EntryAt(offset: nat, h: ItemHeader): (e: KvEntryInfo)
    ensures e.ksize == h.ksize && e.vsize == h.vsize
    // header, key and value tile [offset, offset + size) in this order
    ensures e.keyOffset == offset + HEADER_SIZE
    ensures e.valueOffset == e.keyOffset + e.ksize
    ensures offset + e.size == e.valueOffset + e.vsize
  {
    KvEntryInfo(h.ksize, h.vsize, offset + HEADER_SIZE, offset + HEADER_SIZE + h.ksize,
                HEADER_SIZE + h.ksize + h.vsize)
  }

  /** A full header can be read at `offset` and the key and value it announces
      lie inside `file`. */
  predicate RecordFits(file: seq<byte>, offset: nat)
  {
    offset + HEADER_SIZE <= |file| &&
    var h := DecodeHeader(file[offset..offset + HEADER_SIZE]);
    offset + HEADER_SIZE + h.ksize + h.vsize <= |file|
  }

  function HeaderIn(file: seq<byte>, offset: nat): ItemHeader
    requires offset + HEADER_SIZE <= |file|
  {
    DecodeHeader(file[offset..offset + HEADER_SIZE])
  }

  function EntryIn(file: seq<byte>, offset: nat): KvEntryInfo
    requires offset + HEADER_SIZE <= |file|
  {
    EntryAt(offset, HeaderIn(file, offset))
  }

  function KeyAt(file: seq<byte>, offset: nat): seq<byte>
    requires RecordFits(file, offset)
  {
    var e := EntryIn(file, offset);
    file[e.keyOffset..e.valueOffset]
  }

  function ValueAt(file: seq<byte>, offset: nat): seq<byte>
    requires RecordFits(file, offset)
  {
    var e := EntryIn(file, offset);
    file[e.valueOffset..e.valueOffset + e.vsize]
  }

  /** Reading back a record framed anywhere in a file: the header gives its
      sizes and column family, the key and value come back unchanged, and the
      stride `size` lands exactly on the bytes that follow the record. */
  lemma RecordRoundTrip(pre: seq<byte>, r: Record, post: seq<byte>)
    requires WellSized(r)
    ensures var file := pre + EncodeRecord(r) + post;
            var o := |pre|;
            RecordFits(file, o) &&
            HeaderIn(file, o) == ItemHeader(|r.key|, |r.value|, r.cfid) &&
            EntryIn(file, o) == KvEntryInfo(|r.key|, |r.value|, o + HEADER_SIZE, o + HEADER_SIZE + |r.key|, |EncodeRecord(r)|) &&
            KeyAt(file, o) == r.key &&
            ValueAt(file, o) == r.value &&
            file[o + EntryIn(file, o).size..] == post
  {
    var h := ItemHeader(|r.key|, |r.value|, r.cfid);
    var file := pre + EncodeRecord(r) + post;
    var o := |pre|;
    RecordSlices(pre, r, post);
    HeaderRoundTrip(h);
    assert HeaderIn(file, o) == h;
  }

  /** Where the header, the key, the value and what follows lie in a file that
      holds a framed record after `pre`. */
  lemma RecordSlices(pre: seq<byte>, r: Record, post: seq<byte>)
    requires WellSized(r)
    ensures var file := pre + EncodeRecord(r) + post;
            var k := |pre| + HEADER_SIZE;
            var v := k + |r.key|;
            file[|pre|..k] == EncodeHeader(ItemHeader(|r.key|, |r.value|, r.cfid)) &&
            file[k..v] == r.key &&
            file[v..v + |r.value|] == r.value &&
            file[v + |r.value|..] == post
  {
    var hb := EncodeHeader(ItemHeader(|r.key|, |r.value|, r.cfid));
    var file := pre + EncodeRecord(r) + post;
    assert file == pre + hb + (r.key + r.value + post);
    Slice(pre, hb, r.key + r.value + post);
    assert file == (pre + hb) + r.key + (r.value + post);
    Slice(pre + hb, r.key, r.value + post);
    assert file == (pre + hb + r.key) + r.value + post;
    Slice(pre + hb + r.key, r.value, post);
  }

  /** The middle and the last part of a three-part sequence. */
  lemma Slice(a: seq<byte>, b: seq<byte>, c: seq<byte>)
    ensures (a + b + c)[|a|..|a| + |b|] == b
    ensures (a + b + c)[|a| + |b|..] == c
  {
  }

  // ---------------------------------------------------------------------------
  // A log as the concatenation of appended payloads

  function Concat(ps: seq<seq<byte>>): seq<byte>
  {
    if ps == [] then [] else Concat(ps[..|ps| - 1]) + ps[|ps| - 1]
  }

  /** Where payload `i` begins: the total length of the payloads before it. */
  function Start(ps: seq<seq<byte>>, i: nat): nat
    requires i <= |ps|
  {
    |Concat(ps[..i])|
  }

  lemma {:induction false} ConcatAppendAll(a: seq<seq<byte>>, b: seq<seq<byte>>)
    ensures Concat(a + b) == Concat(a) + Concat(b)
  {
    if b != [] {
      var b' := b[..|b| - 1];
      assert (a + b)[..|a + b| - 1] == a + b';
      assert (a + b)[|a + b| - 1] == b[|b| - 1];
      ConcatAppendAll(a, b');
      calc {
        Concat(a + b);
        Concat(a + b') + b[|b| - 1];
        Concat(a) + Concat(b') + b[|b| - 1];
        Concat(a) + Concat(b);
      }
    } else {
      assert a + b == a;
    }
  }

  /** Payload `i` sits at `Start(ps, i)`, between the payloads before it and
      those after it. */
  lemma ConcatSplit(ps: seq<seq<byte>>, i: nat)
    requires i < |ps|
    ensures Concat(ps) == Concat(ps[..i]) + ps[i] + Concat(ps[i + 1..])
  {
    var before, single, after := ps[..i], [ps[i]], ps[i + 1..];
    var rest := ps[i..];
    assert ps == before + rest;
    assert rest == single + after;
    ConcatAppendAll(before, rest);
    ConcatAppendAll(single, after);
    ConcatSingle(ps[i]);
    assert Concat(rest) == ps[i] + Concat(after);
    assert Concat(ps) == Concat(before) + Concat(rest);
  }

  lemma ConcatSingle(p: seq<byte>)
    ensures Concat([p]) == p
  {
    assert [p][..0] == [];
  }

  lemma StartStep(ps: seq<seq<byte>>, i: nat)
    requires i < |ps|
    ensures Start(ps, i + 1) == Start(ps, i) + |ps[i]|
  {
    assert ps[..i + 1][..i] == ps[..i];
  }

  /** Appending a payload extends the log by exactly that payload and moves
      no earlier record. */
  lemma ConcatSnoc(ps: seq<seq<byte>>, d: seq<byte>)
    ensures Concat(ps + [d]) == Concat(ps) + d
    ensures forall i :: 0 <= i <= |ps| ==> Start(ps + [d], i) == Start(ps, i)
  {
    assert (ps + [d])[..|ps|] == ps;
    forall i | 0 <= i <= |ps|
      ensures Start(ps + [d], i) == Start(ps, i)
    {
      assert (ps + [d])[..i] == ps[..i];
    }
  }

  lemma {:induction false} StartMonotone(ps: seq<seq<byte>>, i: nat, j: nat)
    requires i <= j <= |ps|
    ensures Start(ps, i) <= Start(ps, j)
    ensures (forall k :: i <= k < j ==> |ps[k]| > 0) ==> Start(ps, i) + (j - i) <= Start(ps, j)
  {
    if i < j {
      StartStep(ps, j - 1);
      StartMonotone(ps, i, j - 1);
    }
  }

  /** The `i`-th record of a log whose payloads are all framed records can be
      read back at `Start(ps, i)`, and its stride leads to the next record. */
  lemma RecordInLog(ps: seq<seq<byte>>, i: nat, r: Record)
    requires i < |ps| && WellSized(r) && ps[i] == EncodeRecord(r)
    ensures RecordFits(Concat(ps), Start(ps, i))
    ensures ValueAt(Concat(ps), Start(ps, i)) == r.value
    ensures KeyAt(Concat(ps), Start(ps, i)) == r.key
    ensures Start(ps, i) + EntryIn(Concat(ps), Start(ps, i)).size == Start(ps, i + 1)
  {
    ConcatSplit(ps, i);
    RecordRoundTrip(Concat(ps[..i]), r, Concat(ps[i + 1..]));
    StartStep(ps, i);
  }
}
