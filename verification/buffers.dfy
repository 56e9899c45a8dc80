/** Byte buffers as the browser code sees them: an ArrayBuffer is a finite
    sequence of bytes, read through a DataView (which throws a RangeError on a
    read or write past the end) and written through a Uint8Array (whose
    out-of-range element stores are silently dropped, but whose `set` throws a
    RangeError when the source does not fit). */
module Buffers {

  type byte = x: int | 0 <= x < 0x100
  type u16 = x: int | 0 <= x < 0x1_0000
  type u32 = x: int | 0 <= x < 0x1_0000_0000
  type Bytes = seq<byte>

  /** Result of a step that either yields a value or throws a RangeError. */
  datatype Outcome<T> = Ok(value: T) | RangeError

  function Min(a: int, b: int): int {
    if a <= b then a else b
  }

  // ---------------------------------------------------------------------
  // DataView reads

  function ReadU16LE(b: Bytes, off: nat): u16
    requires off + 2 <= |b|
  {
    b[off] as int + 0x100 * b[off + 1] as int
  }

  function ReadU32LE(b: Bytes, off: nat): u32
    requires off + 4 <= |b|
  {
    b[off] as int + 0x100 * b[off + 1] as int + 0x1_0000 * b[off + 2] as int
      + 0x100_0000 * b[off + 3] as int
  }

  function ReadU32BE(b: Bytes, off: nat): u32
    requires off + 4 <= |b|
  {
    0x100_0000 * b[off] as int + 0x1_0000 * b[off + 1] as int + 0x100 * b[off + 2] as int
      + b[off + 3] as int
  }

  // ---------------------------------------------------------------------
  // Encodings of a 32-bit value, and their round trips with the readers

  /** The four bytes DataView.setUint32(_, v, true) writes. */
  function EncodeU32LE(v: u32): (r: Bytes)
    ensures |r| == 4
    ensures ReadU32LE(r, 0) == v
  {
    var q1 := v / 0x100;
    var q2 := q1 / 0x100;
    var q3 := q2 / 0x100;
    [v % 0x100, q1 % 0x100, q2 % 0x100, q3]
  }

  /** The four bytes DataView.setUint32(_, v, false) writes. */
  function EncodeU32BE(v: u32): (r: Bytes)
    ensures |r| == 4
    ensures ReadU32BE(r, 0) == v
  {
    var q1 := v / 0x100;
    var q2 := q1 / 0x100;
    var q3 := q2 / 0x100;
    [q3, q2 % 0x100, q1 % 0x100, v % 0x100]
  }

  /** Decoding four bytes and encoding the value again gives back the bytes. */
  lemma {:induction false} EncodeReadU32LE(b: Bytes, off: nat)
    requires off + 4 <= |b|
    ensures EncodeU32LE(ReadU32LE(b, off)) == b[off..off + 4]
  {
    var v := ReadU32LE(b, off);
    var t: int := b[off + 1] as int + 0x100 * b[off + 2] as int + 0x1_0000 * b[off + 3] as int;
    assert v == b[off] as int + 0x100 * t;
    assert v / 0x100 == t && v % 0x100 == b[off];
    var t2: int := b[off + 2] as int + 0x100 * b[off + 3] as int;
    assert t == b[off + 1] as int + 0x100 * t2;
    assert t / 0x100 == t2 && t % 0x100 == b[off + 1];
    assert t2 / 0x100 == b[off + 3] && t2 % 0x100 == b[off + 2];
  }

  /** Big-endian counterpart of EncodeReadU32LE. */
  lemma {:induction false} EncodeReadU32BE(b: Bytes, off: nat)
    requires off + 4 <= |b|
    ensures EncodeU32BE(ReadU32BE(b, off)) == b[off..off + 4]
  {
    var v := ReadU32BE(b, off);
    var t: int := 0x1_0000 * b[off] as int + 0x100 * b[off + 1] as int + b[off + 2] as int;
    assert v == b[off + 3] as int + 0x100 * t;
    assert v / 0x100 == t && v % 0x100 == b[off + 3];
    var t2: int := 0x100 * b[off] as int + b[off + 1] as int;
    assert t == b[off + 2] as int + 0x100 * t2;
    assert t / 0x100 == t2 && t % 0x100 == b[off + 2];
    assert t2 / 0x100 == b[off] && t2 % 0x100 == b[off + 1];
  }

  // ---------------------------------------------------------------------
  // Writes

  /** A fresh ArrayBuffer of n bytes, all zero. */
  function Zeros(n: nat): (r: Bytes)
    ensures |r| == n
    ensures forall i | 0 <= i < n :: r[i] == 0
  {
    seq(n, _ => 0)
  }

  /** DataView.setUint32(off, v, true) on a buffer long enough for it. */
  function StoreU32LE(d: Bytes, off: nat, v: u32): (r: Bytes)
    requires off + 4 <= |d|
    ensures |r| == |d|
    ensures ReadU32LE(r, off) == v
    ensures forall i | 0 <= i < |d| ::
      r[i] == if off <= i < off + 4 then EncodeU32LE(v)[i - off] else d[i]
  {
    d[..off] + EncodeU32LE(v) + d[off + 4..]
  }

  /** DataView.setUint32(off, v, false) on a buffer long enough for it. */
  function StoreU32BE(d: Bytes, off: nat, v: u32): (r: Bytes)
    requires off + 4 <= |d|
    ensures |r| == |d|
    ensures ReadU32BE(r, off) == v
    ensures forall i | 0 <= i < |d| ::
      r[i] == if off <= i < off + 4 then EncodeU32BE(v)[i - off] else d[i]
  {
    d[..off] + EncodeU32BE(v) + d[off + 4..]
  }

  /** A Uint8Array element store: silently dropped when out of range. */
  function StoreByte(d: Bytes, i: nat, x: byte): (r: Bytes)
    ensures |r| == |d|
    ensures forall k | 0 <= k < |d| :: r[k] == if k == i then x else d[k]
  {
    if i < |d| then d[i := x] else d
  }

  /** TypedArray.prototype.set(src, at) for a source that fits. */
  function Blit(dst: Bytes, src: Bytes, at: nat): (r: Bytes)
    requires at + |src| <= |dst|
    ensures |r| == |dst|
    ensures forall i | 0 <= i < |dst| ::
      r[i] == if at <= i < at + |src| then src[i - at] else dst[i]
  {
    dst[..at] + src + dst[at + |src|..]
  }

  /** Uint8Array.prototype.subarray(begin, end): both ends are clamped to
      the buffer, and an empty view results when they cross. */
  function Subarray(b: Bytes, begin: nat, end: nat): (r: Bytes)
    ensures end < begin ==> r == []
    ensures begin <= end ==> |r| == Min(end, |b|) - Min(begin, |b|)
    ensures forall k | 0 <= k < |r| :: begin + k < |b| && r[k] == b[begin + k]
  {
    var s := Min(begin, |b|);
    var e := Min(end, |b|);
    if e <= s then [] else b[s..e]
  }

  // ---------------------------------------------------------------------
  // Record offsets. `Span(base, len, i)` is `base + i * len`, built up one
  // record at a time so that the reasoning about it stays linear;
  // SpanProduct states the closed form.

  function Span(base: nat, len: nat, i: nat): (r: nat)
    ensures base <= r
  {
    if i == 0 then base else Span(base, len, i - 1) + len
  }

  lemma {:induction false} SpanProduct(base: nat, len: nat, i: nat)
    ensures Span(base, len, i) == base + i * len
  {
    if i > 0 {
      SpanProduct(base, len, i - 1);
      assert (i - 1) * len + len == i * len;
    }
  }

  /** Records of no bytes take no room. */
  lemma {:induction false} SpanOfEmpty(base: nat, i: nat)
    ensures Span(base, 0, i) == base
  {
    if i > 0 {
      SpanOfEmpty(base, i - 1);
    }
  }

  /** The span from `base` is the span from 0, moved to `base`. */
  lemma {:induction false} SpanShift(base: nat, len: nat, i: nat)
    ensures Span(base, len, i) == base + Span(0, len, i)
  {
    if i > 0 {
      SpanShift(base, len, i - 1);
    }
  }

  /** i + j records from `base` end where j records from the end of the
      first i end. */
  lemma {:induction false} SpanSplit(base: nat, len: nat, i: nat, j: nat)
    ensures Span(base, len, i + j) == Span(Span(base, len, i), len, j)
  {
    if j > 0 {
      SpanSplit(base, len, i, j - 1);
    }
  }

  /** Slot j ends no later than slot k starts, for j < k. */
  lemma {:induction false} SpanOrdered(base: nat, len: nat, j: nat, k: nat)
    requires j < k
    ensures Span(base, len, j) + len <= Span(base, len, k)
  {
    if j + 1 < k {
      SpanOrdered(base, len, j, k - 1);
    }
  }

  /** Taking the span of k records off a size and adding it back restores
      the size. */
  lemma {:induction false} SpanRestore(len: nat, size: nat, k: nat)
    ensures Span(0, len, k) <= size ==> Span(size - Span(0, len, k), len, k) == size
  {
    if Span(0, len, k) <= size {
      SpanShift(size - Span(0, len, k), len, k);
    }
  }

  /** When `total` records from `base` fit in `size`, the first `keep` of
      them fit in what remains after removing the other `total - keep`. */
  lemma {:induction false} SpanPrefix(base: nat, len: nat, size: nat, keep: nat, total: nat)
    requires keep < total
    ensures Span(base, len, total) <= size ==> Span(base, len, keep) <= size - Span(0, len, total - keep)
  {
    SpanSplit(base, len, keep, total - keep);
    SpanShift(Span(base, len, keep), len, total - keep);
  }

  // ---------------------------------------------------------------------
  // The record-copy loop shared by the attribute and index patchers:
  //   for (i = 0; i < count; i++)
  //     dst.set(src.subarray(base + i*len, base + i*len + len), base + i*len)

  /** One past the last byte that copying record i writes (the clamped
      subarray may be short, or empty past the end of the source). */
  function ChunkEnd(srcLen: nat, base: nat, len: nat, i: nat): nat {
    var at := Span(base, len, i);
    if at >= srcLen then at else Min(at + len, srcLen)
  }

  /** The last of `count` records ends within any bound on their span. */
  lemma {:induction false} ChunkEndWithin(srcLen: nat, base: nat, len: nat, count: nat, bound: nat)
    requires 0 < count && Span(base, len, count) <= bound
    ensures ChunkEnd(srcLen, base, len, count - 1) <= bound
  {
  }

  function CopyRecords(dst: Bytes, src: Bytes, base: nat, len: nat, count: nat): (r: Outcome<Bytes>)
    ensures r.Ok? <==> count == 0 || ChunkEnd(|src|, base, len, count - 1) <= |dst|
    ensures r.Ok? ==> |r.value| == |dst|
    ensures r.Ok? ==> forall i | 0 <= i < |dst| ::
      r.value[i] == if base <= i < Span(base, len, count) && i < |src| then src[i] else dst[i]
  {
    if count == 0 then Ok(dst)
    else
      match CopyRecords(dst, src, base, len, count - 1)
      case RangeError =>
        // an earlier record already did not fit, so neither does the last
        assert ChunkEnd(|src|, base, len, count - 2) <= ChunkEnd(|src|, base, len, count - 1);
        RangeError
      case Ok(d) =>
        var at := Span(base, len, count - 1);
        var chunk := Subarray(src, at, at + len);
        if at + |chunk| > |d| then RangeError
        else
          CopyStep(dst, src, d, base, at, len, chunk);
          Ok(Blit(d, chunk, at))
  }

  /** The shrinking copy shared by the attribute and index patchers: a
      zero-filled buffer of `size` bytes receives the first `h` bytes of
      `src` (the header), then the first `count` records of `len` bytes
      after it, each step throwing when its bytes do not fit. */
  function KeepRecords(src: Bytes, size: nat, h: nat, len: nat, count: nat): (r: Outcome<Bytes>)
    ensures r.Ok? <==> Min(h, |src|) <= size && (count == 0 || ChunkEnd(|src|, h, len, count - 1) <= size)
    ensures r.Ok? ==> |r.value| == size
    ensures r.Ok? ==> forall i | 0 <= i < size ::
      r.value[i] == if i < Span(h, len, count) && i < |src| then src[i] else 0
  {
    var header := Subarray(src, 0, h);
    if |header| > size then RangeError
    else
      var withHeader := Blit(Zeros(size), header, 0);
      match CopyRecords(withHeader, src, h, len, count)
      case RangeError => RangeError
      case Ok(d) =>
        KeepRecordsLayout(src, size, h, len, count, header, withHeader, d);
        Ok(d)
  }

  lemma {:induction false} KeepRecordsLayout(src: Bytes, size: nat, h: nat, len: nat, count: nat,
                                             header: Bytes, withHeader: Bytes, d: Bytes)
    requires header == Subarray(src, 0, h) && |header| <= size
    requires withHeader == Blit(Zeros(size), header, 0)
    requires |d| == size
    requires forall i | 0 <= i < |withHeader| ::
      d[i] == if h <= i < Span(h, len, count) && i < |src| then src[i] else withHeader[i]
    ensures forall i | 0 <= i < size ::
      d[i] == if i < Span(h, len, count) && i < |src| then src[i] else 0
  {
    forall i | 0 <= i < size
      ensures withHeader[i] == if i < Min(h, |src|) then src[i] else 0
    {
    }
  }

  /** One iteration of the copy loop extends the copied span [base, at) by
      the record at `at`, clamped to the source. */
  lemma {:induction false} CopyStep(dst: Bytes, src: Bytes, d: Bytes, base: nat, at: nat, len: nat, chunk: Bytes)
    requires base <= at && |d| == |dst|
    requires forall i | 0 <= i < |dst| ::
      d[i] == if base <= i < at && i < |src| then src[i] else dst[i]
    requires chunk == Subarray(src, at, at + len)
    requires at + |chunk| <= |d|
    ensures forall i | 0 <= i < |dst| ::
      Blit(d, chunk, at)[i] == if base <= i < at + len && i < |src| then src[i] else dst[i]
  {
    var r := Blit(d, chunk, at);
    forall i | 0 <= i < |dst|
      ensures r[i] == if base <= i < at + len && i < |src| then src[i] else dst[i]
    {
      if at <= i < at + |chunk| {
        assert r[i] == chunk[i - at] == src[i];
      }
    }
  }
}
