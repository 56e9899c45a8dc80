/** The dBASE attribute table (.dbf) as the restorer reads and rewrites it:
    the record count (u32, little-endian, byte 4), the header length (u16,
    little-endian, byte 8) and the record length (u16, little-endian, byte 10);
    record i occupies `[headerLength + i*recordLength, headerLength + (i+1)*recordLength)`.
    A record whose first byte is a space (0x20) is not deleted. */
module Dbf {
  import opened Buffers
  import opened Planner

  const RecordCountOffset: nat := 4
  const HeaderLengthOffset: nat := 8
  const RecordLengthOffset: nat := 10
  /** Bytes a DataView must reach to read the three header fields. */
  const HeaderFieldsEnd: nat := 12
  /** The byte every added record is filled with: the "not deleted" flag. */
  const Blank: byte := 0x20

  datatype DbfHeader = DbfHeader(recordCount: u32, headerLength: u16, recordLength: u16)

  function HeaderLength(b: Bytes): u16
    requires HeaderFieldsEnd <= |b|
  {
    ReadU16LE(b, HeaderLengthOffset)
  }

  function RecordLength(b: Bytes): u16
    requires HeaderFieldsEnd <= |b|
  {
    ReadU16LE(b, RecordLengthOffset)
  }

  /** analyzeDbfFile: the three header fields, or a RangeError when the
      buffer is too short for any of them. */
  function ReadDbfHeader(b: Bytes): (h: Outcome<DbfHeader>)
    ensures h.Ok? <==> |b| >= HeaderFieldsEnd
    ensures h.Ok? ==> h.value.recordCount == ReadU32LE(b, RecordCountOffset)
    ensures h.Ok? ==>
      h.value.headerLength == HeaderLength(b) && h.value.recordLength == RecordLength(b)
  {
    if |b| < HeaderFieldsEnd then RangeError
    else Ok(DbfHeader(ReadU32LE(b, RecordCountOffset), HeaderLength(b), RecordLength(b)))
  }

  /** `this.dbfRecords`: the header's count, or 0 after a read failure. */
  function RecordsOrZero(h: Outcome<DbfHeader>): u32 {
    if h.Ok? then h.value.recordCount else 0
  }

  /** Offset of record i: `headerLength + i * recordLength` (see Span). */
  function RecordOffset(b: Bytes, i: nat): nat
    requires HeaderFieldsEnd <= |b|
  {
    Span(HeaderLength(b), RecordLength(b), i)
  }

  // ---------------------------------------------------------------------
  // The padding loop of the add case:
  //   for each new record: newData[off] = 0x20; for (j = 1; j < len; j++) newData[off + j] = 0x20
  // Stores past the end are dropped by the Uint8Array.

  /** One past the last byte the padding of n records from `start` covers.
      The first byte of each record is written even when `len` is 0. */
  function PaddingEnd(start: nat, len: nat, n: nat): nat {
    if n == 0 then start else if len == 0 then start + 1 else Span(start, len, n)
  }

  /** The inner loop: bytes `off + j .. off + len - 1`. */
  function FillRecordTail(d: Bytes, off: nat, len: nat, j: nat): (r: Bytes)
    ensures |r| == |d|
    ensures forall i | 0 <= i < |d| :: r[i] == if off + j <= i < off + len then Blank else d[i]
    decreases len - j
  {
    if j >= len then d
    else FillRecordTail(StoreByte(d, off + j, Blank), off, len, j + 1)
  }

  /** The outer loop over the first n new records. */
  function PadRecords(d: Bytes, start: nat, len: nat, n: nat): (r: Bytes)
    ensures |r| == |d|
    ensures forall i | 0 <= i < |d| ::
      r[i] == if start <= i < PaddingEnd(start, len, n) then Blank else d[i]
  {
    if n == 0 then d
    else
      var before := PadRecords(d, start, len, n - 1);
      if len == 0 then
        // every record starts at `start`: only its first byte is written
        StoreByte(before, start, Blank)
      else
        var off := Span(start, len, n - 1);
        FillRecordTail(StoreByte(before, off, Blank), off, len, 1)
  }

  // ---------------------------------------------------------------------
  // repairDbfFile

  /** The bytes of the add case: the original bytes with the geometry
      count at offset 4, zeros after them, and blank bytes from the offset
      of record `attributes` to the end of the padding. */
  predicate AddedLayout(b: Bytes, r: Bytes, geometry: u32, attributes: u32)
    requires HeaderFieldsEnd <= |b| && attributes < geometry
  {
    var start := RecordOffset(b, attributes);
    forall i | 0 <= i < |r| ::
      r[i] == if start <= i < PaddingEnd(start, RecordLength(b), geometry - attributes) then Blank
              else if RecordCountOffset <= i < RecordCountOffset + 4
                then EncodeU32LE(geometry)[i - RecordCountOffset]
              else if i < |b| then b[i]
              else 0
  }

  /** The add case: a zero-filled buffer `n * recordLength` bytes longer
      receives the original bytes, then the geometry count at offset 4, then
      n blank records from the offset of record `attributes`. */
  function AddRecords(b: Bytes, geometry: u32, attributes: u32): (r: Bytes)
    requires HeaderFieldsEnd <= |b| && attributes < geometry
    ensures |b| <= |r| == Span(|b|, RecordLength(b), geometry - attributes)
    ensures AddedLayout(b, r, geometry, attributes)
  {
    var n := geometry - attributes;
    var len := RecordLength(b);
    var start := RecordOffset(b, attributes);
    var grown := Blit(Zeros(Span(|b|, len, n)), b, 0);
    var counted := StoreU32LE(grown, RecordCountOffset, geometry);
    var r := PadRecords(counted, start, len, n);
    AddRecordsLayout(b, geometry, attributes, counted, r);
    r
  }

  /** The layout of the add case: the padding over the grown, re-counted
      buffer. */
  lemma {:induction false} AddRecordsLayout(b: Bytes, geometry: u32, attributes: u32, counted: Bytes, r: Bytes)
    requires HeaderFieldsEnd <= |b| && attributes < geometry
    requires forall i | 0 <= i < |counted| ::
      counted[i] == if RecordCountOffset <= i < RecordCountOffset + 4
                      then EncodeU32LE(geometry)[i - RecordCountOffset]
                    else if i < |b| then b[i] else 0
    requires |r| == |counted|
    requires var start := RecordOffset(b, attributes);
      forall i | 0 <= i < |counted| ::
        r[i] == if start <= i < PaddingEnd(start, RecordLength(b), geometry - attributes) then Blank
                else counted[i]
    ensures AddedLayout(b, r, geometry, attributes)
  {
  }

  /** What the add-case layout implies: the count field holds the geometry
      count when the records start after it, the new records are blank, and
      the bytes before them are kept apart from the count field. */
  lemma {:induction false} AddedLayoutFacts(b: Bytes, r: Bytes, geometry: u32, attributes: u32)
    requires HeaderFieldsEnd <= |b| <= |r| && attributes < geometry
    requires AddedLayout(b, r, geometry, attributes)
    ensures var start := RecordOffset(b, attributes);
      start >= RecordCountOffset + 4 ==> ReadU32LE(r, RecordCountOffset) == geometry
    ensures var start := RecordOffset(b, attributes);
      forall i | start <= i < Span(start, RecordLength(b), geometry - attributes) && i < |r| ::
        r[i] == Blank
    ensures var start := RecordOffset(b, attributes);
      forall i | 0 <= i < start && i < |b| && !(RecordCountOffset <= i < RecordCountOffset + 4) ::
        r[i] == b[i]
  {
    var start := RecordOffset(b, attributes);
    var len, n := RecordLength(b), geometry - attributes;
    if len == 0 {
      SpanOfEmpty(start, n);
    }
    assert Span(start, len, n) <= PaddingEnd(start, len, n);
    if start >= RecordCountOffset + 4 {
      var e := EncodeU32LE(geometry);
      assert r[4] == e[0] && r[5] == e[1] && r[6] == e[2] && r[7] == e[3];
    }
  }

  /** The bytes of the remove case: the original bytes up to the offset
      of record `geometry` with the geometry count at offset 4, and zeros
      after them. */
  predicate RemovedLayout(b: Bytes, r: Bytes, geometry: u32)
    requires HeaderFieldsEnd <= |b|
  {
    forall i | 0 <= i < |r| ::
      r[i] == if RecordCountOffset <= i < RecordCountOffset + 4
                then EncodeU32LE(geometry)[i - RecordCountOffset]
              else if i < RecordOffset(b, geometry) && i < |b| then b[i]
              else 0
  }

  /** The remove case: a zero-filled buffer `(attributes - geometry) *
      recordLength` bytes shorter receives the header, then the first
      `geometry` records, then the geometry count at offset 4. Any step that
      does not fit throws; when the declared records lie inside the buffer,
      only a result shorter than 8 bytes does. */
  function RemoveRecords(b: Bytes, geometry: u32, attributes: u32): (r: Outcome<Bytes>)
    requires HeaderFieldsEnd <= |b| && geometry < attributes
    ensures r.Ok? ==>
      Span(|r.value|, RecordLength(b), attributes - geometry) == |b| && |r.value| >= RecordCountOffset + 4
    ensures r.Ok? ==> ReadU32LE(r.value, RecordCountOffset) == geometry
    ensures r.Ok? ==> RemovedLayout(b, r.value, geometry)
  {
    var len := RecordLength(b);
    var headerLength := HeaderLength(b);
    var newSize := |b| - Span(0, len, attributes - geometry);
    RemoveArithmetic(headerLength, len, |b|, geometry, attributes);
    if newSize < 0 then RangeError
    else
      match KeepRecords(b, newSize, headerLength, len, geometry)
      case RangeError => RangeError
      case Ok(d) =>
        if |d| < RecordCountOffset + 4 then RangeError
        else Ok(StoreU32LE(d, RecordCountOffset, geometry))
  }

  /** When the declared records lie inside the buffer, the remove case
      throws exactly when the shortened buffer is too short for the count
      field. */
  lemma {:induction false} RemoveRecordsFits(b: Bytes, geometry: u32, attributes: u32)
    requires HeaderFieldsEnd <= |b| && geometry < attributes
    requires RecordOffset(b, attributes) <= |b|
    ensures RemoveRecords(b, geometry, attributes).Ok?
      <==> Span(RecordCountOffset + 4, RecordLength(b), attributes - geometry) <= |b|
  {
    RemoveArithmetic(HeaderLength(b), RecordLength(b), |b|, geometry, attributes);
  }

  /** The sizes of the remove case, over plain numbers (`h` the header
      length, `len` the record length, `size` the buffer length): the
      shortened buffer plus the removed records is the original, and when
      all declared records lie inside the buffer, the header and the kept
      records fit the shortened buffer. */
  lemma {:induction false} RemoveArithmetic(h: nat, len: nat, size: nat, geometry: nat, attributes: nat)
    requires geometry < attributes
    ensures var removed := Span(0, len, attributes - geometry);
      && (removed <= size ==> Span(size - removed, len, attributes - geometry) == size)
      && Span(RecordCountOffset + 4, len, attributes - geometry) == RecordCountOffset + 4 + removed
    ensures var removed := Span(0, len, attributes - geometry);
      Span(h, len, attributes) <= size ==>
      && Span(h, len, geometry) <= size - removed
      && (geometry == 0 || ChunkEnd(size, h, len, geometry - 1) <= size - removed)
  {
    var k := attributes - geometry;
    SpanRestore(len, size, k);
    SpanShift(RecordCountOffset + 4, len, k);
    SpanPrefix(h, len, size, geometry, attributes);
    if geometry > 0 && Span(h, len, attributes) <= size {
      ChunkEndWithin(size, h, len, geometry, size - Span(0, len, k));
    }
  }

  /** repairDbfFile: the header fields are read first (a short buffer
      throws in every plan), then the plan chooses the patch. */
  function PatchDbf(b: Bytes, geometry: u32, attributes: u32): (r: Outcome<Bytes>)
    ensures |b| < HeaderFieldsEnd ==> r.RangeError?
    ensures |b| >= HeaderFieldsEnd && geometry == attributes ==> r == Ok(b)
    ensures |b| >= HeaderFieldsEnd && geometry > attributes ==> r == Ok(AddRecords(b, geometry, attributes))
    ensures |b| >= HeaderFieldsEnd && geometry < attributes ==> r == RemoveRecords(b, geometry, attributes)
  {
    if |b| < HeaderFieldsEnd then RangeError
    else
      match Plan(geometry, attributes)
      case NoRepair => Ok(b)
      case AddAttributeRecords(_) => Ok(AddRecords(b, geometry, attributes))
      case RemoveAttributeRecords(_) => RemoveRecords(b, geometry, attributes)
  }

  // ---------------------------------------------------------------------
  // What a repaired table looks like when read again

  /** Slices that agree pointwise on `[lo, hi)` are equal. */
  lemma {:induction false} SameSlice(x: Bytes, y: Bytes, lo: nat, hi: nat)
    requires lo <= hi <= |x| && hi <= |y|
    requires forall i | lo <= i < hi :: x[i] == y[i]
    ensures x[lo..hi] == y[lo..hi]
  {
  }

  /** Record j ends no later than record k starts, for j < k. */
  lemma {:induction false} RecordOrder(b: Bytes, j: nat, k: nat)
    requires HeaderFieldsEnd <= |b| && j < k
    ensures RecordOffset(b, j) + RecordLength(b) <= RecordOffset(b, k)
  {
    SpanOrdered(HeaderLength(b), RecordLength(b), j, k);
  }

  /** Buffers that agree on the record area up to record `count` hold the
      same first `count` records. */
  lemma {:induction false} SameRecords(b: Bytes, r: Bytes, count: nat)
    requires HeaderFieldsEnd <= |b|
    requires RecordOffset(b, count) <= |b| && RecordOffset(b, count) <= |r|
    requires forall i | HeaderLength(b) <= i < RecordOffset(b, count) :: r[i] == b[i]
    ensures forall j | 0 <= j < count ::
      && RecordOffset(b, j) + RecordLength(b) <= |b|
      && RecordOffset(b, j) + RecordLength(b) <= |r|
      && r[RecordOffset(b, j)..RecordOffset(b, j) + RecordLength(b)]
           == b[RecordOffset(b, j)..RecordOffset(b, j) + RecordLength(b)]
  {
    forall j | 0 <= j < count
      ensures RecordOffset(b, j) + RecordLength(b) <= RecordOffset(b, count)
      ensures r[RecordOffset(b, j)..RecordOffset(b, j) + RecordLength(b)]
           == b[RecordOffset(b, j)..RecordOffset(b, j) + RecordLength(b)]
    {
      RecordOrder(b, j, count);
      SameSlice(r, b, RecordOffset(b, j), RecordOffset(b, j) + RecordLength(b));
    }
  }

  /** Adding records keeps every existing record bit-identical, and the
      re-read header has the geometry count and the same layout, when the
      declared records lie inside the buffer after a header of at least 12
      bytes. */
  lemma {:induction false} AddRecordsRereads(b: Bytes, geometry: u32, attributes: u32)
    requires HeaderFieldsEnd <= |b| && attributes < geometry
    requires HeaderLength(b) >= HeaderFieldsEnd && RecordOffset(b, attributes) <= |b|
    ensures var r := AddRecords(b, geometry, attributes);
      ReadDbfHeader(r) == Ok(DbfHeader(geometry, HeaderLength(b), RecordLength(b)))
    ensures var r := AddRecords(b, geometry, attributes);
      forall j | 0 <= j < attributes ::
        && RecordOffset(b, j) + RecordLength(b) <= |b|
        && RecordOffset(b, j) + RecordLength(b) <= |r|
        && r[RecordOffset(b, j)..RecordOffset(b, j) + RecordLength(b)]
             == b[RecordOffset(b, j)..RecordOffset(b, j) + RecordLength(b)]
  {
    var r := AddRecords(b, geometry, attributes);
    AddedLayoutFacts(b, r, geometry, attributes);
    assert HeaderFieldsEnd <= RecordOffset(b, attributes);
    HeaderRereads(b, r, geometry);
    SameRecords(b, r, attributes);
  }

  /** Removing records keeps the first `geometry` records bit-identical at
      their offsets, and the re-read header has the geometry count and the
      same layout, when the declared records lie inside the buffer after a
      header of at least 12 bytes. */
  lemma {:induction false} RemoveRecordsRereads(b: Bytes, geometry: u32, attributes: u32)
    requires HeaderFieldsEnd <= |b| && geometry < attributes
    requires HeaderLength(b) >= HeaderFieldsEnd && RecordOffset(b, attributes) <= |b|
    ensures RemoveRecords(b, geometry, attributes).Ok?
    ensures var r := RemoveRecords(b, geometry, attributes).value;
      ReadDbfHeader(r) == Ok(DbfHeader(geometry, HeaderLength(b), RecordLength(b)))
    ensures var r := RemoveRecords(b, geometry, attributes).value;
      forall j | 0 <= j < geometry ::
        && RecordOffset(b, j) + RecordLength(b) <= |b|
        && RecordOffset(b, j) + RecordLength(b) <= |r|
        && r[RecordOffset(b, j)..RecordOffset(b, j) + RecordLength(b)]
             == b[RecordOffset(b, j)..RecordOffset(b, j) + RecordLength(b)]
  {
    RemoveRecordsFits(b, geometry, attributes);
    RemoveArithmetic(HeaderLength(b), RecordLength(b), |b|, geometry, attributes);
    RemovedRereads(b, RemoveRecords(b, geometry, attributes).value, geometry, attributes);
  }

  /** A buffer with the remove-case layout and size re-reads with the
      geometry count and keeps the first `geometry` records. */
  lemma {:induction false} RemovedRereads(b: Bytes, r: Bytes, geometry: u32, attributes: u32)
    requires HeaderFieldsEnd <= |b| && geometry < attributes
    requires HeaderLength(b) >= HeaderFieldsEnd && RecordOffset(b, attributes) <= |b|
    requires Span(|r|, RecordLength(b), attributes - geometry) == |b| && |r| >= RecordCountOffset + 4
    requires ReadU32LE(r, RecordCountOffset) == geometry
    requires RemovedLayout(b, r, geometry)
    ensures ReadDbfHeader(r) == Ok(DbfHeader(geometry, HeaderLength(b), RecordLength(b)))
    ensures forall j | 0 <= j < geometry ::
      && RecordOffset(b, j) + RecordLength(b) <= |b|
      && RecordOffset(b, j) + RecordLength(b) <= |r|
      && r[RecordOffset(b, j)..RecordOffset(b, j) + RecordLength(b)]
           == b[RecordOffset(b, j)..RecordOffset(b, j) + RecordLength(b)]
  {
    RemoveArithmetic(HeaderLength(b), RecordLength(b), |b|, geometry, attributes);
    SpanShift(|r|, RecordLength(b), attributes - geometry);
    assert HeaderFieldsEnd <= RecordOffset(b, geometry) <= |r|;
    HeaderRereads(b, r, geometry);
    SameRecords(b, r, geometry);
  }

  /** A buffer that keeps the header and record lengths of `b` and carries
      `count` at offset 4 re-reads as `b`'s header with that count. */
  lemma {:induction false} HeaderRereads(b: Bytes, r: Bytes, count: u32)
    requires HeaderFieldsEnd <= |b| && HeaderFieldsEnd <= |r|
    requires ReadU32LE(r, RecordCountOffset) == count
    requires forall i | HeaderLengthOffset <= i < HeaderFieldsEnd :: r[i] == b[i]
    ensures ReadDbfHeader(r) == Ok(DbfHeader(count, HeaderLength(b), RecordLength(b)))
  {
    assert r[HeaderLengthOffset] == b[HeaderLengthOffset] && r[HeaderLengthOffset + 1] == b[HeaderLengthOffset + 1];
    assert r[RecordLengthOffset] == b[RecordLengthOffset] && r[RecordLengthOffset + 1] == b[RecordLengthOffset + 1];
  }
}
