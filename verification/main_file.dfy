/** The shapefile main file (.shp) as the restorer reads it: the 100-byte
    main file header of the ESRI Shapefile Technical Description, holding the
    file length in 16-bit words (big-endian, byte 24) and the shape type
    (little-endian, byte 32), followed by variable-length records, each an
    8-byte big-endian header (record number, content length in words) and
    `2 * contentLength` bytes of content. */
module MainFile {
  import opened Buffers
  import Planner

  const HeaderSize: nat := 100
  const FileLengthOffset: nat := 24
  const ShapeTypeOffset: nat := 32
  const RecordHeaderSize: nat := 8
  /** Bytes a DataView must reach to read both header fields. */
  const HeaderFieldsEnd: nat := ShapeTypeOffset + 4

  function FileLengthWords(b: Bytes): u32
    requires FileLengthOffset + 4 <= |b|
  {
    ReadU32BE(b, FileLengthOffset)
  }

  function ShapeType(b: Bytes): u32
    requires HeaderFieldsEnd <= |b|
  {
    ReadU32LE(b, ShapeTypeOffset)
  }

  /** Offset of the record after the one whose header starts at `off`. */
  function NextRecord(b: Bytes, off: nat): nat
    requires off + RecordHeaderSize <= |b|
  {
    off + RecordHeaderSize + 2 * ReadU32BE(b, off + 4)
  }

  /** The record walk from `off`: a record is counted when its 8-byte header
      fits before `bound`; reading that header past the end of the buffer
      throws. Every counted record header lies inside the bound, and the walk
      cannot throw on a buffer at least as long as the bound. */
  function CountFrom(b: Bytes, bound: nat, off: nat): (r: Outcome<nat>)
    ensures r.Ok? && r.value > 0 ==> off + RecordHeaderSize * r.value <= bound
    ensures r.RangeError? ==> |b| < bound
    decreases bound - off
  {
    if off + RecordHeaderSize > bound then Ok(0)
    else if off + RecordHeaderSize > |b| then RangeError
    else
      match CountFrom(b, bound, NextRecord(b, off))
      case Ok(n) => Ok(n + 1)
      case RangeError => RangeError
  }

  // ---------------------------------------------------------------------
  // An independent description of the walk: the offsets of the record
  // headers it visits.

  /** `offs` lists the record headers met from `start`: the first is at
      `start`, each next one follows its predecessor's content, every one
      fits both the bound and the buffer, and the header after the last
      would not fit before the bound. */
  ghost predicate IsRecordChain(b: Bytes, bound: nat, start: nat, offs: seq<nat>) {
    && (forall k | 0 <= k < |offs| ::
          offs[k] + RecordHeaderSize <= bound && offs[k] + RecordHeaderSize <= |b|)
    && (|offs| > 0 ==> offs[0] == start)
    && (forall k | 0 <= k < |offs| - 1 :: offs[k + 1] == NextRecord(b, offs[k]))
    && (|offs| == 0 ==> start + RecordHeaderSize > bound)
    && (|offs| > 0 ==> NextRecord(b, offs[|offs| - 1]) + RecordHeaderSize > bound)
  }

  /** A chain of n record headers makes the walk count n. */
  lemma {:induction false} ChainGivesCount(b: Bytes, bound: nat, start: nat, offs: seq<nat>)
    requires IsRecordChain(b, bound, start, offs)
    ensures CountFrom(b, bound, start) == Ok(|offs|)
    decreases |offs|
  {
    if |offs| > 0 {
      var rest := offs[1..];
      var next := NextRecord(b, start);
      assert IsRecordChain(b, bound, next, rest) by {
        forall k | 0 <= k < |rest| - 1
          ensures rest[k + 1] == NextRecord(b, rest[k])
        {
          assert rest[k + 1] == offs[k + 2] && rest[k] == offs[k + 1];
        }
        if |rest| > 0 {
          assert rest[0] == offs[1] == NextRecord(b, offs[0]);
          assert rest[|rest| - 1] == offs[|offs| - 1];
        }
      }
      ChainGivesCount(b, bound, next, rest);
    }
  }

  /** A walk that counts n records visited a chain of n record headers. */
  lemma {:induction false} CountGivesChain(b: Bytes, bound: nat, start: nat, n: nat)
    returns (offs: seq<nat>)
    requires CountFrom(b, bound, start) == Ok(n)
    ensures |offs| == n && IsRecordChain(b, bound, start, offs)
    decreases bound - start
  {
    if start + RecordHeaderSize > bound {
      offs := [];
    } else {
      var next := NextRecord(b, start);
      var rest := CountGivesChain(b, bound, next, n - 1);
      offs := [start] + rest;
      forall k | 0 <= k < |offs| - 1
        ensures offs[k + 1] == NextRecord(b, offs[k])
      {
        if k > 0 {
          assert offs[k + 1] == rest[k] && offs[k] == rest[k - 1];
        }
      }
    }
  }

  // ---------------------------------------------------------------------
  // analyzeShpFile

  datatype ShpAnalysis =
    | ShpRead(records: u32, fileLengthBytes: nat, shapeType: u32)
    | ShpUnreadable
  {
    /** `this.shpRecords`: the count, or 0 after a read failure. */
    function Records(): u32 {
      if ShpRead? then records else 0
    }
  }

  /** Reads the header, then walks the records from byte 100 up to the
      declared file length. A read past the end of the buffer (a header
      shorter than 36 bytes, or a declared length beyond the buffer that
      the walk actually reaches) makes the file unreadable. */
  function AnalyzeShp(b: Bytes): (a: ShpAnalysis)
    ensures |b| < HeaderFieldsEnd ==> a.ShpUnreadable?
    ensures |b| >= HeaderFieldsEnd && 2 * FileLengthWords(b) <= |b| ==> a.ShpRead?
    ensures a.ShpRead? ==>
      a.fileLengthBytes == 2 * FileLengthWords(b) && a.shapeType == ShapeType(b)
    ensures a.ShpRead? && a.fileLengthBytes < HeaderSize + RecordHeaderSize ==> a.records == 0
    ensures a.ShpRead? && a.fileLengthBytes >= HeaderSize ==>
              a.records <= (a.fileLengthBytes - HeaderSize) / RecordHeaderSize
  {
    if |b| < HeaderFieldsEnd then ShpUnreadable
    else
      var fileLengthBytes := 2 * FileLengthWords(b);
      match CountFrom(b, fileLengthBytes, HeaderSize)
      case Ok(n) => ShpRead(n, fileLengthBytes, ShapeType(b))
      case RangeError => ShpUnreadable
  }

  /** The loop of analyzeShpFile as written, shown to agree with the walk. */
  method AnalyzeShpLoop(b: Bytes) returns (a: ShpAnalysis)
    ensures a == AnalyzeShp(b)
  {
    if |b| < HeaderFieldsEnd {
      return ShpUnreadable;
    }
    var fileLengthBytes := 2 * FileLengthWords(b);
    var shapeType := ShapeType(b);
    var recordCount: nat := 0;
    var offset: nat := HeaderSize;
    while offset < fileLengthBytes
      invariant CountFrom(b, fileLengthBytes, HeaderSize) ==
        match CountFrom(b, fileLengthBytes, offset)
        case Ok(n) => Ok(recordCount + n)
        case RangeError => RangeError
      decreases fileLengthBytes - offset
    {
      if offset + RecordHeaderSize > fileLengthBytes {
        break;
      }
      if offset + RecordHeaderSize > |b| {
        return ShpUnreadable;
      }
      var contentLength: nat := ReadU32BE(b, offset + 4);
      recordCount := recordCount + 1;
      offset := offset + RecordHeaderSize + contentLength * 2;
    }
    return ShpRead(recordCount, fileLengthBytes, shapeType);
  }

  // ---------------------------------------------------------------------
  // repairShpFile

  /** The geometry file is copied unchanged in every plan, once its header
      fields have been read. */
  function PatchShp(b: Bytes): (r: Outcome<Bytes>)
    ensures r.Ok? <==> |b| >= HeaderFieldsEnd
    ensures r.Ok? ==> r.value == b
  {
    if |b| < HeaderFieldsEnd then RangeError else Ok(b)
  }

  /** `recordsToRemove` of repairShpFile's remove branch, with the operands
      in the order written: geometry count minus attribute count. */
  function ShpRecordsToRemove(geometry: nat, attributes: nat): int {
    geometry - attributes
  }

  /** The remove plan is chosen only when the attribute count exceeds the
      geometry count, so `recordsToRemove` there is the negated plan count
      and the branch that would warn about keeping surplus geometry records
      (taken when it is positive) is never reached. */
  lemma {:induction false} ShpRemovalBranchUnreachable(geometry: nat, attributes: nat)
    requires Planner.Plan(geometry, attributes).RemoveAttributeRecords?
    ensures ShpRecordsToRemove(geometry, attributes) + Planner.Plan(geometry, attributes).count == 0
    ensures !(ShpRecordsToRemove(geometry, attributes) > 0)
  {
  }
}
