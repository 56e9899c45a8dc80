/** The shapefile index (.shx): the same 100-byte header as the main file,
    with the file length in 16-bit words at byte 24 (big-endian), followed by
    one 8-byte entry per geometry record. The entry size is written as the
    literal 8 so that the verifier treats sizes in entries as linear. */
module IndexFile {
  import opened Buffers
  import opened Planner
  import MainFile

  /** The derived entry count `(fileLength*2 - 100) / 8` of a header whose
      declared length covers whole entries. */
  function EntryCount(b: Bytes): int
    requires MainFile.FileLengthOffset + 4 <= |b|
  {
    (2 * MainFile.FileLengthWords(b) - MainFile.HeaderSize) / 8
  }

  /** The truncating branch of repairShxFile, taken when the derived entry
      count exceeds `keep`. The new size is the buffer length minus 8 bytes
      per surplus entry (computed from the buffer, not from the header); a
      zero-filled buffer of that size receives the 100-byte header and the
      first `keep` entries, then the new length in words at byte 24. It
      throws exactly when the buffer is shorter than its declared length. */
  function TruncateIndex(b: Bytes, keep: u32): (r: Outcome<Bytes>)
    requires MainFile.FileLengthOffset + 4 <= |b|
    requires 2 * MainFile.FileLengthWords(b) - MainFile.HeaderSize > 8 * keep
    ensures r.Ok? <==> |b| >= 2 * MainFile.FileLengthWords(b)
    ensures r.Ok? ==>
      |r.value| == |b| - (2 * MainFile.FileLengthWords(b) - MainFile.HeaderSize - 8 * keep)
    ensures r.Ok? ==> MainFile.HeaderSize + 8 * keep <= |r.value|
    ensures r.Ok? ==>
      MainFile.FileLengthWords(r.value) == (|r.value| / 2) % 0x1_0000_0000
    ensures r.Ok? ==> forall i | 0 <= i < |r.value| && !(MainFile.FileLengthOffset <= i < MainFile.FileLengthOffset + 4) ::
      r.value[i] == if i < MainFile.HeaderSize + 8 * keep then b[i] else 0
  {
    var declared := 2 * MainFile.FileLengthWords(b);
    var newSize := |b| - (declared - MainFile.HeaderSize - 8 * keep);
    if newSize < 0 then RangeError
    else
      SpanProduct(MainFile.HeaderSize, 8, keep);
      SpanProduct(MainFile.HeaderSize, 8, if keep == 0 then 0 else keep - 1);
      match KeepRecords(b, newSize, MainFile.HeaderSize, 8, keep)
      case RangeError => RangeError
      case Ok(d) =>
        var r := StoreU32BE(d, MainFile.FileLengthOffset, (newSize / 2) % 0x1_0000_0000);
        assert MainFile.FileLengthWords(r) == (newSize / 2) % 0x1_0000_0000;
        Ok(r)
  }

  /** repairShxFile: the length field is read first (a buffer shorter than
      28 bytes throws in every plan); only the remove plan may change the
      index, and it truncates to the ORIGINAL attribute count, which it does
      only when the index has more entries than that. */
  function PatchShx(b: Bytes, geometry: nat, attributes: u32): (r: Outcome<Bytes>)
    ensures |b| < MainFile.FileLengthOffset + 4 ==> r.RangeError?
    ensures |b| >= MainFile.FileLengthOffset + 4 && geometry >= attributes ==> r == Ok(b)
    ensures |b| >= MainFile.FileLengthOffset + 4 && geometry < attributes ==>
      if 2 * MainFile.FileLengthWords(b) - MainFile.HeaderSize > 8 * attributes
      then r == TruncateIndex(b, attributes)
      else r == Ok(b)
  {
    if |b| < MainFile.FileLengthOffset + 4 then RangeError
    else
      match Plan(geometry, attributes)
      case RemoveAttributeRecords(_) =>
        // recordsToRemove = currentRecords - dbfRecords > 0, over the reals
        if 2 * MainFile.FileLengthWords(b) - MainFile.HeaderSize > 8 * attributes
        then TruncateIndex(b, attributes)
        else Ok(b)
      case _ => Ok(b)
  }

  /** On a well-formed index (its declared length is its size, in whole
      entries) with more entries than `keep`, truncation succeeds, removes
      8 bytes per surplus entry, and leaves a well-formed index of exactly
      `keep` entries. */
  lemma {:induction false} TruncateIndexWellFormed(b: Bytes, keep: u32)
    requires MainFile.FileLengthOffset + 4 <= |b|
    requires |b| == 2 * MainFile.FileLengthWords(b)
    requires (|b| - MainFile.HeaderSize) % 8 == 0
    requires EntryCount(b) > keep
    ensures TruncateIndex(b, keep).Ok?
    ensures var r := TruncateIndex(b, keep).value;
      && |r| == |b| - (EntryCount(b) - keep) * 8
      && |r| == 2 * MainFile.FileLengthWords(r)
      && EntryCount(r) == keep
  {
    TruncateIndexSize(b, keep);
    IndexOfSize(TruncateIndex(b, keep).value, keep);
  }

  /** On a well-formed index with more entries than `keep`, truncation
      succeeds and leaves exactly the header and `keep` entries, with the
      length field rewritten from the new size. */
  lemma {:induction false} TruncateIndexSize(b: Bytes, keep: u32)
    requires MainFile.FileLengthOffset + 4 <= |b|
    requires |b| == 2 * MainFile.FileLengthWords(b)
    requires (|b| - MainFile.HeaderSize) % 8 == 0
    requires EntryCount(b) > keep
    ensures TruncateIndex(b, keep).Ok?
    ensures var r := TruncateIndex(b, keep).value;
      && |r| == MainFile.HeaderSize + 8 * keep
      && |r| == |b| - (EntryCount(b) - keep) * 8
      && MainFile.FileLengthWords(r) == (|r| / 2) % 0x1_0000_0000
  {
    TruncatedSize(MainFile.FileLengthWords(b), |b|, keep, EntryCount(b));
  }

  /** A buffer of the header and `keep` entries whose length field was
      written from its size is a well-formed index of `keep` entries. */
  lemma {:induction false} IndexOfSize(r: Bytes, keep: nat)
    requires MainFile.FileLengthOffset + 4 <= |r|
    requires |r| == MainFile.HeaderSize + 8 * keep < 0x2_0000_0000
    requires MainFile.FileLengthWords(r) == (|r| / 2) % 0x1_0000_0000
    ensures |r| == 2 * MainFile.FileLengthWords(r)
    ensures EntryCount(r) == keep
  {
    assert |r| / 2 == 50 + 4 * keep;
  }

  /** Truncation keeps the header, except its length word, and the first
      `keep` entries, and nothing after them. */
  lemma {:induction false} TruncateIndexKeepsEntries(b: Bytes, keep: u32)
    requires MainFile.FileLengthOffset + 4 <= |b|
    requires 2 * MainFile.FileLengthWords(b) - MainFile.HeaderSize > 8 * keep
    requires |b| >= 2 * MainFile.FileLengthWords(b)
    ensures TruncateIndex(b, keep).Ok?
    ensures var r := TruncateIndex(b, keep).value;
      && MainFile.HeaderSize + 8 * keep <= |r|
      && r[MainFile.HeaderSize..MainFile.HeaderSize + 8 * keep]
           == b[MainFile.HeaderSize..MainFile.HeaderSize + 8 * keep]
      && (forall i | 0 <= i < MainFile.HeaderSize && !(MainFile.FileLengthOffset <= i < MainFile.FileLengthOffset + 4) ::
            r[i] == b[i])
      && (forall i | MainFile.HeaderSize + 8 * keep <= i < |r| :: r[i] == 0)
  {
    var r := TruncateIndex(b, keep).value;
    var kept := MainFile.HeaderSize + 8 * keep;
    var part := r[MainFile.HeaderSize..kept];
    forall k | 0 <= k < |part|
      ensures part[k] == b[MainFile.HeaderSize + k]
    {
      assert part[k] == r[MainFile.HeaderSize + k];
    }
  }

  /** The size arithmetic of TruncateIndexSize on plain integers: `words`
      is the length field and `total` the size of a well-formed index. */
  lemma {:induction false} TruncatedSize(words: u32, total: nat, keep: nat, count: int)
    requires total == 2 * words
    requires (total - MainFile.HeaderSize) % 8 == 0
    requires count == (2 * words - MainFile.HeaderSize) / 8 > keep
    ensures total - (2 * words - MainFile.HeaderSize - 8 * keep) == MainFile.HeaderSize + 8 * keep
    ensures total - (2 * words - MainFile.HeaderSize - 8 * keep) == total - (count - keep) * 8
  {
  }
}
