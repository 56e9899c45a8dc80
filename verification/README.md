# Shapefile record-count reconciliation, modelled in Dafny

`restore_shp.js` is a browser tool for repairing an ESRI shapefile set whose
geometry file (`.shp`) and attribute table (`.dbf`) disagree on the number of
records. It does the following:

- Walks the variable-length records of the geometry file to count them.
- Reads the record count from the dBASE header of the attribute table.
- Plans a repair from the two counts.
- Writes patched copies of the set as `<base>_restore.<ext>`:
  - Blank attribute records are appended when geometry records outnumber them.
  - Attribute records, and index entries in the `.shx`, are cut when attribute records are in excess.

This project models that byte-level core as pure Dafny functions over
byte sequences and proves what each step guarantees.

Modules, one per file:

- `Buffers` (`buffers.dfy`): the JavaScript buffer primitives the tool relies on.
  - DataView reads and writes, little- and big-endian.
  - Zero-filled `ArrayBuffer`s.
  - `Uint8Array.set`, which throws when the source does not fit.
  - `subarray`, which clamps its bounds.
  - The record-copy loop shared by the attribute and index patches.

  A JavaScript `RangeError` is the `RangeError` value of `Outcome`, not a
  precondition. Record offsets `base + i * len` are written `Span(base, len, i)`,
  a recursive sum; `SpanProduct` proves the two equal.
- `Planner` (`planner.dfy`): `compareRecords` as a tagged plan. The plan replaces
  the source's `needsRepair` / `repairType` pair.
- `MainFile` (`main_file.dfy`): the `.shp` header fields, the record walk of
  `analyzeShpFile`, and `repairShpFile`.
- `Dbf` (`dbf.dfy`): the `.dbf` header fields read by `analyzeDbfFile`, and both
  branches of `repairDbfFile`.
- `IndexFile` (`index_file.dfy`): `repairShxFile`, including its truncating branch.
- `FileNames` (`file_names.dfy`): extensions as `name.split('.').pop().toLowerCase()`,
  `ShapefileUtils.validateShapefileSet`, and the output names.
- `Restorer` (`restorer.dfy`): one run. It covers the analysis with its error
  handling, the messages with their severities, and the generation of outputs in
  the order geometry, attributes, index, projection. Generation stops at the first
  patch that throws.

Quirks of the source that the model keeps on purpose:

- A failed read does not stop the run. The count becomes 0 and an error message is
  recorded. Planning then goes on with that 0.
- The remove plan cuts the index to the attribute table's ORIGINAL record count,
  not to the geometry count. The new index size is the buffer length minus 8 bytes
  per surplus entry. That surplus is derived from the header's file length, not
  from the new count. The rewritten length field is `(newSize / 2)` truncated to
  32 bits.
- When the padding of the add plan starts before byte 8, it overwrites the record
  count just written. Bytes stored past the end of the new buffer are dropped.
- The completion message always names a `_restore.shx` output, even when no index
  file was given.
- No repair needed means no outputs at all.

Further behaviour of restore_shp.js that the model keeps:

- A geometry header is unreadable only below 36 bytes, because the two DataView
  reads of the header end at byte 36 (restore_shp.js:188,192).
- The truncated index's size is the buffer length minus 8 bytes per surplus entry
  (restore_shp.js:596).
- Read failures and a throwing patch do not abort the run. Outputs generated before
  the throwing patch are kept.
- The branch of repairShpFile that warns that surplus geometry records are kept
  (restore_shp.js:467-471) is unreachable. In the remove plan `recordsToRemove` is
  `shpRecords - dbfRecords` (restore_shp.js:464), which is negative there, so the
  geometry file is copied without that warning.

## Model

| member | source | states |
|---|---|---|
| Planner.Plan | restore_shp.js:261-285 | exactly one plan applies: none when the counts are equal, add when geometry exceeds attributes, remove otherwise; a repair's count is positive, and carrying out the plan brings the attribute count to the geometry count |
| MainFile.CountFrom | restore_shp.js:195-208 | every counted record header lies inside the declared length; the walk throws only when the buffer is shorter than the declared length |
| MainFile.ChainGivesCount | restore_shp.js:198-208 | a chain of n record headers, each after its predecessor's content and the next one not fitting, makes the walk count n |
| MainFile.CountGivesChain | restore_shp.js:198-208 | conversely, a walk that counts n visited a chain of exactly n record headers |
| MainFile.AnalyzeShp | restore_shp.js:184-223 | a buffer shorter than 36 bytes is unreadable; with the declared length inside the buffer the file is read; the reported length is twice the length field, the shape type is the little-endian field at 32, and the count is at most the records of 8 bytes that fit after the header |
| MainFile.AnalyzeShpLoop | restore_shp.js:195-210 | the while loop as written, with its break and its reads, returns the same analysis as the walk |
| MainFile.PatchShp | restore_shp.js:444-483 | the geometry file is returned unchanged in every plan, and only a buffer too short for the header reads throws |
| MainFile.ShpRemovalBranchUnreachable | restore_shp.js:462-475 | in the remove plan the geometry patch's `recordsToRemove` is the negated plan count, so its warning branch for a positive count is never taken |
| Dbf.ReadDbfHeader | restore_shp.js:232-244 | the header is read exactly when the buffer has 12 bytes, with the count at 4 (u32 LE), header length at 8 and record length at 10 (u16 LE) |
| Dbf.FillRecordTail | restore_shp.js:524-526 | the inner loop blanks bytes `off + j .. off + len - 1` and leaves every other byte alone |
| Dbf.PadRecords | restore_shp.js:518-527 | the padding loop blanks the bytes from the first new record to the end of the last, writing the first byte even of empty records, and leaves every other byte alone |
| Dbf.AddRecords | restore_shp.js:499-527 | the new table is longer by n records and holds the original bytes, the geometry count at offset 4, zeros after the original bytes, and blank bytes over the padding |
| Dbf.AddedLayoutFacts | restore_shp.js:514-527 | in the add case the count field holds the geometry count when the records start after it, every new record is blank, and the bytes before the new records are the original ones apart from the count field |
| Dbf.AddRecordsRereads | restore_shp.js:499-527 | for a table with a header of at least 12 bytes whose declared records lie inside it, the added table re-reads with the geometry count and the same header and record lengths, and every existing record is bit-identical |
| Dbf.RemoveRecords | restore_shp.js:529-561 | the shortened table plus the removed records has the original length; it holds the header and the first `geometry` records at their offsets, the geometry count at offset 4, and zeros after the kept records |
| Dbf.RemoveRecordsFits | restore_shp.js:535-561 | when the declared records lie inside the table, the remove case throws exactly when the shortened table is shorter than 8 bytes |
| Dbf.RemoveRecordsRereads | restore_shp.js:529-561 | for a table with a header of at least 12 bytes whose declared records lie inside it, the remove case succeeds, re-reads with the geometry count and the same header and record lengths, and keeps the first `geometry` records bit-identical |
| Dbf.PatchDbf | restore_shp.js:485-569 | a table shorter than 12 bytes throws in every plan; otherwise no repair copies it, the add plan adds records, the remove plan removes them |
| IndexFile.TruncateIndex | restore_shp.js:589-618 | the truncation throws exactly when the buffer is shorter than its declared length; otherwise the result is shorter by 8 bytes per surplus entry, keeps the 100-byte header apart from the length word and the first `keep` entries, is zero after them, and its length word is half its size modulo 2^32 |
| IndexFile.PatchShx | restore_shp.js:571-629 | an index shorter than 28 bytes throws in every plan; only the remove plan with more entries than the attribute count truncates, to that count; every other case returns the index unchanged |
| IndexFile.TruncateIndexSize | restore_shp.js:594-618 | on a well-formed index with more than `keep` entries, the truncation succeeds with exactly the header and `keep` entries, and its length word is half its size |
| IndexFile.TruncateIndexWellFormed | restore_shp.js:594-618 | truncating a well-formed index removes 8 bytes per surplus entry and leaves a well-formed index of exactly `keep` entries |
| IndexFile.TruncateIndexKeepsEntries | restore_shp.js:600-614 | the truncated index keeps the first `keep` entries and the header apart from the length word, and holds only zeros after them |
| Buffers.EncodeU32LE | restore_shp.js:515 | the four bytes written by a little-endian store read back as the stored value |
| Buffers.EncodeU32BE | restore_shp.js:618 | the four bytes written by a big-endian store read back as the stored value |
| Buffers.StoreU32LE | restore_shp.js:515 | a little-endian store keeps the length, reads back as the stored value and changes no byte outside its four |
| Buffers.StoreU32BE | restore_shp.js:618 | a big-endian store keeps the length, reads back as the stored value and changes no byte outside its four |
| Buffers.Blit | restore_shp.js:512 | `Uint8Array.set` copies the source at the offset and leaves every other byte alone |
| Buffers.Subarray | restore_shp.js:544 | `subarray` clamps both bounds to the buffer, the view is empty when the end precedes the start, and each byte of the view is the buffer's byte at the shifted index |
| Buffers.CopyRecords | restore_shp.js:551-557 | the copy loop throws exactly when the last record's chunk, clamped to the source, ends past the target (chunk ends only grow); otherwise the target holds the source's bytes over the copied records and is unchanged elsewhere |
| Buffers.KeepRecords | restore_shp.js:536-557 | the header-and-records copy into a zero-filled buffer throws exactly when the clamped header or the last record chunk ends past the new size; otherwise the result holds the source's bytes up to the end of the kept records and zeros after them |
| FileNames.LastSegment | restore_shp.js:682-683 | the text after the last dot: dot-free, a suffix of the name, and preceded by a dot when it is not the whole name |
| FileNames.ToLower | restore_shp.js:683 | lower-casing keeps the length and maps every character through the ASCII lower-casing |
| FileNames.Extension | restore_shp.js:682-683 | an extension has no dot and no upper-case ASCII letter, and is no longer than the name |
| FileNames.ExtensionIsLoweredSuffix | restore_shp.js:682-683 | the extension is the lower-cased suffix of the name of its own length, and a dot precedes that suffix unless it is the whole name; being dot-free, it is the longest dot-free suffix |
| FileNames.ExtensionAfterDot | restore_shp.js:682-683 | text ending in a dot, followed by a dot-free `ext`, has the lower-cased `ext` as its extension |
| FileNames.ExtensionOfSuffix | restore_shp.js:682-683 | `stem.ext` with a dot-free `ext` has the lower-cased `ext` as its extension, so an upper-case `SHP` is recognised as `shp` |
| FileNames.ExtensionOfDotFree | restore_shp.js:682-683 | a name with no dot is its own extension, lower-cased |
| FileNames.PresentMembers | restore_shp.js:682-688 | an extension is present exactly when it is recognised and some input has it |
| FileNames.PresentAppend | restore_shp.js:682-684 | the present extensions of two lists of inputs are those of the first followed by those of the second |
| FileNames.PresentSingle | restore_shp.js:682-684 | a single input contributes its extension exactly when it is recognised |
| FileNames.ValidateShapefileSet | restore_shp.js:677-695 | the set is valid exactly when some input is `shp` and some is `dbf`, exactly when nothing is missing; an extension is missing exactly when it is required and no input has it; both missing come in the order `shp`, `dbf` |
| FileNames.IndexOf | restore_shp.js:290 | the first occurrence of the pattern at or after the start, or none when there is none |
| FileNames.ReplaceFirst | restore_shp.js:290 | when the pattern occurs, its first occurrence, and no later one, is replaced; when it does not occur, the string is unchanged |
| FileNames.BaseNameOfShpName | restore_shp.js:290 | removing `.shp` from `stem.shp` gives the stem when the stem has no `.shp` of its own |
| FileNames.OutputNameExtension | restore_shp.js:291-299 | every output name `base_restore.ext` with a lower-case, dot-free `ext` has the extension `ext` |
| FileNames.OutputNamesDiffer | restore_shp.js:291-299 | output names for different extensions of the same length are different |
| Restorer.Roles | restore_shp.js:418-436 | outputs are geometry, attributes, then the index and projection exactly when those files were given |
| Restorer.RunJobs | restore_shp.js:409-442 | outputs are kept in order until the first patch that throws, nothing after it is produced, and each kept output is that patch's result under its `_restore` name |
| Restorer.Generate | restore_shp.js:409-442 | generation keeps the patched files of the set in role order until one throws, and reports a failure exactly when it stopped early, at a patch that threw |
| Restorer.PatchAllPassesThrough | restore_shp.js:444-483 | the repair functions return the geometry file, the projection file and, outside the remove plan, the index unchanged or throw, and the geometry file throws only below 36 bytes |
| Restorer.GeneratePassesThrough | restore_shp.js:418-436 | every generated geometry and projection output, and outside the remove plan every index output, is the input file unchanged, and a readable geometry file is always generated |
| Restorer.PlanDiagnostic | restore_shp.js:264-284 | agreement is a success message, either mismatch a warning carrying the size of the difference |
| Restorer.AnnouncedNames | restore_shp.js:290-304 | the completion message names the geometry, attribute and index outputs always, and the projection output exactly when a projection file was given |
| Restorer.Analyse | restore_shp.js:179-259 | a geometry or attribute read that fails leaves the count at 0 with an error message; a readable geometry file reports the count of the record walk over its declared length, that length in bytes and its shape type; a readable attribute file reports its header's count, header length and record length |
| Restorer.Messages | restore_shp.js:261-318 | after the analysis come the plan's verdict and either the completion message and download note, or the note that nothing needed repair |
| Restorer.Restore | restore_shp.js:153-177 | one run reports the analysed counts, plans from them even after a failed read, keeps the messages in order, and produces outputs only when the plan needs a repair |
| Restorer.RestoreReconcilesAttributes | restore_shp.js:485-569 | after a repair of a table with a header of at least 12 bytes whose declared records lie inside it, the attribute output is produced and re-reads with the geometry count and its own header and record lengths |
| Restorer.RestoreIndexKeepsAttributeCount | restore_shp.js:589-621 | in the remove plan a well-formed index with more entries than the attribute table is cut to the table's original count, which still exceeds the geometry count |
| Restorer.GenerateCutsIndex | restore_shp.js:589-621 | in the remove plan, with a readable geometry file, a well-formed table and a well-formed index with surplus entries, the third output is the index cut to the attribute count |

## Left out

- The page: DOM elements, drag and drop, the progress bar, the toast messages, and
  the download links with their object URLs. Each kept output stands for one
  `downloadFile` call.
- `FileReader` and the `async` / `await` plumbing. Each file is its bytes. The run is
  sequential, and the 800 ms delays between steps are not modelled.
- `handleFiles`: it builds the files map by extension, and the last file with a given
  extension wins. A run starts from a set that already has a geometry and an attribute
  file, because the process button is disabled otherwise.
- `formatFileSize`, `getFileIcon` and the wording of every message. Each message keeps
  its severity and the numbers it carries.
- `console.log` / `console.error` output.
- The unread record number of each geometry record header. Its read can throw only
  when the content-length read after it would also throw, so the model checks the
  8-byte record header once.
- `toLowerCase` beyond ASCII letters.
- The maximum `ArrayBuffer` length, and JavaScript number precision above 2^53. Sizes
  are unbounded naturals.
- The `repairType` field that a repair leaves behind between runs. The patches take
  the plan of the current run.
- `generateDownloadLink` and the other helpers of `ShapefileUtils`, apart from
  `validateShapefileSet`.
- Dbf.RemoveRecordsFits: states when the remove case throws only for tables whose
  declared records lie inside the buffer. For other tables only the layout of a
  successful result is stated.
- IndexFile.TruncateIndexWellFormed: states the resulting entry count only for
  well-formed indexes, where the declared length is the buffer length in whole
  entries. Otherwise only the layout of a successful truncation is stated.
- MainFile.AnalyzeShp: gives sufficient conditions for a readable file and bounds the
  count. The exact count is the chain characterisation of MainFile.ChainGivesCount
  and MainFile.CountGivesChain.
