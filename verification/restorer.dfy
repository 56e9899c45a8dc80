/** One run of the restorer over a chosen shapefile set: analyse the geometry
    file, read the attribute header, plan, and (when a repair is needed)
    produce the patched files in order: geometry, attributes, index,
    projection. Diagnostics keep the source's severities and the counts its
    messages carry, not their wording. */
module Restorer {
  import opened Buffers
  import opened Planner
  import MainFile
  import Dbf
  import IndexFile
  import opened FileNames

  datatype InputFile = InputFile(name: string, data: Bytes)

  /** The files keyed by extension; the geometry and attribute files are
      required before a run can start. */
  datatype ShapefileSet = ShapefileSet(
    shp: InputFile,
    dbf: InputFile,
    shx: Option<InputFile>,
    prj: Option<InputFile>)

  datatype Role = Geometry | Attributes | Index | Projection
  {
    function Ext(): (e: string)
      ensures Recognised(e)
    {
      match this
      case Geometry => ShpExt
      case Attributes => DbfExt
      case Index => ShxExt
      case Projection => PrjExt
    }
  }

  datatype Severity = Info | Success | Warning | Error

  datatype Diagnostic =
    | ShpAnalysed(records: nat, fileLengthBytes: nat, shapeType: u32)
    | ShpReadFailed
    | DbfAnalysed(records: nat, headerLength: u16, recordLength: u16)
    | DbfReadFailed
    | CountsAgree
    | AttributesMissing(count: nat)
    | AttributesSurplus(count: nat)
    | RepairFinished(names: seq<string>)
    | FilesGenerated
    | NothingToRepair
  {
    function Level(): Severity {
      if ShpReadFailed? || DbfReadFailed? then Error
      else if CountsAgree? || RepairFinished? then Success
      else if AttributesMissing? || AttributesSurplus? then Warning
      else Info
    }
  }

  datatype OutputFile = OutputFile(role: Role, name: string, data: Bytes)

  /** Patch result of one output, before it is named and kept. */
  datatype Job = Job(role: Role, result: Outcome<Bytes>)

  datatype Generation = Generation(outputs: seq<OutputFile>, failed: bool)

  datatype Report = Report(
    shpRecords: u32,
    dbfRecords: u32,
    plan: RepairPlan,
    diagnostics: seq<Diagnostic>,
    outputs: seq<OutputFile>,
    generationFailed: bool)

  /** The outputs a repair produces, in the order they are generated. */
  function Roles(files: ShapefileSet): (rs: seq<Role>)
    ensures 2 <= |rs| <= 4 && rs[0] == Geometry && rs[1] == Attributes
    ensures Index in rs <==> files.shx.Some?
    ensures Projection in rs <==> files.prj.Some?
    ensures |rs| == 2 + (if files.shx.Some? then 1 else 0) + (if files.prj.Some? then 1 else 0)
  {
    [Geometry, Attributes]
      + (if files.shx.Some? then [Index] else [])
      + (if files.prj.Some? then [Projection] else [])
  }

  /** The outcome of each repair function on one set. */
  datatype Patches = Patches(geometry: Outcome<Bytes>, attributes: Outcome<Bytes>,
                             index: Outcome<Bytes>, projection: Outcome<Bytes>)
  {
    function For(role: Role): Outcome<Bytes> {
      match role
      case Geometry => geometry
      case Attributes => attributes
      case Index => index
      case Projection => projection
    }
  }

  /** repairShpFile, repairDbfFile and repairShxFile applied to the set;
      the projection file is copied. An optional file that was not given
      is never asked for (Roles leaves it out), so its slot holds a
      placeholder. The repair functions are pure, so computing them ahead
      of generation does not change what generation keeps. */
  function PatchAll(files: ShapefileSet, geometry: u32, attributes: u32): Patches {
    Patches(
      MainFile.PatchShp(files.shp.data),
      Dbf.PatchDbf(files.dbf.data, geometry, attributes),
      if files.shx.Some? then IndexFile.PatchShx(files.shx.value.data, geometry, attributes) else RangeError,
      if files.prj.Some? then Ok(files.prj.value.data) else RangeError)
  }

  function Jobs(files: ShapefileSet, p: Patches): (jobs: seq<Job>)
    ensures |jobs| == |Roles(files)|
    ensures forall i | 0 <= i < |jobs| ::
      jobs[i].role == Roles(files)[i] && jobs[i].result == p.For(jobs[i].role)
  {
    var rs := Roles(files);
    seq(|rs|, i requires 0 <= i < |rs| => Job(rs[i], p.For(rs[i])))
  }

  /** Generation runs the jobs in order inside one try block: outputs are
      kept until the first patch that throws, and nothing after it runs. */
  function RunJobs(base: string, jobs: seq<Job>): (g: Generation)
    ensures |g.outputs| <= |jobs|
    ensures g.failed <==> |g.outputs| < |jobs|
    ensures g.failed ==> jobs[|g.outputs|].result.RangeError?
    ensures forall i | 0 <= i < |g.outputs| ::
      && jobs[i].result == Ok(g.outputs[i].data)
      && g.outputs[i].role == jobs[i].role
      && g.outputs[i].name == OutputName(base, jobs[i].role.Ext())
  {
    if |jobs| == 0 then Generation([], false)
    else
      match jobs[0].result
      case RangeError => Generation([], true)
      case Ok(data) =>
        var rest := RunJobs(base, jobs[1..]);
        Generation([OutputFile(jobs[0].role, OutputName(base, jobs[0].role.Ext()), data)] + rest.outputs,
                   rest.failed)
  }

  function ShpDiagnostic(a: MainFile.ShpAnalysis): Diagnostic {
    match a
    case ShpRead(records, fileLengthBytes, shapeType) => ShpAnalysed(records, fileLengthBytes, shapeType)
    case ShpUnreadable => ShpReadFailed
  }

  function DbfDiagnostic(h: Outcome<Dbf.DbfHeader>): Diagnostic {
    match h
    case Ok(header) => DbfAnalysed(header.recordCount, header.headerLength, header.recordLength)
    case RangeError => DbfReadFailed
  }

  /** compareRecords reports agreement as a success, and either mismatch
      as a warning carrying the size of the difference. */
  function PlanDiagnostic(p: RepairPlan): (d: Diagnostic)
    ensures d.Level() == if p.NoRepair? then Success else Warning
    ensures p.NeedsRepair() ==> (d.AttributesMissing? || d.AttributesSurplus?) && d.count == p.count
  {
    match p
    case NoRepair => CountsAgree
    case AddAttributeRecords(n) => AttributesMissing(n)
    case RemoveAttributeRecords(n) => AttributesSurplus(n)
  }

  /** The names the completion message lists: the index is always named,
      whether or not an index file was given. */
  function AnnouncedNames(files: ShapefileSet, base: string): (names: seq<string>)
    ensures OutputName(base, ShpExt) in names && OutputName(base, DbfExt) in names
    ensures OutputName(base, ShxExt) in names
    ensures OutputName(base, PrjExt) in names <==> files.prj.Some?
  {
    OutputNamesDiffer(base, PrjExt, ShpExt);
    OutputNamesDiffer(base, PrjExt, DbfExt);
    OutputNamesDiffer(base, PrjExt, ShxExt);
    [OutputName(base, ShpExt), OutputName(base, DbfExt), OutputName(base, ShxExt)]
      + (if files.prj.Some? then [OutputName(base, PrjExt)] else [])
  }

  /** createRepairedFiles: each file of the set is patched and named in
      turn, until one patch throws. */
  function Generate(files: ShapefileSet, p: Patches): (g: Generation)
    ensures |g.outputs| <= |Roles(files)|
    ensures g.failed <==> |g.outputs| < |Roles(files)|
    ensures g.failed ==> p.For(Roles(files)[|g.outputs|]).RangeError?
    ensures forall i | 0 <= i < |g.outputs| ::
      && g.outputs[i].role == Roles(files)[i]
      && g.outputs[i].name == OutputName(BaseName(files.shp.name), g.outputs[i].role.Ext())
      && p.For(Roles(files)[i]) == Ok(g.outputs[i].data)
  {
    RunJobs(BaseName(files.shp.name), Jobs(files, p))
  }

  /** The geometry and projection files pass through generation unchanged,
      and so does the index unless attributes are to be removed; a geometry
      file long enough for its header is always generated. */
  lemma {:induction false} GeneratePassesThrough(files: ShapefileSet, geometry: u32, attributes: u32)
    ensures var g := Generate(files, PatchAll(files, geometry, attributes));
      |files.shp.data| >= MainFile.HeaderFieldsEnd ==> |g.outputs| >= 1
    ensures var g := Generate(files, PatchAll(files, geometry, attributes));
      forall i | 0 <= i < |g.outputs| ::
        && (g.outputs[i].role == Geometry ==> g.outputs[i].data == files.shp.data)
        && (g.outputs[i].role == Projection ==> files.prj.Some? && g.outputs[i].data == files.prj.value.data)
        && (g.outputs[i].role == Index && geometry >= attributes ==>
              files.shx.Some? && g.outputs[i].data == files.shx.value.data)
  {
    PatchAllPassesThrough(files, geometry, attributes);
    GenerateKeeps(files, PatchAll(files, geometry, attributes), geometry >= attributes);
  }

  /** The repair functions return the geometry file, the projection file
      and (unless attributes are to be removed) the index unchanged, or
      throw; the geometry file only throws when it is shorter than its
      header fields. */
  lemma {:induction false} PatchAllPassesThrough(files: ShapefileSet, geometry: u32, attributes: u32)
    ensures var p := PatchAll(files, geometry, attributes);
      && (p.geometry.Ok? ==> p.geometry.value == files.shp.data)
      && (|files.shp.data| >= MainFile.HeaderFieldsEnd ==> p.geometry.Ok?)
      && (files.prj.Some? ==> p.projection == Ok(files.prj.value.data))
      && (files.shx.Some? && geometry >= attributes && p.index.Ok? ==> p.index.value == files.shx.value.data)
  {
  }

  /** What generation keeps of patches that return their input unchanged. */
  lemma {:induction false} GenerateKeeps(files: ShapefileSet, p: Patches, keepIndex: bool)
    requires p.geometry.Ok? ==> p.geometry.value == files.shp.data
    requires files.prj.Some? ==> p.projection == Ok(files.prj.value.data)
    requires files.shx.Some? && keepIndex && p.index.Ok? ==> p.index.value == files.shx.value.data
    ensures var g := Generate(files, p);
      p.geometry.Ok? ==> |g.outputs| >= 1
    ensures var g := Generate(files, p);
      forall i | 0 <= i < |g.outputs| ::
        && (g.outputs[i].role == Geometry ==> g.outputs[i].data == files.shp.data)
        && (g.outputs[i].role == Projection ==> files.prj.Some? && g.outputs[i].data == files.prj.value.data)
        && (g.outputs[i].role == Index && keepIndex ==>
              files.shx.Some? && g.outputs[i].data == files.shx.value.data)
  {
    var g := Generate(files, p);
    var rs := Roles(files);
    forall i | 0 <= i < |g.outputs|
      ensures
        && (g.outputs[i].role == Geometry ==> g.outputs[i].data == files.shp.data)
        && (g.outputs[i].role == Projection ==> files.prj.Some? && g.outputs[i].data == files.prj.value.data)
        && (g.outputs[i].role == Index && keepIndex ==>
              files.shx.Some? && g.outputs[i].data == files.shx.value.data)
    {
      assert rs[i] in rs;
      OutputKept(files, p, keepIndex, g.outputs[i]);
    }
  }

  /** One output of such patches, whatever its position. */
  lemma {:induction false} OutputKept(files: ShapefileSet, p: Patches, keepIndex: bool, o: OutputFile)
    requires p.geometry.Ok? ==> p.geometry.value == files.shp.data
    requires files.prj.Some? ==> p.projection == Ok(files.prj.value.data)
    requires files.shx.Some? && keepIndex && p.index.Ok? ==> p.index.value == files.shx.value.data
    requires o.role in Roles(files) && p.For(o.role) == Ok(o.data)
    ensures o.role == Geometry ==> o.data == files.shp.data
    ensures o.role == Projection ==> files.prj.Some? && o.data == files.prj.value.data
    ensures o.role == Index && keepIndex ==> files.shx.Some? && o.data == files.shx.value.data
  {
  }

  datatype Analysis = Analysis(shpRecords: u32, dbfRecords: u32, diagnostics: seq<Diagnostic>)

  /** analyzeShpFile then analyzeDbfFile: a read that runs past the end of
      its buffer leaves the count at 0 and records an error, and the run
      goes on. */
  function Analyse(files: ShapefileSet): (a: Analysis)
    ensures |a.diagnostics| == 2
    ensures MainFile.AnalyzeShp(files.shp.data).ShpUnreadable? ==>
      a.shpRecords == 0 && a.diagnostics[0].Level() == Error
    ensures MainFile.AnalyzeShp(files.shp.data).ShpRead? ==>
      && MainFile.HeaderFieldsEnd <= |files.shp.data|
      && var fileLengthBytes := 2 * MainFile.FileLengthWords(files.shp.data);
      && MainFile.CountFrom(files.shp.data, fileLengthBytes, MainFile.HeaderSize) == Ok(a.shpRecords as nat)
      && a.diagnostics[0] == ShpAnalysed(a.shpRecords as nat, fileLengthBytes, MainFile.ShapeType(files.shp.data))
    ensures |files.shp.data| < MainFile.HeaderFieldsEnd ==>
      a.shpRecords == 0 && a.diagnostics[0].Level() == Error
    ensures |files.dbf.data| < Dbf.HeaderFieldsEnd ==>
      a.dbfRecords == 0 && a.diagnostics[1].Level() == Error
    ensures |files.dbf.data| >= Dbf.HeaderFieldsEnd ==>
      && a.dbfRecords == ReadU32LE(files.dbf.data, Dbf.RecordCountOffset)
      && a.diagnostics[1] == DbfAnalysed(a.dbfRecords as nat, Dbf.HeaderLength(files.dbf.data), Dbf.RecordLength(files.dbf.data))
  {
    var shp := MainFile.AnalyzeShp(files.shp.data);
    var header := Dbf.ReadDbfHeader(files.dbf.data);
    Analysis(shp.Records(), Dbf.RecordsOrZero(header), [ShpDiagnostic(shp), DbfDiagnostic(header)])
  }

  /** The messages after the analysis: compareRecords' verdict, then
      either the completion message naming the outputs and the download
      note, or the note that nothing needed repair. */
  function Messages(files: ShapefileSet, plan: RepairPlan): (m: seq<Diagnostic>)
    ensures |m| == if plan.NoRepair? then 2 else 3
    ensures m[0].Level() == if plan.NoRepair? then Success else Warning
    ensures plan.NeedsRepair() ==> m[0].count == plan.count
    ensures plan.NoRepair? ==> m[1].Level() == Info
    ensures plan.NeedsRepair() ==>
      && m[1].RepairFinished?
      && OutputName(BaseName(files.shp.name), ShxExt) in m[1].names
      && (OutputName(BaseName(files.shp.name), PrjExt) in m[1].names <==> files.prj.Some?)
      && m[2].Level() == Info
  {
    if plan.NoRepair? then [PlanDiagnostic(plan), NothingToRepair]
    else [PlanDiagnostic(plan), RepairFinished(AnnouncedNames(files, BaseName(files.shp.name))), FilesGenerated]
  }

  /** One run: analysis, planning, then generation only when the plan
      needs a repair. A failed read does not stop the run; it plans with a
      count of 0. */
  function Restore(files: ShapefileSet): (r: Report)
    ensures var a := Analyse(files);
      && r.shpRecords == a.shpRecords && r.dbfRecords == a.dbfRecords
      && |r.diagnostics| >= 4 && r.diagnostics[..2] == a.diagnostics
    ensures |files.shp.data| < MainFile.HeaderFieldsEnd ==>
      r.shpRecords == 0 && r.diagnostics[0].Level() == Error
    ensures |files.dbf.data| < Dbf.HeaderFieldsEnd ==>
      r.dbfRecords == 0 && r.diagnostics[1].Level() == Error
    ensures r.plan == Plan(r.shpRecords, r.dbfRecords)
    ensures r.diagnostics[2..] == Messages(files, r.plan)
    // no repair, no output
    ensures r.plan.NoRepair? ==> r.outputs == [] && !r.generationFailed
    // otherwise the files generated, in order, until one throws
    ensures r.plan.NeedsRepair() ==>
      var g := Generate(files, PatchAll(files, r.shpRecords, r.dbfRecords));
      r.outputs == g.outputs && r.generationFailed == g.failed
  {
    var analysis := Analyse(files);
    var geometry := analysis.shpRecords;
    var attributes := analysis.dbfRecords;
    var plan := Plan(geometry, attributes);
    var diagnostics := analysis.diagnostics + Messages(files, plan);
    if plan.NoRepair? then
      Report(geometry, attributes, plan, diagnostics, [], false)
    else
      var generation := Generate(files, PatchAll(files, geometry, attributes));
      Report(geometry, attributes, plan, diagnostics, generation.outputs, generation.failed)
  }

  /** After a repair of a well-formed attribute table (its declared records
      lie within the file), the attribute output is produced and its header
      re-reads with the geometry count, its own header and record lengths. */
  lemma {:induction false} RestoreReconcilesAttributes(files: ShapefileSet)
    requires |files.shp.data| >= MainFile.HeaderFieldsEnd
    requires |files.dbf.data| >= Dbf.HeaderFieldsEnd
    requires Dbf.HeaderLength(files.dbf.data) >= Dbf.HeaderFieldsEnd
    requires Dbf.RecordOffset(files.dbf.data, ReadU32LE(files.dbf.data, Dbf.RecordCountOffset)) <= |files.dbf.data|
    requires Restore(files).plan.NeedsRepair()
    ensures var r := Restore(files);
      && |r.outputs| >= 2
      && r.outputs[1].role == Attributes
      && Dbf.ReadDbfHeader(r.outputs[1].data)
           == Ok(Dbf.DbfHeader(r.shpRecords, Dbf.HeaderLength(files.dbf.data), Dbf.RecordLength(files.dbf.data)))
  {
    var r := Restore(files);
    var b := files.dbf.data;
    var p := PatchAll(files, r.shpRecords, r.dbfRecords);
    if r.plan.AddAttributeRecords? {
      Dbf.AddRecordsRereads(b, r.shpRecords, r.dbfRecords);
    } else {
      Dbf.RemoveRecordsRereads(b, r.shpRecords, r.dbfRecords);
    }
    GeneratePassesThrough(files, r.shpRecords, r.dbfRecords);
    GenerateReachesAttributes(files, p);
  }

  /** In the remove plan a well-formed index with more entries than the
      attribute table had is cut to the attribute table's ORIGINAL count,
      not to the geometry count the attribute table is cut to. */
  lemma {:induction false} RestoreIndexKeepsAttributeCount(files: ShapefileSet)
    requires |files.shp.data| >= MainFile.HeaderFieldsEnd
    requires |files.dbf.data| >= Dbf.HeaderFieldsEnd
    requires Dbf.HeaderLength(files.dbf.data) >= Dbf.HeaderFieldsEnd
    requires Dbf.RecordOffset(files.dbf.data, ReadU32LE(files.dbf.data, Dbf.RecordCountOffset)) <= |files.dbf.data|
    requires files.shx.Some?
    requires var x := files.shx.value.data;
      && MainFile.FileLengthOffset + 4 <= |x|
      && |x| == 2 * MainFile.FileLengthWords(x)
      && (|x| - MainFile.HeaderSize) % 8 == 0
      && IndexFile.EntryCount(x) > ReadU32LE(files.dbf.data, Dbf.RecordCountOffset)
    requires Restore(files).plan.RemoveAttributeRecords?
    ensures var r := Restore(files);
      && |r.outputs| >= 3
      && r.outputs[2].role == Index
      && MainFile.FileLengthOffset + 4 <= |r.outputs[2].data|
      && IndexFile.EntryCount(r.outputs[2].data) == r.dbfRecords
      && IndexFile.EntryCount(r.outputs[2].data) > r.shpRecords
  {
    var r := Restore(files);
    assert r.outputs == Generate(files, PatchAll(files, r.shpRecords, r.dbfRecords)).outputs;
    GenerateCutsIndex(files, r.shpRecords, r.dbfRecords);
  }

  /** Generation in the remove plan, for a well-formed attribute table and
      a well-formed index with more than `attributes` entries. */
  lemma {:induction false} GenerateCutsIndex(files: ShapefileSet, geometry: u32, attributes: u32)
    requires geometry < attributes
    requires |files.shp.data| >= MainFile.HeaderFieldsEnd
    requires |files.dbf.data| >= Dbf.HeaderFieldsEnd
    requires Dbf.HeaderLength(files.dbf.data) >= Dbf.HeaderFieldsEnd
    requires Dbf.RecordOffset(files.dbf.data, attributes) <= |files.dbf.data|
    requires files.shx.Some?
    requires var x := files.shx.value.data;
      && MainFile.FileLengthOffset + 4 <= |x|
      && |x| == 2 * MainFile.FileLengthWords(x)
      && (|x| - MainFile.HeaderSize) % 8 == 0
      && IndexFile.EntryCount(x) > attributes
    ensures var g := Generate(files, PatchAll(files, geometry, attributes));
      && |g.outputs| >= 3
      && g.outputs[2].role == Index
      && MainFile.FileLengthOffset + 4 <= |g.outputs[2].data|
      && IndexFile.EntryCount(g.outputs[2].data) == attributes
  {
    var rs := Roles(files);
    assert rs[0] == Geometry && rs[1] == Attributes && rs[2] == Index;
    IndexPatchCuts(files, geometry, attributes);
    AttributesPatchSucceeds(files, geometry, attributes);
    GenerateReachesIndex(files, PatchAll(files, geometry, attributes));
  }

  /** The remove plan succeeds on an attribute table whose declared records
      lie within the file. */
  lemma {:induction false} AttributesPatchSucceeds(files: ShapefileSet, geometry: u32, attributes: u32)
    requires geometry < attributes
    requires |files.dbf.data| >= Dbf.HeaderFieldsEnd
    requires Dbf.HeaderLength(files.dbf.data) >= Dbf.HeaderFieldsEnd
    requires Dbf.RecordOffset(files.dbf.data, attributes) <= |files.dbf.data|
    ensures Dbf.PatchDbf(files.dbf.data, geometry, attributes).Ok?
  {
    Dbf.RemoveRecordsRereads(files.dbf.data, geometry, attributes);
  }

  lemma {:induction false} IndexPatchCuts(files: ShapefileSet, geometry: u32, attributes: u32)
    requires geometry < attributes
    requires files.shx.Some?
    requires var x := files.shx.value.data;
      && MainFile.FileLengthOffset + 4 <= |x|
      && |x| == 2 * MainFile.FileLengthWords(x)
      && (|x| - MainFile.HeaderSize) % 8 == 0
      && IndexFile.EntryCount(x) > attributes
    ensures var p := IndexFile.PatchShx(files.shx.value.data, geometry, attributes);
      p.Ok? && MainFile.FileLengthOffset + 4 <= |p.value| && IndexFile.EntryCount(p.value) == attributes
  {
    IndexFile.TruncateIndexWellFormed(files.shx.value.data, attributes);
  }

  /** Generation gets past the attribute table when the geometry and
      attribute patches succeed. */
  lemma {:induction false} GenerateReachesAttributes(files: ShapefileSet, p: Patches)
    requires p.geometry.Ok? && p.attributes.Ok?
    ensures var g := Generate(files, p);
      2 <= |g.outputs| && g.outputs[1].role == Attributes && g.outputs[1].data == p.attributes.value
  {
    var rs := Roles(files);
    assert rs[0] == Geometry && rs[1] == Attributes;
  }

  /** Generation gets past the index when the geometry, attribute and
      index patches all succeed. */
  lemma {:induction false} GenerateReachesIndex(files: ShapefileSet, p: Patches)
    requires files.shx.Some?
    requires p.geometry.Ok? && p.attributes.Ok? && p.index.Ok?
    ensures var g := Generate(files, p);
      3 <= |g.outputs| && g.outputs[2].role == Index && g.outputs[2].data == p.index.value
  {
    var rs := Roles(files);
    assert rs[0] == Geometry && rs[1] == Attributes && rs[2] == Index;
  }
}
