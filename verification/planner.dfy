/** The reconciliation planner: compares the geometry record count with the
    attribute record count and decides how the attribute table must change.
    The tagged plan replaces the source's `needsRepair` / `repairType` pair. */
module Planner {

  datatype RepairPlan =
    | NoRepair
    | AddAttributeRecords(count: nat)     // 'add_dbf_records'
    | RemoveAttributeRecords(count: nat)  // 'remove_dbf_records'
  {
    /** The `needsRepair` flag of the source. */
    predicate NeedsRepair() {
      !NoRepair?
    }
  }

  /** The attribute record count after the plan has been carried out. */
  function ReconciledCount(p: RepairPlan, attributes: nat): int {
    match p
    case NoRepair => attributes
    case AddAttributeRecords(n) => attributes + n
    case RemoveAttributeRecords(n) => attributes - n
  }

  /** Classifies the difference `geometry - attributes`: exactly one of the
      three plans applies, its count is the size of the difference, and
      carrying it out brings the attribute count to the geometry count. */
  function Plan(geometry: nat, attributes: nat): (p: RepairPlan)
    ensures p.NoRepair? <==> geometry == attributes
    ensures p.AddAttributeRecords? <==> geometry > attributes
    ensures p.RemoveAttributeRecords? <==> geometry < attributes
    ensures p.NeedsRepair() ==> p.count > 0
    ensures ReconciledCount(p, attributes) == geometry
  {
    var difference := geometry - attributes;
    if difference == 0 then NoRepair
    else if difference > 0 then AddAttributeRecords(difference)
    else RemoveAttributeRecords(-difference)
  }
}
