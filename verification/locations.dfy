/** Source positions and the key derived from them. */
module Locations {
  import opened Wrappers

  /** A position in an original or generated source; `column` may be absent. */
  datatype Location = Location(sourceId: string, line: int, column: Option<int>)

  /** The identity under which a breakpoint is stored. `makeLocationId` returns a
      string; here it is a structured value, so distinct triples are distinct keys. */
  datatype LocationId = LocationId(sourceId: string, line: int, column: int)

  /** `makeLocationId`: an absent column counts as column 0. */
  function MakeLocationId(loc: Location): LocationId
  {
    LocationId(loc.sourceId, loc.line, loc.column.GetOr(0))
  }

  /** Two locations share a key exactly when they agree on source, line and
      column, reading an absent column as 0. */
  lemma MakeLocationIdInjective(a: Location, b: Location)
    ensures MakeLocationId(a) == MakeLocationId(b)
        <==> a.sourceId == b.sourceId && a.line == b.line && a.column.GetOr(0) == b.column.GetOr(0)
  {
  }
}
