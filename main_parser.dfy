/**
 * `TimetableParser` of main.py: the same location list and search as
 * hakai.py, without a module list; the caller asks for one code at a time.
 */
module MainParser {
  import opened Strings
  import opened ColumnScan
  import ColumnScanFacts

  class TimetableParser {
    var locations: seq<string>
    var df: Frame

    /** The frame is rectangular and every location line holds "BIUST -". */
    ghost predicate Valid()
      reads this
    {
      Rectangular(df) && forall x :: x in locations ==> Contains(x, "BIUST -")
    }

    /** `__init__` with `_load_and_clean_csv`'s file reads done by the caller (main.py:6-31). */
    constructor(lines: seq<string>, df: Frame)
      requires Rectangular(df)
      ensures Valid()
      ensures locations == LocationLines(lines) && this.df == df
    {
      this.locations := [];
      this.df := df;
      this.locations := LocationLines(lines);
      ColumnScanFacts.LocationsHoldBiust(lines);
    }

    /**
     * `find_module_details` (main.py:49-82): the search, every result at the
     * first location line or "BIUST - Unknown Location".
     */
    method FindModuleDetails(code: string) returns (results: seq<Detail>)
      requires Valid()
      ensures results == FindSpec(locations, df, code)
      ensures forall i :: 0 <= i < |results| ==>
        results[i].location == if locations != [] then locations[0] else DefaultLocation
    {
      results := ScanColumns(locations, df, code);
      ColumnScanFacts.FindResults(locations, df, code);
      ColumnScanFacts.MatchesKeepAll(locations);
    }
  }
}
