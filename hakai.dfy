/**
 * `TimetableParser` of hakai.py: built from the lines of the timetable file
 * and the DataFrame cleaned from it, it searches the frame for one module
 * code, or for every code of its module list.
 */
module Hakai {
  import opened Seqs
  import opened Strings
  import opened ColumnScan
  import ColumnScanFacts

  /** The keys `generate_module_timetable` writes for the codes `modules`, in insertion order. */
  function ModulesFound(locations: seq<string>, df: Frame, modules: seq<string>): seq<string>
    requires Rectangular(df)
  {
    if modules == [] then []
    else
      var keys := ModulesFound(locations, df, modules[..|modules| - 1]);
      var code := modules[|modules| - 1];
      if FindSpec(locations, df, code) != [] && code !in keys then keys + [code] else keys
  }

  /**
   * The timetable has a key, once, for exactly the listed codes with at
   * least one result (hakai.py:56-64).
   */
  lemma {:induction false} ModulesFoundExactly(locations: seq<string>, df: Frame, modules: seq<string>)
    requires Rectangular(df)
    ensures Distinct(ModulesFound(locations, df, modules))
    ensures forall m :: m in ModulesFound(locations, df, modules) <==> m in modules && FindSpec(locations, df, m) != []
  {
    if modules != [] {
      var init := modules[..|modules| - 1];
      ModulesFoundExactly(locations, df, init);
      assert modules == init + [modules[|modules| - 1]];
    }
  }

  class TimetableParser {
    var moduleList: seq<string>
    var locations: seq<string>
    var df: Frame

    /** The frame is rectangular and every location line holds "BIUST -". */
    ghost predicate Valid()
      reads this
    {
      Rectangular(df) && forall x :: x in locations ==> Contains(x, "BIUST -")
    }

    /** `__init__` with `_load_and_clean_csv`'s file reads done by the caller (hakai.py:6-32). */
    constructor(lines: seq<string>, df: Frame, moduleList: seq<string>)
      requires Rectangular(df)
      ensures Valid()
      ensures this.moduleList == moduleList && locations == LocationLines(lines) && this.df == df
    {
      this.moduleList := moduleList;
      this.locations := [];
      this.df := df;
      this.locations := LocationLines(lines);
      ColumnScanFacts.LocationsHoldBiust(lines);
    }

    /**
     * `_find_module_details` (hakai.py:66-99): the search, every result at
     * the first location line or "BIUST - Unknown Location".
     */
    method FindModuleDetails(code: string) returns (results: seq<Detail>)
      requires Valid()
      ensures results == FindSpec(locations, df, code)
      ensures forall i :: 0 <= i < |results| ==>
        results[i].location == if locations != [] then locations[0] else DefaultLocation
    {
      results := ScanColumns(locations, df, code);
      ColumnScanFacts.FindResults(locations, df, code);
      ColumnScanFacts.MatchesKeepAll(locations);
    }

    /** `generate_module_timetable` (hakai.py:50-64): keys in insertion order and the dict. */
    method GenerateModuleTimetable() returns (keys: seq<string>, timetable: map<string, seq<Detail>>)
      requires Valid()
      ensures keys == ModulesFound(locations, df, moduleList)
      ensures forall m :: m in timetable <==> m in keys
      ensures forall m :: m in timetable ==> timetable[m] == FindSpec(locations, df, m)
    {
      keys, timetable := [], map[];
      for i := 0 to |moduleList|
        invariant keys == ModulesFound(locations, df, moduleList[..i])
        invariant forall m :: m in timetable <==> m in keys
        invariant forall m :: m in timetable ==> timetable[m] == FindSpec(locations, df, m)
      {
        assert moduleList[..i + 1][..i] == moduleList[..i];
        var code := moduleList[i];
        var details := FindModuleDetails(code);
        if details != [] {
          if code !in timetable {
            keys := keys + [code];
          }
          timetable := timetable[code := details];
        }
      }
      assert moduleList[..|moduleList|] == moduleList;
    }
  }
}
