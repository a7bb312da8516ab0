/**
 * `extract_module_schedules` (pp.py) over a grid of cells instead of a
 * DataFrame: a row whose first cell names a "BIUST -" venue sets the
 * current location; a row whose first cell holds a '-' is a time slot whose
 * columns 1 to 5 are Monday to Friday, and every module code found in a
 * cell's upper-cased text gets one entry for that cell.
 */
module RowScan {
  import opened Wrappers
  import opened Seqs
  import opened Strings

  /** A grid cell: `Some(text)` for a string, `None` for anything else pandas holds (NaN, a number). */
  type Cell = Option<string>

  type Grid = seq<seq<Cell>>

  /** `{'location', 'day', 'time', 'class'}`; the location is None before any location row. */
  datatype ScheduleEntry = ScheduleEntry(location: Option<string>, day: string, time: string, className: string)

  /** One item of `all_schedules`. */
  datatype ModuleSchedule = ModuleSchedule(code: string, entries: seq<ScheduleEntry>)

  /** `{'Module Schedules': all_schedules}`. */
  datatype Extracted = ModuleSchedules(schedules: seq<ModuleSchedule>)

  const Days: seq<string> := ["Monday", "Tuesday", "Wednesday", "Thursday", "Friday"]

  /** The first cell is a string holding "BIUST -" (pp.py:19). */
  predicate IsLocationRow(row: seq<Cell>)
    requires |row| > 0
  {
    row[0].Some? && Contains(row[0].value, "BIUST -")
  }

  /** Not a location row, and the first cell is a string holding '-' (pp.py:24). */
  predicate IsTimeRow(row: seq<Cell>)
    requires |row| > 0
  {
    !IsLocationRow(row) && row[0].Some? && Contains(row[0].value, "-")
  }

  /**
   * What the scan reads without raising: every row has a first cell, and a
   * time row has the five day columns after it.
   */
  predicate Shaped(grid: Grid) {
    forall r :: 0 <= r < |grid| ==> |grid[r]| > 0 && (IsTimeRow(grid[r]) ==> |grid[r]| >= 6)
  }

  /** `current_location` once the rows before `n` are read. */
  function LocationAfter(grid: Grid, n: nat): Option<string>
    requires Shaped(grid) && n <= |grid|
  {
    if n == 0 then None
    else if IsLocationRow(grid[n - 1]) then Some(Strip(grid[n - 1][0].value))
    else LocationAfter(grid, n - 1)
  }

  /** The entry that column `d` of a time row makes. */
  function CellEntry(row: seq<Cell>, location: Option<string>, d: nat): ScheduleEntry
    requires |row| >= 6 && 1 <= d <= 5 && row[0].Some? && row[d].Some?
  {
    ScheduleEntry(location, Days[d - 1], row[0].value, Strip(row[d].value))
  }

  /** What the module loop appends to `all_schedules[m]` for one cell, over the list `modules`. */
  function CellMatches(modules: seq<string>, m: string, value: string, e: ScheduleEntry): seq<ScheduleEntry> {
    if modules == [] then []
    else
      CellMatches(modules[..|modules| - 1], m, value, e)
      + (if modules[|modules| - 1] == m && Contains(Upper(value), m) then [e] else [])
  }

  /** What columns 1 up to `d` - 1 of a time row append to `all_schedules[m]`. */
  function DayEntries(row: seq<Cell>, location: Option<string>, modules: seq<string>, m: string, d: nat): seq<ScheduleEntry>
    requires |row| >= 6 && IsTimeRow(row) && 1 <= d <= 6
  {
    if d == 1 then []
    else
      DayEntries(row, location, modules, m, d - 1)
      + (if row[d - 1].Some? then CellMatches(modules, m, row[d - 1].value, CellEntry(row, location, d - 1)) else [])
  }

  /** What row `r` appends to `all_schedules[m]`. */
  function RowEntries(grid: Grid, modules: seq<string>, m: string, r: nat): seq<ScheduleEntry>
    requires Shaped(grid) && r < |grid|
  {
    if IsTimeRow(grid[r]) then DayEntries(grid[r], LocationAfter(grid, r), modules, m, 6) else []
  }

  /** `all_schedules[m]` once the rows before `n` are read. */
  function Entries(grid: Grid, modules: seq<string>, m: string, n: nat): seq<ScheduleEntry>
    requires Shaped(grid) && n <= |grid|
  {
    if n == 0 then [] else Entries(grid, modules, m, n - 1) + RowEntries(grid, modules, m, n - 1)
  }

  /** The comprehension of pp.py:47 over the keys `keys`: the modules with entries, in key order. */
  function Kept(grid: Grid, modules: seq<string>, keys: seq<string>): seq<ModuleSchedule>
    requires Shaped(grid)
  {
    if keys == [] then []
    else
      var m := keys[|keys| - 1];
      var entries := Entries(grid, modules, m, |grid|);
      Kept(grid, modules, keys[..|keys| - 1]) + (if entries != [] then [ModuleSchedule(m, entries)] else [])
  }

  /** The result of `extract_module_schedules(grid, modules)`. */
  function ExtractSpec(grid: Grid, modules: seq<string>): Extracted
    requires Shaped(grid)
  {
    ModuleSchedules(Kept(grid, modules, Dedup(modules)))
  }

  // ---------------------------------------------------------------- the procedure

  /** The module loop on one cell (pp.py:34-44): each listed module found in the upper-cased text gets the entry. */
  method ScanCell(schedules: map<string, seq<ScheduleEntry>>, modules: seq<string>, value: string, entry: ScheduleEntry)
    returns (updated: map<string, seq<ScheduleEntry>>)
    requires forall m :: m in modules ==> m in schedules
    ensures updated.Keys == schedules.Keys
    ensures forall m :: m in updated ==> updated[m] == schedules[m] + CellMatches(modules, m, value, entry)
  {
    updated := schedules;
    for k := 0 to |modules|
      invariant updated.Keys == schedules.Keys
      invariant forall m :: m in updated ==> updated[m] == schedules[m] + CellMatches(modules[..k], m, value, entry)
    {
      assert modules[..k + 1][..k] == modules[..k];
      var code := modules[k];
      if Contains(Upper(value), code) {
        updated := updated[code := updated[code] + [entry]];
      }
    }
    assert modules[..|modules|] == modules;
  }

  /** The day loop of one time row (pp.py:25-44). */
  method ScanRow(schedules: map<string, seq<ScheduleEntry>>, modules: seq<string>, row: seq<Cell>, location: Option<string>)
    returns (updated: map<string, seq<ScheduleEntry>>)
    requires |row| >= 6 && IsTimeRow(row)
    requires forall m :: m in modules ==> m in schedules
    ensures updated.Keys == schedules.Keys
    ensures forall m :: m in updated ==> updated[m] == schedules[m] + DayEntries(row, location, modules, m, 6)
  {
    var time := row[0].value;
    updated := schedules;
    for d := 1 to 6
      invariant updated.Keys == schedules.Keys
      invariant forall m :: m in updated ==> updated[m] == schedules[m] + DayEntries(row, location, modules, m, d)
    {
      if row[d].Some? {
        var value := row[d].value;
        var entry := ScheduleEntry(location, Days[d - 1], time, Strip(value));
        updated := ScanCell(updated, modules, value, entry);
      }
    }
  }

  /** `all_schedules[module] = []` for every listed module (pp.py:13-14): the dict's keys in insertion order. */
  method NewSchedules(modules: seq<string>) returns (keys: seq<string>, schedules: map<string, seq<ScheduleEntry>>)
    ensures keys == Dedup(modules)
    ensures forall m :: m in schedules <==> m in keys
    ensures forall m :: m in schedules ==> schedules[m] == []
  {
    keys, schedules := [], map[];
    for k := 0 to |modules|
      invariant keys == Dedup(modules[..k])
      invariant forall m :: m in schedules <==> m in keys
      invariant forall m :: m in schedules ==> schedules[m] == []
    {
      assert modules[..k + 1][..k] == modules[..k];
      if modules[k] !in schedules {
        keys := keys + [modules[k]];
      }
      schedules := schedules[modules[k] := []];
    }
    assert modules[..|modules|] == modules;
  }

  /** The comprehension of pp.py:47: the modules whose lists are non-empty, in key order. */
  method KeepNonEmpty(grid: Grid, modules: seq<string>, keys: seq<string>, schedules: map<string, seq<ScheduleEntry>>)
    returns (kept: seq<ModuleSchedule>)
    requires Shaped(grid)
    requires forall m :: m in keys ==> m in schedules && schedules[m] == Entries(grid, modules, m, |grid|)
    ensures kept == Kept(grid, modules, keys)
  {
    kept := [];
    for i := 0 to |keys|
      invariant kept == Kept(grid, modules, keys[..i])
    {
      assert keys[..i + 1][..i] == keys[..i];
      if schedules[keys[i]] != [] {
        kept := kept + [ModuleSchedule(keys[i], schedules[keys[i]])];
      }
    }
    assert keys[..|keys|] == keys;
  }

  /** pp.py:9-49, with the grid and the module list passed in. */
  method ExtractModuleSchedules(grid: Grid, modules: seq<string>) returns (result: Extracted)
    requires Shaped(grid)
    ensures result == ExtractSpec(grid, modules)
  {
    var keys, schedules := NewSchedules(modules);
    var location: Option<string> := None;
    DedupFacts(modules);
    for r := 0 to |grid|
      invariant location == LocationAfter(grid, r)
      invariant forall m :: m in schedules <==> m in keys
      invariant forall m :: m in schedules ==> schedules[m] == Entries(grid, modules, m, r)
    {
      var row := grid[r];
      if IsLocationRow(row) {
        location := Some(Strip(row[0].value));
      } else if row[0].Some? && Contains(row[0].value, "-") {
        schedules := ScanRow(schedules, modules, row, location);
      }
    }
    var kept := KeepNonEmpty(grid, modules, keys, schedules);
    result := ModuleSchedules(kept);
  }
}
