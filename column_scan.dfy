/**
 * The module search that hakai.py and main.py share, word for word, in
 * `TimetableParser._find_module_details` / `find_module_details`, and the
 * location list both build while loading the file. The cleaned DataFrame
 * is given as a value: its column names (the days), its index (the first
 * CSV column, the time slots) and its cells column by column.
 */
module ColumnScan {
  import opened Wrappers
  import opened Strings

  /** A cell or index label: `Some(text)` for a string, `None` for NaN or a number. */
  type Cell = Option<string>

  /** The DataFrame after cleaning: `values[c][t]` is column `c` at index position `t`. */
  datatype Frame = Frame(columns: seq<string>, index: seq<Cell>, values: seq<seq<Cell>>)

  /** One value per column name, each column as long as the index. */
  predicate Rectangular(f: Frame) {
    |f.values| == |f.columns| && forall c :: 0 <= c < |f.values| ==> |f.values[c]| == |f.index|
  }

  /** `{'location', 'day', 'time', 'details'}`. */
  datatype Detail = Detail(location: string, day: string, time: Cell, details: string)

  const DefaultLocation: string := "BIUST - Unknown Location"

  /** A line of the file that the location comprehension keeps (hakai.py:31, main.py:30). */
  predicate IsLocationLine(line: string) {
    Contains(line, "BIUST -") && !Contains(line, "Semester")
  }

  /** `self.locations`: the kept lines, stripped, in file order (hakai.py:29-32, main.py:28-31). */
  function LocationLines(lines: seq<string>): seq<string> {
    if lines == [] then []
    else
      var line := lines[|lines| - 1];
      LocationLines(lines[..|lines| - 1]) + (if IsLocationLine(line) then [Strip(line)] else [])
  }

  /** `location_matches`: the locations holding "BIUST -" (hakai.py:83-86, main.py:66-69). */
  function LocationMatches(locations: seq<string>): seq<string> {
    if locations == [] then []
    else
      var loc := locations[|locations| - 1];
      LocationMatches(locations[..|locations| - 1]) + (if Contains(loc, "BIUST -") then [loc] else [])
  }

  /**
   * `current_location` from the first cell on: the first match is taken
   * before any cell is tested, and nothing else ever changes it.
   */
  function ResultLocation(locations: seq<string>): string {
    var matches := LocationMatches(locations);
    if matches != [] then matches[0] else DefaultLocation
  }

  /** `isinstance(modules, str) and module_code.upper() in modules.upper()`. */
  predicate Matches(code: string, cell: Cell) {
    cell.Some? && Contains(Upper(cell.value), Upper(code))
  }

  /** The result the cell at column `c`, index position `t` gives. */
  function DetailAt(f: Frame, location: string, c: nat, t: nat): Detail
    requires Rectangular(f) && c < |f.columns| && t < |f.index| && f.values[c][t].Some?
  {
    Detail(location, f.columns[c], f.index[t], f.values[c][t].value)
  }

  /** The results from index positions before `t` of column `c`. */
  function ColumnDetails(f: Frame, code: string, location: string, c: nat, t: nat): seq<Detail>
    requires Rectangular(f) && c < |f.columns| && t <= |f.index|
  {
    if t == 0 then []
    else
      ColumnDetails(f, code, location, c, t - 1)
      + (if Matches(code, f.values[c][t - 1]) then [DetailAt(f, location, c, t - 1)] else [])
  }

  /** The results from the columns before `n`, column by column. */
  function Details(f: Frame, code: string, location: string, n: nat): seq<Detail>
    requires Rectangular(f) && n <= |f.columns|
  {
    if n == 0 then [] else Details(f, code, location, n - 1) + ColumnDetails(f, code, location, n - 1, |f.index|)
  }

  /** What `find_module_details(code)` returns. */
  function FindSpec(locations: seq<string>, f: Frame, code: string): seq<Detail>
    requires Rectangular(f)
  {
    Details(f, code, ResultLocation(locations), |f.columns|)
  }

  /** hakai.py:73-99 and main.py:56-82: the day loop over the columns, the time loop over one column. */
  method ScanColumns(locations: seq<string>, f: Frame, code: string) returns (results: seq<Detail>)
    requires Rectangular(f)
    ensures results == FindSpec(locations, f, code)
  {
    results := [];
    var current := DefaultLocation;
    ghost var location := ResultLocation(locations);
    for c := 0 to |f.columns|
      invariant current == DefaultLocation || current == location
      invariant results == Details(f, code, location, c)
    {
      for t := 0 to |f.index|
        invariant current == DefaultLocation || current == location
        invariant results == Details(f, code, location, c) + ColumnDetails(f, code, location, c, t)
      {
        var matches := LocationMatches(locations);
        if matches != [] {
          current := matches[0];
        }
        var cell := f.values[c][t];
        if cell.Some? && Contains(Upper(cell.value), Upper(code)) {
          results := results + [Detail(current, f.columns[c], f.index[t], cell.value)];
        }
      }
    }
  }
}
