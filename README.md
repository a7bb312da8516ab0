# Timetable consolidation and extraction, modelled in Dafny

This project models the data-processing core of a university timetable
tool. The tool reads a timetable exported as CSV and looks up which
module (course) is taught where and when. It then tidies the per-module
schedule lists it produces. The model covers six pieces:

- **`merge.py` `combine_entries`** (module `Merge`, facts in `MergeFacts`,
  worked cases in `MergeExamples`).
  - Sorts each module's entries by day and start time.
  - Keys every entry by (module, location, day, details).
  - Reads `HHMM-HHMM` ranges with strptime and moves an end that lies
    before its start to the next day.
  - Widens the stored range when the new one touches it within one minute.
  - Otherwise stores the new range in place of the old one.
  - Finally writes one record per key, grouped by module in
    first-appearance order.
- **`combine_json_duplicates.py`** (module `CombineDuplicates`, worked
  cases in `CombineExamples`).
  - `parse_time` and `format_time_range`.
  - The grouping and hull logic of `combine_schedules`: events are grouped
    by (location, class, day), and each group becomes one event running
    from the earliest start to the latest end.
- **`pp.py` `extract_module_schedules`** (modules `RowScan` and
  `RowScanFacts`). It makes a row-by-row pass over the grid:
  - a "BIUST -" row sets the current location;
  - a time row's Monday to Friday cells are searched for every listed
    module code;
  - modules without entries are dropped at the end.
- **`hakai.py` and `main.py` `TimetableParser`** (modules `ColumnScan`,
  `ColumnScanFacts`, `Hakai` and `MainParser`).
  - The location list built from the file's lines.
  - The column-by-column search for a module code. The two files share it
    word for word.
  - In hakai.py, `generate_module_timetable`.
- **`linker.py` `link_cells_to_colors`** (module `Linker`): pairs every CSV
  cell with the colour at the same position, or none.

Shared helpers, which need no rows of their own in the table below:

- `Wrappers`: the Option type.
- `Seqs`: distinctness, counting and first-occurrence dedup.
- `Strings`: the Python string operations the code uses (`in`, `upper`,
  `strip`, `split`, string ordering).
- `Clock`: `strptime`/`strftime` with the format `%H%M`, on minutes since
  midnight.

Each imperative loop in the source is a method. Its `ensures` ties the
result to a specification function, and lemmas state what that function
promises. Python dicts, which keep insertion order, are modelled in one of
two ways:

- as a sequence of keys plus a `map`;
- as a sequence of (key, list) items.

## Model

| member | source | states |
|---|---|---|
| Clock.Strptime | combine_json_duplicates.py:8-9 | `strptime(s, "%H%M")` accepts only 2 to 4 ASCII digits, with the hour giving back its second digit when no minute digit follows it, and yields a time of day (< 1440 minutes); None where Python raises |
| Clock.TwoDigitsReadAsHourAndMinute | combine_json_duplicates.py:8-9 | two digits read as a one-digit hour and a one-digit minute ("12" is 01:02) |
| Clock.StrptimeExamples | combine_json_duplicates.py:8-9 | "123" reads as 12:03, "930" as 09:30 and "12" as 01:02, while "2400" and "1" raise |
| Clock.Strftime | combine_json_duplicates.py:14 | `strftime('%H%M')` always writes four characters |
| Clock.StrptimeOfStrftime | combine_json_duplicates.py:8-14 | every time of day written by strftime reads back as itself |
| Clock.StrftimeOfStrptime | combine_json_duplicates.py:8-14 | a four-character time strptime accepts is written back unchanged |
| Clock.FormatOfCanonicalRange | merge.py:22-28 | a canonical `HHMM-HHMM` range, its end moved to the next day when before the start, is formatted back to itself |
| Clock.FormatRangeWraps | merge.py:55 | an end stored past midnight is written as the next day's time of day |
| Clock.CanonicalRangeSplit | merge.py:22 | a canonical range splits on '-' into exactly its two times |
| Merge.Shift | merge.py:27-28 | the end is moved forward by a day exactly when it lies before the start; the start is kept and the span is under a day long |
| Merge.EntrySpan | merge.py:22-28 | an entry's parsed range, when it parses, starts within the day and ends within two days, no earlier than its start |
| Merge.SortStartIsStart | merge.py:18-23 | the sort key's start time is the start of the entry's range |
| Merge.KeyLeTotal | merge.py:18 | the (day, start) sort order is total |
| Merge.KeyLeTransitive | merge.py:18 | the (day, start) sort order is transitive |
| Merge.Insert | merge.py:18 | inserting into the sorted list keeps every element (multiset) |
| Merge.SortEntries | merge.py:18 | `sorted` returns a permutation of the module's entries |
| Merge.InsertSorted | merge.py:18 | insertion keeps the list sorted by (day, start) |
| Merge.SortEntriesSorted | merge.py:18 | the entries are visited in (day, start) order |
| Merge.StepValid | merge.py:31-44 | one entry keeps the dict's invariant: key list distinct, equal to the map's keys, every span well formed |
| Merge.FoldModule | merge.py:20-44 | folding a module's entries preserves the dict's invariant |
| Merge.Consolidate | merge.py:14-44 | the `combined` dict after the whole input satisfies the invariant |
| Merge.ModuleIndex | merge.py:49 | finds the position of a module's list in the output, or -1 exactly when no list has that code |
| Merge.StoreRange | merge.py:31-44 | the scan of `combined.items()` widens a touching stored range to the hull, replaces a non-touching one, or appends a new key |
| Merge.FormatCombined | merge.py:47-56 | the formatting loop builds the grouped records of the stored keys in insertion order |
| Merge.ReadRange | merge.py:22-28 | None exactly when the time has no '-' or either half fails strptime; otherwise the span starts at the parsed start and ends less than a day after it, at the parsed end's time of day |
| Merge.WellFormedPermutation | merge.py:18-23 | sorting does not change whether every entry's time can be read |
| Merge.StoreModule | merge.py:18-44 | fails exactly when one of the module's times cannot be read; otherwise its entries are sorted (a permutation, still well formed) and stored in that order |
| Merge.CombineEntries | merge.py:4-58 | `combine_entries` raises (None) exactly when some entry's time cannot be read, and otherwise returns the consolidated, formatted records of its input |
| MergeFacts.FoldModuleKeys | merge.py:21-44 | after a module is folded, a key is stored exactly when it was stored before or some entry of the module has it |
| MergeFacts.StepFacts | merge.py:31-44 | one entry adds exactly its key, never moves the stored start later than its own, and leaves every other key's span alone |
| MergeFacts.ObservedInPermutation | merge.py:18-21 | sorting does not change which keys a module's entries carry |
| MergeFacts.ConsolidateKeys | merge.py:21-44 | the final dict holds exactly the keys of the input's entries |
| MergeFacts.RecordsOfModuleSound | merge.py:48-56 | every record of a module's list is its key's formatted span, and no session is listed twice |
| MergeFacts.RecordsOfModuleComplete | merge.py:48-56 | every stored key's record is in its module's list |
| MergeFacts.AddRecordDistinct | merge.py:49-50 | a list is opened only for a module not yet listed |
| MergeFacts.FormatTableShape | merge.py:47-56 | the output holds each module once, with exactly its keys' records in insertion order, and lists the modules in the order their first key appears |
| MergeFacts.ObservedModule | merge.py:16-21 | a module contributes a key exactly when it has at least one entry |
| MergeFacts.CombinedModules | merge.py:47-50 | the output lists distinct modules, and a module is listed exactly when it has an entry |
| MergeFacts.CombinedRecordsAreSessions | merge.py:21-56 | each output record is the formatted final span of an input key, and no module lists a session twice |
| MergeFacts.CombinedCoversSessions | merge.py:21-56 | every key seen in the input gives a record under its module |
| MergeFacts.StartsWitnessed | merge.py:18-44 | every stored start of a module equals the sort-key start of one of that key's entries already visited |
| MergeFacts.MergeKeepsStoredStart | merge.py:18-37 | because entries are sorted, the stored start never exceeds the next same-key entry's start, so the `min` of line 37 keeps the stored one |
| MergeExamples.SortPair | merge.py:18 | two same-day entries come out by start time, and ties keep input order (stable sort) |
| MergeExamples.ConsolidateOne | merge.py:16-44 | one module's dict is its sorted entries folded into an empty dict |
| MergeExamples.FoldTwo | merge.py:20-44 | two entries are stored one after the other |
| MergeExamples.FormatOne | merge.py:47-56 | a single key gives a single list with its record |
| MergeExamples.FormatTwo | merge.py:47-56 | two keys of one module give one list with both records, in order |
| MergeExamples.SameSessionTable | merge.py:31-44 | two ranges of one session leave one key holding their hull if they touch, else the later range |
| MergeExamples.StepTwiceSameKey | merge.py:31-44 | the same key stored twice holds the hull or the later span |
| MergeExamples.StepTwiceTwoKeys | merge.py:42-44 | two different keys are both stored, in order |
| MergeExamples.SameSessionSorted | merge.py:18-56 | one session visited as a, b yields one record: the hull or the later range |
| MergeExamples.SameSessionPair | merge.py:18-56 | a touching range merges into the hull, a gap makes the later range replace the earlier, and with distinct starts input order does not matter |
| MergeExamples.DistinctSessionsTable | merge.py:21-44 | two different sessions keep both spans, in visiting order |
| MergeExamples.DistinctSessionsPair | merge.py:18-56 | two sessions of one module and day give two records, the earlier start first |
| MergeExamples.SingleEntryKeepsItsTime | merge.py:4-58 | a lone entry with a canonical time comes back unchanged, even across midnight |
| MergeExamples.CanonicalEntrySpan | merge.py:22-55 | a canonical range is read into a span that formats back to the same text |
| MergeExamples.WrittenRangeSpan | merge.py:18-28 | a range written by strftime is read back as those times, with the end moved past midnight when needed |
| MergeExamples.ExampleTexts | merge.py:55 | the sample times as strftime writes them |
| MergeExamples.MidnightTexts | merge.py:55 | the midnight sample times as strftime writes them |
| MergeExamples.GapReplacesExample | merge.py:35-44 | 0900-0950 then 1000-1050 of one session do not touch, so only 1000-1050 is written |
| MergeExamples.ToleranceMergesExample | merge.py:35-38 | 0900-0950 and 0951-1040 lie within the one-minute tolerance and are written as 0900-1040 |
| MergeExamples.MidnightReplacesExample | merge.py:27-44 | 2330-0030 and 0030-0120 are sorted by start, so the later-day range comes first and the overnight one replaces it |
| CombineDuplicates.ParseTime | combine_json_duplicates.py:4-10 | a parsed pair is two times of day, and the string split on '-' into exactly two pieces; None where Python raises |
| CombineDuplicates.FormatTimeRangeCanonical | combine_json_duplicates.py:12-14 | `format_time_range` writes a canonical `HHMM-HHMM` string |
| CombineDuplicates.ParseOfFormat | combine_json_duplicates.py:4-14 | parsing a formatted range gives the two times back |
| CombineDuplicates.FormatOfParse | combine_json_duplicates.py:4-14 | a canonical range parses and formats back to itself |
| CombineDuplicates.GroupKeysMembers | combine_json_duplicates.py:28-33 | a key of `event_groups` is listed exactly when some event has it |
| CombineDuplicates.MembersOfAbsentKey | combine_json_duplicates.py:28-33 | a key no event has has no group |
| CombineDuplicates.GroupKeysDistinct | combine_json_duplicates.py:31-32 | no group key is listed twice |
| CombineDuplicates.MembersCount | combine_json_duplicates.py:29-33 | a group holds every event with its key as often as the input does, and nothing else |
| CombineDuplicates.MembersAreKeyed | combine_json_duplicates.py:29-33 | an event is in a group exactly when it is in the input with that key |
| CombineDuplicates.EarliestStartIsMin | combine_json_duplicates.py:38-42 | `min(start_times)` is no later than any start and is one of them |
| CombineDuplicates.LatestEndIsMax | combine_json_duplicates.py:38-43 | `max(end_times)` is no earlier than any end and is one of them |
| CombineDuplicates.HullWithinDay | combine_json_duplicates.py:42-43 | both ends of the hull are times of day |
| CombineDuplicates.GroupsNonEmpty | combine_json_duplicates.py:28-38 | every listed group is non-empty, so `zip(*all_times)` and `min`/`max` never see an empty list |
| CombineDuplicates.CombinedEvent | combine_json_duplicates.py:36-52 | the i-th combined event carries the i-th group key and a canonical time running from the group's earliest start to its latest end, both attained |
| CombineDuplicates.CombinedKeyList | combine_json_duplicates.py:36-52 | one combined event per group, in group-key order |
| CombineDuplicates.CombinedKeys | combine_json_duplicates.py:28-52 | there are as many combined events as distinct keys, no two share a key, and every input key is represented |
| CombineDuplicates.GroupKeysFirstAppearance | combine_json_duplicates.py:31-32 | groups are listed in the order their keys first appear |
| CombineDuplicates.GroupsOfDistinct | combine_json_duplicates.py:28-33 | with distinct keys, every event is a group of its own, in input order |
| CombineDuplicates.CombineSingle | combine_json_duplicates.py:36-51 | a lone canonical event combines to itself |
| CombineDuplicates.CombineOfCombined | combine_json_duplicates.py:24-52 | a list of canonical events with distinct keys is left unchanged |
| CombineDuplicates.CombineTwice | combine_json_duplicates.py:24-52 | combining is idempotent |
| CombineDuplicates.GroupEvents | combine_json_duplicates.py:28-33 | the grouping loop builds the keys in first-appearance order, each mapped to its members in input order |
| CombineDuplicates.CombineGroupIsHull | combine_json_duplicates.py:38-51 | a group's combined event carries the group key and a canonical time that reads back as the group's earliest start and latest end, each attained by one of its events |
| CombineDuplicates.CombineGroupEvents | combine_json_duplicates.py:38-51 | the group loop raises (None) exactly when the group is empty or one of its times does not parse, and otherwise returns the group's hull |
| CombineDuplicates.GroupFailureRaises | combine_json_duplicates.py:36-40 | a group whose times do not all parse holds a time of the input that does not parse |
| CombineDuplicates.ModuleFromGroups | combine_json_duplicates.py:36-52 | once every group key is handled without a failure, every time of the module parses and the events appended in key order are its combined list |
| CombineDuplicates.CombineListedGroup | combine_json_duplicates.py:36-52 | a listed group that fails means some time of the module does not parse; one that succeeds means every event with its key parses and, when the whole module parses, yields the module's combined event at that position |
| CombineDuplicates.CombineModuleEvents | combine_json_duplicates.py:25-52 | one module's loop raises (None) exactly when some time does not parse, and otherwise builds the combined list |
| CombineDuplicates.CombineSchedules | combine_json_duplicates.py:21-55 | raises (None) exactly when some module has a time that does not parse; otherwise every module, in input order, gets its combined list |
| CombineExamples.SameKeyPair | combine_json_duplicates.py:28-52 | two events with one key become one event spanning both |
| CombineExamples.GapTexts | combine_json_duplicates.py:12-14 | the sample times as `format_time_range` writes them |
| CombineExamples.MidnightTexts | combine_json_duplicates.py:12-14 | the midnight sample times as `format_time_range` writes them |
| CombineExamples.GapSpannedExample | combine_json_duplicates.py:36-52 | unlike merge.py, a gap does not matter: 0900-0950 and 1000-1050 give 0900-1050 |
| CombineExamples.MidnightExample | combine_json_duplicates.py:38-43 | times of day ignore midnight: 2330-0030 and 0030-0120 give 0030-0120 |
| RowScan.ScanCell | pp.py:34-44 | the module loop appends the entry to every listed module found in the upper-cased cell, once per listing, and changes no key |
| RowScan.ScanRow | pp.py:25-44 | the day loop adds the entries of columns 1 to 5 of a time row |
| RowScan.NewSchedules | pp.py:13-14 | every listed module gets an empty list, with keys in first-listing order |
| RowScan.KeepNonEmpty | pp.py:47 | the comprehension keeps the modules with non-empty lists, in key order |
| RowScan.ExtractModuleSchedules | pp.py:9-49 | the whole pass returns the specified extraction |
| RowScanFacts.CellMatchesRepeat | pp.py:34-44 | a cell gives module m one entry per listing of m when m is in its upper-cased text, else none |
| RowScanFacts.NoLocationAbove | pp.py:10-21 | no location is in force exactly when no location row lies above |
| RowScanFacts.LocationIsLastAbove | pp.py:19-21 | the location in force is the stripped first cell of the last location row above |
| RowScanFacts.DayCellsTrace | pp.py:28-44 | each entry of a row is the entry of a matching day cell |
| RowScanFacts.DayCellsOrdered | pp.py:28 | a row's entries go Monday to Friday |
| RowScanFacts.DayCellsComplete | pp.py:28-44 | every matching day cell of a row gives an entry |
| RowScanFacts.EntriesFromCells | pp.py:17-44 | each entry of a module is the entry of a matching cell: its location, day, time and stripped text |
| RowScanFacts.CellsRowMajor | pp.py:17-28 | the entries come row by row, then by day |
| RowScanFacts.CellsComplete | pp.py:17-44 | every cell in which a listed module is found gives it an entry |
| RowScanFacts.HasEntries | pp.py:34-47 | a module has entries exactly when it is listed and found in some day cell of a time row |
| RowScanFacts.KeptSound | pp.py:47 | every kept item is a key with its own non-empty entries |
| RowScanFacts.KeptDistinct | pp.py:47 | distinct keys give distinct kept codes |
| RowScanFacts.KeptComplete | pp.py:47 | every key with entries is kept |
| RowScanFacts.ExtractedModules | pp.py:13-49 | the result lists each module once with all its entries, and a module appears exactly when it is listed and found |
| ColumnScan.ScanColumns | hakai.py:73-99 | the day loop over columns and the time loop over each column return the specified results (identical to main.py:56-82) |
| ColumnScanFacts.LocationLinesExactly | hakai.py:29-32 | `self.locations` holds exactly the stripped lines with "BIUST -" and without "Semester" (main.py:28-31 likewise) |
| ColumnScanFacts.LocationsHoldBiust | hakai.py:29-32 | every stripped location still contains "BIUST -" |
| ColumnScanFacts.MatchesKeepAll | hakai.py:83-86 | filtering the locations for "BIUST -" keeps them all |
| ColumnScanFacts.ResultLocationOfLines | hakai.py:76-88 | every result carries the first location line, or "BIUST - Unknown Location" when there is none (main.py:59-71 likewise) |
| ColumnScanFacts.ColumnTrace | hakai.py:81-97 | a column's results are its matching cells, top to bottom |
| ColumnScanFacts.DetailsTrace | hakai.py:80-97 | the results are the matching cells, column by column |
| ColumnScanFacts.ColumnComplete | hakai.py:81-97 | every matching cell of a column gives a result |
| ColumnScanFacts.CellsComplete | hakai.py:80-97 | every matching cell gives a result |
| ColumnScanFacts.FindResults | hakai.py:80-97 | the results are exactly the matching cells in column-major order, each with its day, time label, unmodified text and the one location (main.py:63-80 likewise) |
| ColumnScanFacts.ResultCount | hakai.py:80-97 | there are as many results as cells holding the code case-insensitively |
| Hakai.ModulesFoundExactly | hakai.py:59-62 | the timetable's keys are distinct, and a code is a key exactly when it is listed and has results |
| Hakai.TimetableParser.constructor | hakai.py:6-32 | keeps the module list, the location lines and the frame |
| Hakai.TimetableParser.FindModuleDetails | hakai.py:66-99 | returns the specified results, every one carrying the first location or the default |
| Hakai.TimetableParser.GenerateModuleTimetable | hakai.py:50-64 | maps exactly the listed codes with results to their results |
| MainParser.TimetableParser.constructor | main.py:5-31 | keeps the location lines and the frame |
| MainParser.TimetableParser.FindModuleDetails | main.py:49-82 | returns the specified results, every one carrying the first location or the default |
| Linker.LinkedColors | linker.py:16-21 | each linked cell has a colour exactly when the colour grid reaches its row and column, and then it is the colour at that position |
| Linker.LinkCellsToColors | linker.py:14-24 | the two loops build one linked row per CSV row and one linked cell per CSV cell |
| Linker.LinkKeepsValues | linker.py:14-24 | dropping the colours gives the CSV back |
| Linker.OutsideColorsIgnored | linker.py:19 | colour entries outside the CSV's shape never reach the output |

## Left out

- File and JSON reading and writing, and `pandas.read_csv`. The rows, lines, frame and colour grid are parameters instead.
- DataFrame cleaning: `dropna` of empty columns, `set_index` and renaming columns to days (hakai.py:34-48, main.py:33-47). The cleaned frame is a parameter.
- The `__main__` sample data, `save_to_json`, `main()` and printing.
- course_finder.py, convert_excel.py, convert_excel_to_csv.py and the timetable-frontend are not part of this model.
- Strings.Upper: models only ASCII upper-casing. Python's Unicode case mapping is out of scope.
- Clock.Strptime: accepts ASCII digits only, where Python's `\d` also matches other Unicode digits.
- Exceptions are modelled as a None result: which exception is raised (`ValueError`, `IndexError`) is not.
- RowScan.ExtractModuleSchedules: requires each row to have a first cell and each time row its five day columns. pandas would raise otherwise.
- Merge.StoreRange: stores a non-touching range of an already stored key IN PLACE of the old one, as merge.py:43-44 does, so the earlier range is lost. The model states this behaviour and does not correct it.
- ColumnScan.ScanColumns: the location is fixed at the first match before any cell is read, as hakai.py:83-88 does. No per-row location is modelled, because the source has none.
- RowScan.ScanCell: a module listed twice gets every matching entry twice, as pp.py:34-44 does.
- pandas cells that are not strings (NaN, numbers) are modelled as `None`. For day cells the source only tests them for a code, so nothing is lost. The `time` index label that hakai.py:95 and main.py:78 copy into each result is also `None` when it is NaN or a number, so its value is not carried in that case.
- `datetime` values are minutes since midnight. merge.py's dates (1900-01-01 or 01-02) are only compared and formatted, so their calendar part is not modelled.
