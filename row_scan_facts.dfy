/**
 * What `extract_module_schedules` promises about its result: which cells
 * feed which module, with which location, in which order, and which
 * modules are kept.
 */
module RowScanFacts {
  import opened Wrappers
  import opened Seqs
  import opened Strings
  import opened RowScan

  /** A listed module `m` is found in the upper-cased text of column `d` of time row `r`. */
  ghost predicate Matches(grid: Grid, modules: seq<string>, m: string, r: int, d: int)
    requires Shaped(grid)
  {
    0 <= r < |grid| && IsTimeRow(grid[r]) && 1 <= d <= 5 && grid[r][d].Some?
    && m in modules && Contains(Upper(grid[r][d].value), m)
  }

  /** The entry cell (r, d) makes, under the location in force at row r. */
  function EntryAt(grid: Grid, r: nat, d: nat): ScheduleEntry
    requires Shaped(grid) && r < |grid| && IsTimeRow(grid[r]) && 1 <= d <= 5 && grid[r][d].Some?
  {
    CellEntry(grid[r], LocationAfter(grid, r), d)
  }

  /** Each entry of `es` is the entry of the matching cell at the same index of `cs`. */
  ghost predicate Traced(grid: Grid, modules: seq<string>, m: string, es: seq<ScheduleEntry>, cs: seq<(nat, nat)>)
    requires Shaped(grid)
  {
    |cs| == |es| && forall i :: 0 <= i < |cs| ==>
      Matches(grid, modules, m, cs[i].0, cs[i].1) && es[i] == EntryAt(grid, cs[i].0, cs[i].1)
  }

  lemma TracedConcat(grid: Grid, modules: seq<string>, m: string,
                     es1: seq<ScheduleEntry>, cs1: seq<(nat, nat)>, es2: seq<ScheduleEntry>, cs2: seq<(nat, nat)>)
    requires Shaped(grid) && Traced(grid, modules, m, es1, cs1) && Traced(grid, modules, m, es2, cs2)
    ensures Traced(grid, modules, m, es1 + es2, cs1 + cs2)
  {
    forall i | 0 <= i < |cs1 + cs2|
      ensures Matches(grid, modules, m, (cs1 + cs2)[i].0, (cs1 + cs2)[i].1)
        && (es1 + es2)[i] == EntryAt(grid, (cs1 + cs2)[i].0, (cs1 + cs2)[i].1)
    {
      if i >= |cs1| {
        assert (cs1 + cs2)[i] == cs2[i - |cs1|] && (es1 + es2)[i] == es2[i - |cs1|];
      }
    }
  }

  /** Row-major order on cells. */
  predicate RowMajorLe(a: (nat, nat), b: (nat, nat)) {
    a.0 < b.0 || (a.0 == b.0 && a.1 <= b.1)
  }

  /** Cells of row `r` before column `d`, left to right. */
  predicate DayOrdered(cs: seq<(nat, nat)>, r: nat, d: nat) {
    (forall i :: 0 <= i < |cs| ==> cs[i].0 == r && 1 <= cs[i].1 < d)
    && forall i, j :: 0 <= i < j < |cs| ==> cs[i].1 <= cs[j].1
  }

  /** Cells of the rows before `n`, in row-major order. */
  predicate RowMajorBelow(cs: seq<(nat, nat)>, n: nat) {
    (forall i :: 0 <= i < |cs| ==> cs[i].0 < n)
    && forall i, j :: 0 <= i < j < |cs| ==> RowMajorLe(cs[i], cs[j])
  }

  /** A row's cells, left to right, after the cells of the rows above keep row-major order. */
  lemma RowMajorAppend(cs0: seq<(nat, nat)>, tail: seq<(nat, nat)>, n: nat)
    requires n > 0 && RowMajorBelow(cs0, n - 1)
    requires forall i :: 0 <= i < |tail| ==> tail[i].0 == n - 1
    requires forall i, j :: 0 <= i < j < |tail| ==> tail[i].1 <= tail[j].1
    ensures RowMajorBelow(cs0 + tail, n)
  {
    var cs := cs0 + tail;
    forall i, j | 0 <= i < j < |cs| ensures RowMajorLe(cs[i], cs[j]) {
      if j >= |cs0| {
        assert cs[j] == tail[j - |cs0|];
        if i >= |cs0| {
          assert cs[i] == tail[i - |cs0|];
        } else {
          assert cs[i] == cs0[i];
        }
      } else {
        assert cs[i] == cs0[i] && cs[j] == cs0[j];
      }
    }
    forall i | 0 <= i < |cs| ensures cs[i].0 < n {
      if i >= |cs0| {
        assert cs[i] == tail[i - |cs0|];
      } else {
        assert cs[i] == cs0[i];
      }
    }
  }

  /** Copies of cell (r, d - 1) after the cells of row `r` before it keep the row ordered. */
  lemma DayAppend(cs0: seq<(nat, nat)>, tail: seq<(nat, nat)>, r: nat, d: nat)
    requires d > 1 && DayOrdered(cs0, r, d - 1)
    requires forall i :: 0 <= i < |tail| ==> tail[i] == (r, d - 1)
    ensures DayOrdered(cs0 + tail, r, d)
  {
    var cs := cs0 + tail;
    forall i, j | 0 <= i < j < |cs| ensures cs[i].1 <= cs[j].1 {
      if j >= |cs0| {
        assert cs[j] == tail[j - |cs0|];
        if i >= |cs0| {
          assert cs[i] == tail[i - |cs0|];
        } else {
          assert cs[i] == cs0[i];
        }
      } else {
        assert cs[i] == cs0[i] && cs[j] == cs0[j];
      }
    }
    forall i | 0 <= i < |cs| ensures cs[i].0 == r && 1 <= cs[i].1 < d {
      if i >= |cs0| {
        assert cs[i] == tail[i - |cs0|];
      } else {
        assert cs[i] == cs0[i];
      }
    }
  }

  /**
   * The reference: the cells of columns 1 up to `d` - 1 of time row `r` in
   * which `m` is found, each once for every time `m` is listed.
   */
  ghost function DayCells(grid: Grid, modules: seq<string>, m: string, r: nat, d: nat): seq<(nat, nat)>
    requires Shaped(grid) && r < |grid| && IsTimeRow(grid[r]) && 1 <= d <= 6
  {
    if d == 1 then []
    else
      var c := grid[r][d - 1];
      DayCells(grid, modules, m, r, d - 1)
      + (if c.Some? && Contains(Upper(c.value), m) then Repeat((r, d - 1), Count(modules, m)) else [])
  }

  /** The same over the rows before `n`, in row-major order. */
  ghost function Cells(grid: Grid, modules: seq<string>, m: string, n: nat): seq<(nat, nat)>
    requires Shaped(grid) && n <= |grid|
  {
    if n == 0 then []
    else Cells(grid, modules, m, n - 1) + (if IsTimeRow(grid[n - 1]) then DayCells(grid, modules, m, n - 1, 6) else [])
  }

  // ---------------------------------------------------------------- one cell

  /**
   * One cell gives `m` one entry for every time `m` is listed, when `m` is
   * found in the cell's upper-cased text, and none otherwise.
   */
  lemma {:induction false} CellMatchesRepeat(modules: seq<string>, m: string, value: string, e: ScheduleEntry)
    ensures CellMatches(modules, m, value, e) == if Contains(Upper(value), m) then Repeat(e, Count(modules, m)) else []
  {
    if modules != [] {
      CellMatchesRepeat(modules[..|modules| - 1], m, value, e);
    }
  }

  // ---------------------------------------------------------------- the location

  /** No location is in force at row `n` exactly when no location row lies above it (pp.py:15, 19-21). */
  lemma {:induction false} NoLocationAbove(grid: Grid, n: nat)
    requires Shaped(grid) && n <= |grid|
    ensures LocationAfter(grid, n).None? <==> forall q :: 0 <= q < n ==> !IsLocationRow(grid[q])
  {
    if n > 0 {
      NoLocationAbove(grid, n - 1);
    }
  }

  /**
   * The location in force at row `n` is the stripped first cell of the last
   * location row above it (pp.py:19-21).
   */
  lemma {:induction false} LocationIsLastAbove(grid: Grid, n: nat, q: nat)
    requires Shaped(grid) && q < n <= |grid| && IsLocationRow(grid[q])
    requires forall p :: q < p < n ==> !IsLocationRow(grid[p])
    ensures LocationAfter(grid, n) == Some(Strip(grid[q][0].value))
  {
    if q < n - 1 {
      LocationIsLastAbove(grid, n - 1, q);
    }
  }

  // ---------------------------------------------------------------- one row

  lemma {:induction false} DayCellsTrace(grid: Grid, modules: seq<string>, m: string, r: nat, d: nat)
    requires Shaped(grid) && r < |grid| && IsTimeRow(grid[r]) && 1 <= d <= 6
    ensures Traced(grid, modules, m, DayEntries(grid[r], LocationAfter(grid, r), modules, m, d), DayCells(grid, modules, m, r, d))
  {
    if d > 1 {
      DayCellsTrace(grid, modules, m, r, d - 1);
      var c := grid[r][d - 1];
      var es := if c.Some? then CellMatches(modules, m, c.value, EntryAt(grid, r, d - 1)) else [];
      var cs := if c.Some? && Contains(Upper(c.value), m) then Repeat((r, d - 1), Count(modules, m)) else [];
      if c.Some? {
        CellMatchesRepeat(modules, m, c.value, EntryAt(grid, r, d - 1));
        CountPositive(modules, m);
      }
      assert Traced(grid, modules, m, es, cs);
      TracedConcat(grid, modules, m, DayEntries(grid[r], LocationAfter(grid, r), modules, m, d - 1), DayCells(grid, modules, m, r, d - 1), es, cs);
    }
  }

  lemma {:induction false} DayCellsOrdered(grid: Grid, modules: seq<string>, m: string, r: nat, d: nat)
    requires Shaped(grid) && r < |grid| && IsTimeRow(grid[r]) && 1 <= d <= 6
    ensures DayOrdered(DayCells(grid, modules, m, r, d), r, d)
  {
    if d > 1 {
      DayCellsOrdered(grid, modules, m, r, d - 1);
      var c := grid[r][d - 1];
      var tail := if c.Some? && Contains(Upper(c.value), m) then Repeat((r, d - 1), Count(modules, m)) else [];
      DayAppend(DayCells(grid, modules, m, r, d - 1), tail, r, d);
    }
  }

  lemma {:induction false} DayCellsComplete(grid: Grid, modules: seq<string>, m: string, r: nat, d: nat)
    requires Shaped(grid) && r < |grid| && IsTimeRow(grid[r]) && 1 <= d <= 6
    ensures forall c :: 1 <= c < d && Matches(grid, modules, m, r, c) ==> (r, c) in DayCells(grid, modules, m, r, d)
  {
    if d > 1 {
      DayCellsComplete(grid, modules, m, r, d - 1);
      if Matches(grid, modules, m, r, d - 1) {
        CountPositive(modules, m);
        assert Repeat((r, d - 1), Count(modules, m))[0] == (r, d - 1);
      }
    }
  }

  // ---------------------------------------------------------------- the whole grid

  /**
   * Every entry of `all_schedules[m]` comes from a cell in which `m` is
   * found; its day is that column's weekday, its time the row's first cell,
   * its class the cell stripped and its location the one in force at that
   * row (pp.py:24-44).
   */
  lemma {:induction false} EntriesFromCells(grid: Grid, modules: seq<string>, m: string, n: nat)
    requires Shaped(grid) && n <= |grid|
    ensures Traced(grid, modules, m, Entries(grid, modules, m, n), Cells(grid, modules, m, n))
  {
    if n > 0 {
      EntriesFromCells(grid, modules, m, n - 1);
      if IsTimeRow(grid[n - 1]) {
        DayCellsTrace(grid, modules, m, n - 1, 6);
        TracedConcat(grid, modules, m, Entries(grid, modules, m, n - 1), Cells(grid, modules, m, n - 1),
          RowEntries(grid, modules, m, n - 1), DayCells(grid, modules, m, n - 1, 6));
      } else {
        assert Entries(grid, modules, m, n) == Entries(grid, modules, m, n - 1);
        assert Cells(grid, modules, m, n) == Cells(grid, modules, m, n - 1);
      }
    }
  }

  /** The entries come in row-major order: by row, then by day column (pp.py:17, 28). */
  lemma {:induction false} CellsRowMajor(grid: Grid, modules: seq<string>, m: string, n: nat)
    requires Shaped(grid) && n <= |grid|
    ensures RowMajorBelow(Cells(grid, modules, m, n), n)
  {
    if n > 0 {
      CellsRowMajor(grid, modules, m, n - 1);
      var cs0 := Cells(grid, modules, m, n - 1);
      if IsTimeRow(grid[n - 1]) {
        var tail := DayCells(grid, modules, m, n - 1, 6);
        DayCellsOrdered(grid, modules, m, n - 1, 6);
        RowMajorAppend(cs0, tail, n);
      } else {
        RowMajorAppend(cs0, [], n);
        assert cs0 + [] == cs0;
      }
    }
  }

  /** Every cell of the rows before `n` in which `m` is found is among `cs`. */
  ghost predicate Covers(grid: Grid, modules: seq<string>, m: string, cs: seq<(nat, nat)>, n: nat)
    requires Shaped(grid)
  {
    forall r, d :: 0 <= r < n && Matches(grid, modules, m, r, d) ==> (r, d) in cs
  }

  lemma CoversAppend(grid: Grid, modules: seq<string>, m: string, cs0: seq<(nat, nat)>, tail: seq<(nat, nat)>, r: nat)
    requires Shaped(grid) && r < |grid| && Covers(grid, modules, m, cs0, r)
    requires forall d :: Matches(grid, modules, m, r, d) ==> (r, d) in tail
    ensures Covers(grid, modules, m, cs0 + tail, r + 1)
  {
    forall q, d | 0 <= q < r + 1 && Matches(grid, modules, m, q, d) ensures (q, d) in cs0 + tail {
      if q < r {
        assert (q, d) in cs0;
      } else {
        assert (q, d) in tail;
      }
    }
  }

  /** Every cell in which a listed module is found gives it an entry. */
  lemma {:induction false} CellsComplete(grid: Grid, modules: seq<string>, m: string, n: nat)
    requires Shaped(grid) && n <= |grid|
    ensures Covers(grid, modules, m, Cells(grid, modules, m, n), n)
  {
    if n > 0 {
      CellsComplete(grid, modules, m, n - 1);
      var cs0 := Cells(grid, modules, m, n - 1);
      if IsTimeRow(grid[n - 1]) {
        var tail := DayCells(grid, modules, m, n - 1, 6);
        assert Cells(grid, modules, m, n) == cs0 + tail;
        DayCellsComplete(grid, modules, m, n - 1, 6);
        CoversAppend(grid, modules, m, cs0, tail, n - 1);
      } else {
        assert Cells(grid, modules, m, n) == cs0 + [] == cs0;
        CoversAppend(grid, modules, m, cs0, [], n - 1);
      }
    }
  }

  /** `m` is listed and found in some day cell of some time row. */
  ghost predicate Found(grid: Grid, modules: seq<string>, m: string)
    requires Shaped(grid)
  {
    exists r, d :: Matches(grid, modules, m, r, d)
  }

  /** A module has entries exactly when it is listed and found in some day cell of some time row. */
  lemma HasEntries(grid: Grid, modules: seq<string>, m: string)
    requires Shaped(grid)
    ensures Entries(grid, modules, m, |grid|) != [] <==> Found(grid, modules, m)
  {
    EntriesFromCells(grid, modules, m, |grid|);
    CellsComplete(grid, modules, m, |grid|);
    var cs := Cells(grid, modules, m, |grid|);
    if cs != [] {
      assert Matches(grid, modules, m, cs[0].0, cs[0].1);
    }
  }

  // ---------------------------------------------------------------- the result

  /** Every item of `kept` is one of `keys` with its own, non-empty entries. */
  ghost predicate SoundItems(grid: Grid, modules: seq<string>, keys: seq<string>, kept: seq<ModuleSchedule>)
    requires Shaped(grid)
  {
    forall i :: 0 <= i < |kept| ==>
      kept[i].code in keys && kept[i].entries == Entries(grid, modules, kept[i].code, |grid|) && kept[i].entries != []
  }

  /** No two items of `kept` share a code. */
  predicate DistinctCodes(kept: seq<ModuleSchedule>) {
    forall i, j :: 0 <= i < j < |kept| ==> kept[i].code != kept[j].code
  }

  /** Every one of `keys` with entries has an item in `kept`. */
  ghost predicate CoversKeys(grid: Grid, modules: seq<string>, keys: seq<string>, kept: seq<ModuleSchedule>)
    requires Shaped(grid)
  {
    forall k :: k in keys && Entries(grid, modules, k, |grid|) != [] ==> exists i :: 0 <= i < |kept| && kept[i].code == k
  }

  lemma {:induction false} KeptSound(grid: Grid, modules: seq<string>, keys: seq<string>)
    requires Shaped(grid)
    ensures SoundItems(grid, modules, keys, Kept(grid, modules, keys))
  {
    if keys != [] {
      var init, last := keys[..|keys| - 1], keys[|keys| - 1];
      KeptSound(grid, modules, init);
      var kept0, kept := Kept(grid, modules, init), Kept(grid, modules, keys);
      forall i | 0 <= i < |kept|
        ensures kept[i].code in keys && kept[i].entries == Entries(grid, modules, kept[i].code, |grid|) && kept[i].entries != []
      {
        if i < |kept0| {
          assert kept[i] == kept0[i];
          assert kept0[i].code in init;
        } else {
          assert kept[i] == ModuleSchedule(last, Entries(grid, modules, last, |grid|));
        }
      }
    }
  }

  /** Distinct keys give distinct kept codes. */
  lemma {:induction false} KeptDistinct(grid: Grid, modules: seq<string>, keys: seq<string>)
    requires Shaped(grid) && Distinct(keys)
    ensures DistinctCodes(Kept(grid, modules, keys))
  {
    if keys != [] {
      var init, last := keys[..|keys| - 1], keys[|keys| - 1];
      assert Distinct(init) by {
        assert forall i :: 0 <= i < |init| ==> init[i] == keys[i];
      }
      KeptDistinct(grid, modules, init);
      KeptSound(grid, modules, init);
      var kept0, kept := Kept(grid, modules, init), Kept(grid, modules, keys);
      forall i, j | 0 <= i < j < |kept| ensures kept[i].code != kept[j].code {
        assert kept[i] == kept0[i];
        if j < |kept0| {
          assert kept[j] == kept0[j];
        } else {
          assert kept[j].code == last;
          assert kept0[i].code in init;
        }
      }
    }
  }

  /** Every key with entries is kept. */
  lemma {:induction false} KeptComplete(grid: Grid, modules: seq<string>, keys: seq<string>)
    requires Shaped(grid)
    ensures CoversKeys(grid, modules, keys, Kept(grid, modules, keys))
  {
    if keys != [] {
      var init, last := keys[..|keys| - 1], keys[|keys| - 1];
      KeptComplete(grid, modules, init);
      var kept0, kept := Kept(grid, modules, init), Kept(grid, modules, keys);
      forall k | k in keys && Entries(grid, modules, k, |grid|) != []
        ensures exists i :: 0 <= i < |kept| && kept[i].code == k
      {
        if k == last {
          assert kept[|kept| - 1].code == k;
        } else {
          assert k in init;
          var i :| 0 <= i < |kept0| && kept0[i].code == k;
          assert kept[i] == kept0[i];
        }
      }
    }
  }

  /**
   * `extract_module_schedules` keeps one item per listed module that is
   * found in some cell, no two for the same code, each holding exactly that
   * module's entries; a module found nowhere is dropped (pp.py:47-49).
   */
  lemma ExtractedModules(grid: Grid, modules: seq<string>)
    requires Shaped(grid)
    ensures var out := ExtractSpec(grid, modules).schedules;
      (forall i :: 0 <= i < |out| ==> out[i].entries == Entries(grid, modules, out[i].code, |grid|))
      && (forall i, j :: 0 <= i < j < |out| ==> out[i].code != out[j].code)
      && (forall m :: Found(grid, modules, m) <==> exists i :: 0 <= i < |out| && out[i].code == m)
  {
    var out := ExtractSpec(grid, modules).schedules;
    DedupFacts(modules);
    KeptSound(grid, modules, Dedup(modules));
    KeptDistinct(grid, modules, Dedup(modules));
    KeptComplete(grid, modules, Dedup(modules));
    forall m ensures Found(grid, modules, m) <==> exists i :: 0 <= i < |out| && out[i].code == m {
      HasEntries(grid, modules, m);
    }
  }
}
