/**
 * What the shared search of hakai.py and main.py promises: the location
 * list, the single location every result carries, which cells match, the
 * column-major order of the results and their number.
 */
module ColumnScanFacts {
  import opened Wrappers
  import opened Seqs
  import opened Strings
  import opened ColumnScan

  // ---------------------------------------------------------------- the locations

  /** `self.locations` holds exactly the stripped lines with "BIUST -" and without "Semester". */
  lemma {:induction false} LocationLinesExactly(lines: seq<string>)
    ensures forall x :: x in LocationLines(lines) <==> exists i :: 0 <= i < |lines| && IsLocationLine(lines[i]) && x == Strip(lines[i])
  {
    if lines != [] {
      var init := lines[..|lines| - 1];
      LocationLinesExactly(init);
      assert forall i :: 0 <= i < |init| ==> init[i] == lines[i];
    }
  }

  /** Stripping keeps "BIUST -", which starts and ends with a non-space: every location still holds it. */
  lemma {:induction false} LocationsHoldBiust(lines: seq<string>)
    ensures forall x :: x in LocationLines(lines) ==> Contains(x, "BIUST -")
  {
    if lines != [] {
      var line := lines[|lines| - 1];
      LocationsHoldBiust(lines[..|lines| - 1]);
      if IsLocationLine(line) {
        StripKeepsInnerText(line, "BIUST -");
      }
    }
  }

  /** Filtering a list whose every item holds "BIUST -" keeps all of it. */
  lemma {:induction false} MatchesKeepAll(locations: seq<string>)
    requires forall x :: x in locations ==> Contains(x, "BIUST -")
    ensures LocationMatches(locations) == locations
  {
    if locations != [] {
      var init := locations[..|locations| - 1];
      assert forall x :: x in init ==> x in locations;
      MatchesKeepAll(init);
      assert locations == init + [locations[|locations| - 1]];
    }
  }

  /**
   * Every result carries the first location line, or "BIUST - Unknown
   * Location" when the file has none (hakai.py:76-88, main.py:59-71).
   */
  lemma ResultLocationOfLines(lines: seq<string>)
    ensures ResultLocation(LocationLines(lines)) == if LocationLines(lines) != [] then LocationLines(lines)[0] else DefaultLocation
  {
    LocationsHoldBiust(lines);
    MatchesKeepAll(LocationLines(lines));
  }

  // ---------------------------------------------------------------- the cells behind the results

  /** Column-major order on (column, index position). */
  predicate ColumnMajorLt(a: (nat, nat), b: (nat, nat)) {
    a.0 < b.0 || (a.0 == b.0 && a.1 < b.1)
  }

  /** The matching cells of column `c` before index position `t`, top to bottom. */
  ghost function ColumnCells(f: Frame, code: string, c: nat, t: nat): seq<(nat, nat)>
    requires Rectangular(f) && c < |f.columns| && t <= |f.index|
  {
    if t == 0 then []
    else ColumnCells(f, code, c, t - 1) + (if Matches(code, f.values[c][t - 1]) then [(c, t - 1)] else [])
  }

  /** The matching cells of the columns before `n`, column by column. */
  ghost function Cells(f: Frame, code: string, n: nat): seq<(nat, nat)>
    requires Rectangular(f) && n <= |f.columns|
  {
    if n == 0 then [] else Cells(f, code, n - 1) + ColumnCells(f, code, n - 1, |f.index|)
  }

  /** Each result in `ds` is the detail of the matching cell at the same index of `cs`. */
  ghost predicate Traced(f: Frame, code: string, location: string, ds: seq<Detail>, cs: seq<(nat, nat)>)
    requires Rectangular(f)
  {
    |cs| == |ds| && forall i :: 0 <= i < |cs| ==>
      cs[i].0 < |f.columns| && cs[i].1 < |f.index| && Matches(code, f.values[cs[i].0][cs[i].1])
      && ds[i] == DetailAt(f, location, cs[i].0, cs[i].1)
  }

  /** Cells in strictly increasing column-major order, all in columns before `n`. */
  predicate ColumnMajorBelow(cs: seq<(nat, nat)>, n: nat) {
    (forall i :: 0 <= i < |cs| ==> cs[i].0 < n)
    && forall i, j :: 0 <= i < j < |cs| ==> ColumnMajorLt(cs[i], cs[j])
  }

  /** Cells of column `c` before position `t`, strictly top to bottom. */
  predicate TopToBottom(cs: seq<(nat, nat)>, c: nat, t: nat) {
    (forall i :: 0 <= i < |cs| ==> cs[i].0 == c && cs[i].1 < t)
    && forall i, j :: 0 <= i < j < |cs| ==> cs[i].1 < cs[j].1
  }

  lemma TracedConcat(f: Frame, code: string, location: string,
                     ds1: seq<Detail>, cs1: seq<(nat, nat)>, ds2: seq<Detail>, cs2: seq<(nat, nat)>)
    requires Rectangular(f) && Traced(f, code, location, ds1, cs1) && Traced(f, code, location, ds2, cs2)
    ensures Traced(f, code, location, ds1 + ds2, cs1 + cs2)
  {
    forall i | 0 <= i < |cs1 + cs2|
      ensures (cs1 + cs2)[i].0 < |f.columns| && (cs1 + cs2)[i].1 < |f.index|
        && Matches(code, f.values[(cs1 + cs2)[i].0][(cs1 + cs2)[i].1])
        && (ds1 + ds2)[i] == DetailAt(f, location, (cs1 + cs2)[i].0, (cs1 + cs2)[i].1)
    {
      if i < |cs1| {
        assert (cs1 + cs2)[i] == cs1[i] && (ds1 + ds2)[i] == ds1[i];
      } else {
        assert (cs1 + cs2)[i] == cs2[i - |cs1|] && (ds1 + ds2)[i] == ds2[i - |cs1|];
      }
    }
  }

  lemma {:induction false} ColumnTrace(f: Frame, code: string, location: string, c: nat, t: nat)
    requires Rectangular(f) && c < |f.columns| && t <= |f.index|
    ensures Traced(f, code, location, ColumnDetails(f, code, location, c, t), ColumnCells(f, code, c, t))
    ensures TopToBottom(ColumnCells(f, code, c, t), c, t)
  {
    if t > 0 {
      ColumnTrace(f, code, location, c, t - 1);
      var ds0, cs0 := ColumnDetails(f, code, location, c, t - 1), ColumnCells(f, code, c, t - 1);
      if Matches(code, f.values[c][t - 1]) {
        TracedConcat(f, code, location, ds0, cs0, [DetailAt(f, location, c, t - 1)], [(c, t - 1)]);
        var cs := cs0 + [(c, t - 1)];
        forall i | 0 <= i < |cs| ensures cs[i].0 == c && cs[i].1 < t {
          if i < |cs0| {
            assert cs[i] == cs0[i];
          }
        }
        forall i, j | 0 <= i < j < |cs| ensures cs[i].1 < cs[j].1 {
          assert cs[i] == cs0[i];
          if j < |cs0| {
            assert cs[j] == cs0[j];
          }
        }
      } else {
        assert ColumnDetails(f, code, location, c, t) == ds0 && ColumnCells(f, code, c, t) == cs0;
      }
    }
  }

  lemma {:induction false} DetailsTrace(f: Frame, code: string, location: string, n: nat)
    requires Rectangular(f) && n <= |f.columns|
    ensures Traced(f, code, location, Details(f, code, location, n), Cells(f, code, n))
    ensures ColumnMajorBelow(Cells(f, code, n), n)
  {
    if n > 0 {
      DetailsTrace(f, code, location, n - 1);
      ColumnTrace(f, code, location, n - 1, |f.index|);
      var cs0, tail := Cells(f, code, n - 1), ColumnCells(f, code, n - 1, |f.index|);
      TracedConcat(f, code, location, Details(f, code, location, n - 1), cs0,
        ColumnDetails(f, code, location, n - 1, |f.index|), tail);
      var cs := cs0 + tail;
      forall i | 0 <= i < |cs| ensures cs[i].0 < n {
        if i < |cs0| {
          assert cs[i] == cs0[i];
        } else {
          assert cs[i] == tail[i - |cs0|];
        }
      }
      forall i, j | 0 <= i < j < |cs| ensures ColumnMajorLt(cs[i], cs[j]) {
        if j < |cs0| {
          assert cs[i] == cs0[i] && cs[j] == cs0[j];
        } else if i < |cs0| {
          assert cs[i] == cs0[i] && cs[j] == tail[j - |cs0|];
        } else {
          assert cs[i] == tail[i - |cs0|] && cs[j] == tail[j - |cs0|];
        }
      }
    }
  }

  lemma {:induction false} ColumnComplete(f: Frame, code: string, c: nat, t: nat)
    requires Rectangular(f) && c < |f.columns| && t <= |f.index|
    ensures forall s :: 0 <= s < t && Matches(code, f.values[c][s]) ==> (c, s) in ColumnCells(f, code, c, t)
  {
    if t > 0 {
      ColumnComplete(f, code, c, t - 1);
    }
  }

  /** Every matching cell of the columns before `n` gives a result. */
  lemma {:induction false} CellsComplete(f: Frame, code: string, n: nat)
    requires Rectangular(f) && n <= |f.columns|
    ensures forall c, t :: 0 <= c < n && 0 <= t < |f.index| && Matches(code, f.values[c][t]) ==> (c, t) in Cells(f, code, n)
  {
    if n > 0 {
      CellsComplete(f, code, n - 1);
      ColumnComplete(f, code, n - 1, |f.index|);
    }
  }

  /**
   * The results are the matching cells, in column-major order (day, then
   * time slot), each as the unmodified cell text with its column name, its
   * index label and the one location (hakai.py:80-97, main.py:63-80).
   */
  lemma FindResults(locations: seq<string>, f: Frame, code: string)
    requires Rectangular(f)
    ensures Traced(f, code, ResultLocation(locations), FindSpec(locations, f, code), Cells(f, code, |f.columns|))
    ensures ColumnMajorBelow(Cells(f, code, |f.columns|), |f.columns|)
    ensures forall c, t :: 0 <= c < |f.columns| && 0 <= t < |f.index| && Matches(code, f.values[c][t]) ==>
                             (c, t) in Cells(f, code, |f.columns|)
  {
    DetailsTrace(f, code, ResultLocation(locations), |f.columns|);
    CellsComplete(f, code, |f.columns|);
  }

  /** The cells a search for `code` matches. */
  ghost function MatchingCells(f: Frame, code: string): set<(nat, nat)>
    requires Rectangular(f)
  {
    set c: nat, t: nat | c < |f.columns| && t < |f.index| && Matches(code, f.values[c][t]) :: (c, t)
  }

  /** There are as many results as cells that hold the code, case-insensitively. */
  lemma ResultCount(locations: seq<string>, f: Frame, code: string)
    requires Rectangular(f)
    ensures |FindSpec(locations, f, code)| == |MatchingCells(f, code)|
  {
    var cs := Cells(f, code, |f.columns|);
    FindResults(locations, f, code);
    assert Distinct(cs) by {
      forall i, j | 0 <= i < j < |cs| ensures cs[i] != cs[j] {
        assert ColumnMajorLt(cs[i], cs[j]);
      }
    }
    DistinctCardinality(cs);
    assert (set x | x in cs) == MatchingCells(f, code);
  }
}
