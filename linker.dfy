/**
 * `link_cells_to_colors` (linker.py) without its file reads: every CSV
 * cell is paired with the colour at the same row and column of the colour
 * grid, or with None where that grid does not reach.
 */
module Linker {
  import opened Wrappers

  /** `{"value": cell_value, "color": cell_color}`; `C` is whatever the colour file holds per cell. */
  datatype LinkedCell<C> = LinkedCell(value: string, color: Option<C>)

  /** The colour lookup of linker.py:19. */
  function ColorAt<C>(colors: seq<seq<C>>, r: nat, c: nat): (color: Option<C>)
    ensures color.Some? <==> r < |colors| && c < |colors[r]|
    ensures color.Some? ==> color.value == colors[r][c]
  {
    if r < |colors| && c < |colors[r]| then Some(colors[r][c]) else None
  }

  /** `linked_row` for CSV row `r`. */
  function RowSpec<C>(csv: seq<seq<string>>, colors: seq<seq<C>>, r: nat): seq<LinkedCell<C>>
    requires r < |csv|
  {
    seq(|csv[r]|, c requires 0 <= c < |csv[r]| => LinkedCell(csv[r][c], ColorAt(colors, r, c)))
  }

  /** `linked_data`. */
  function LinkSpec<C>(csv: seq<seq<string>>, colors: seq<seq<C>>): seq<seq<LinkedCell<C>>> {
    seq(|csv|, r requires 0 <= r < |csv| => RowSpec(csv, colors, r))
  }

  /** The CSV cells of a linked grid: the colours dropped. */
  function Values<C>(linked: seq<seq<LinkedCell<C>>>): seq<seq<string>> {
    seq(|linked|, r requires 0 <= r < |linked| => seq(|linked[r]|, c requires 0 <= c < |linked[r]| => linked[r][c].value))
  }

  /** The colour grid cut down to the CSV's shape. */
  function Crop<C>(colors: seq<seq<C>>, csv: seq<seq<string>>): seq<seq<C>> {
    var rows := if |colors| < |csv| then |colors| else |csv|;
    seq(rows, r requires 0 <= r < rows =>
      colors[r][..if |colors[r]| < |csv[r]| then |colors[r]| else |csv[r]|])
  }

  /** linker.py:14-24: the row loop and, inside it, the cell loop. */
  method LinkCellsToColors<C>(csv: seq<seq<string>>, colors: seq<seq<C>>) returns (linked: seq<seq<LinkedCell<C>>>)
    ensures linked == LinkSpec(csv, colors)
  {
    linked := [];
    for r := 0 to |csv|
      invariant |linked| == r
      invariant forall p :: 0 <= p < r ==> linked[p] == RowSpec(csv, colors, p)
    {
      var row := csv[r];
      var linkedRow: seq<LinkedCell<C>> := [];
      for c := 0 to |row|
        invariant |linkedRow| == c
        invariant forall q :: 0 <= q < c ==> linkedRow[q] == LinkedCell(row[q], ColorAt(colors, r, q))
      {
        var color := if r < |colors| && c < |colors[r]| then Some(colors[r][c]) else None;
        linkedRow := linkedRow + [LinkedCell(row[c], color)];
      }
      linked := linked + [linkedRow];
    }
  }

  /** Dropping the colours gives the CSV back: one row per CSV row, each as long, each value the CSV cell. */
  lemma LinkKeepsValues<C>(csv: seq<seq<string>>, colors: seq<seq<C>>)
    ensures Values(LinkSpec(csv, colors)) == csv
  {
    var linked := LinkSpec(csv, colors);
    forall r | 0 <= r < |csv| ensures Values(linked)[r] == csv[r] {
      assert |linked[r]| == |csv[r]|;
    }
  }

  /**
   * Each linked cell carries the colour at its own row and column exactly
   * when the colour grid reaches that position, and no colour otherwise.
   */
  lemma LinkedColors<C>(csv: seq<seq<string>>, colors: seq<seq<C>>, r: nat, c: nat)
    requires r < |csv| && c < |csv[r]|
    ensures |LinkSpec(csv, colors)| == |csv| && |LinkSpec(csv, colors)[r]| == |csv[r]|
    ensures LinkSpec(csv, colors)[r][c].color.Some? <==> r < |colors| && c < |colors[r]|
    ensures LinkSpec(csv, colors)[r][c].color.Some? ==> LinkSpec(csv, colors)[r][c].color.value == colors[r][c]
  {
  }

  /** Colour entries outside the CSV's shape never reach the output. */
  lemma OutsideColorsIgnored<C>(csv: seq<seq<string>>, colors: seq<seq<C>>)
    ensures LinkSpec(csv, Crop(colors, csv)) == LinkSpec(csv, colors)
  {
    var cropped := Crop(colors, csv);
    forall r | 0 <= r < |csv| ensures RowSpec(csv, cropped, r) == RowSpec(csv, colors, r) {
      forall c | 0 <= c < |csv[r]| ensures ColorAt(cropped, r, c) == ColorAt(colors, r, c) {
        if r < |colors| && c < |colors[r]| {
          assert r < |cropped| && cropped[r][c] == colors[r][c];
        }
      }
    }
  }
}
