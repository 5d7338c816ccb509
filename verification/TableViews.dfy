/**
 The two other views of the table grid: which cell owns each column of a row (`VisualSources`), and
 where the cells of a row start (`VisualMapping`).  Both recompute the grid on their own; the methods
 are proved to give what the scan in `TableGrid` gives.
 */
module TableViews {
  import opened Wrappers
  import opened TableGrid

  /** A cell of the scanned rows, or row -1 for a column occupied by the previous page. */
  datatype Source = Source(row: int, cell: nat)
  type Owned = map<nat, Source>
  type Sources = map<nat, Owned>

  function Owners(sources: Sources, k: nat): Owned {
    if k in sources then sources[k] else map[]
  }

  function Lookup(owned: Owned, x: nat): Option<Source> {
    if x in owned then Some(owned[x]) else None
  }

  // ---------------------------------------------------------------- specification

  /** The last of the first `m` cells of a row to cover a column, if any does. */
  ghost function RowOwner(cells: Row, row: nat, occ: Occupied, m: nat, k: nat, x: nat): (j: Option<nat>)
    requires m <= |cells|
    ensures j.Some? ==> j.value < m && Covers(cells[j.value], row, Start(cells, row, occ, j.value), k, x)
    ensures forall i :: 0 <= i < m && Covers(cells[i], row, Start(cells, row, occ, i), k, x) ==> j.Some? && i <= j.value
  {
    if m == 0 then None
    else if Covers(cells[m - 1], row, Start(cells, row, occ, m - 1), k, x) then Some(m - 1)
    else RowOwner(cells, row, occ, m - 1, k, x)
  }

  /** Who owns column `x` of row `k` once `n` rows and `m` cells of the next one are placed. */
  ghost function PartOwner(rows: seq<Row>, initial: Occupied, n: nat, m: nat, k: nat, x: nat): Option<Source>
    requires n < |rows| && m <= |rows[n]|
    decreases n, 1
  {
    var j := RowOwner(rows[n], n, Before(rows, initial, n), m, k, x);
    if j.Some? then Some(Source(n, j.value)) else OwnerOf(rows, initial, n, k, x)
  }

  /** Who owns column `x` of row `k` after the first `n` rows: the last cell placed over it. */
  ghost function OwnerOf(rows: seq<Row>, initial: Occupied, n: nat, k: nat, x: nat): Option<Source>
    requires n <= |rows|
    decreases n, 0
  {
    if n == 0 then (if Taken(initial, k, x) then Some(Source(-1, x)) else None)
    else PartOwner(rows, initial, n - 1, |rows[n - 1]|, k, x)
  }

  /** Every owner is a cell placed so far, or the previous page. */
  lemma {:induction false} OwnerRow(rows: seq<Row>, initial: Occupied, n: nat, k: nat, x: nat)
    requires n <= |rows| && OwnerOf(rows, initial, n, k, x).Some?
    ensures -1 <= OwnerOf(rows, initial, n, k, x).value.row < n
  {
    if n > 0 && RowOwner(rows[n - 1], n - 1, Before(rows, initial, n - 1), |rows[n - 1]|, k, x).None? {
      OwnerRow(rows, initial, n - 1, k, x);
    }
  }

  /** The columns that have an owner are exactly the columns the scan marks as occupied. */
  lemma {:induction false} OwnedIffTaken(rows: seq<Row>, initial: Occupied, n: nat, k: nat, x: nat)
    requires n <= |rows|
    ensures OwnerOf(rows, initial, n, k, x).Some? <==> Taken(After(rows, initial, n), k, x)
    decreases n, 0
  {
    if n > 0 {
      PartOwnedIffTaken(rows, initial, n - 1, |rows[n - 1]|, k, x);
    }
  }

  lemma {:induction false} PartOwnedIffTaken(rows: seq<Row>, initial: Occupied, n: nat, m: nat, k: nat, x: nat)
    requires n < |rows| && m <= |rows[n]|
    ensures PartOwner(rows, initial, n, m, k, x).Some? <==>
            Taken(Placing(rows[n], n, Before(rows, initial, n), m).occ, k, x)
    decreases n, 1
  {
    hide Start;
    OwnedIffTaken(rows, initial, n, k, x);
    PlacingTaken(rows[n], n, Before(rows, initial, n), m, k, x);
  }

  // ---------------------------------------------------------------- recording the owners

  function MarkRow(owned: Owned, column: nat, width: nat, source: Source): Owned {
    if width == 0 then owned else MarkRow(owned, column, width - 1, source)[column + width - 1 := source]
  }

  lemma {:induction false} MarkRowAt(owned: Owned, column: nat, width: nat, source: Source, x: nat)
    ensures Lookup(MarkRow(owned, column, width, source), x) ==
            if column <= x < column + width then Some(source) else Lookup(owned, x)
  {
    if width > 0 {
      MarkRowAt(owned, column, width - 1, source, x);
    }
  }

  function MarkSources(sources: Sources, row: nat, height: nat, column: nat, width: nat, source: Source): Sources {
    if height == 0 then sources else
    var marked := MarkSources(sources, row, height - 1, column, width, source);
    marked[row + height - 1 := MarkRow(Owners(marked, row + height - 1), column, width, source)]
  }

  lemma {:induction false} MarkSourcesAt(sources: Sources, row: nat, height: nat, column: nat, width: nat,
                                         source: Source, k: nat, x: nat)
    ensures Lookup(Owners(MarkSources(sources, row, height, column, width, source), k), x) ==
            if row <= k < row + height && column <= x < column + width then Some(source)
            else Lookup(Owners(sources, k), x)
  {
    if height > 0 {
      var marked := MarkSources(sources, row, height - 1, column, width, source);
      MarkSourcesAt(sources, row, height - 1, column, width, source, k, x);
      MarkRowAt(Owners(marked, row + height - 1), column, width, source, x);
    }
  }

  method MarkCellSources(sources: Sources, row: nat, column: nat, cell: Cell, source: Source) returns (marked: Sources)
    ensures marked == MarkSources(sources, row, cell.rowspan, column, cell.colspan, source)
  {
    marked := sources;
    for offset := 0 to cell.rowspan
      invariant marked == MarkSources(sources, row, offset, column, cell.colspan, source)
    {
      var owned := Owners(marked, row + offset);
      for width := 0 to cell.colspan
        invariant owned == MarkRow(Owners(marked, row + offset), column, width, source)
      {
        owned := owned[column + width := source];
      }
      marked := marked[row + offset := owned];
    }
  }

  /** `sources` records the owner of every column once `n` rows and `m` cells of the next are placed. */
  ghost predicate Records(sources: Sources, rows: seq<Row>, initial: Occupied, n: nat, m: nat)
    requires n < |rows| && m <= |rows[n]|
  {
    forall k: nat, x: nat :: Lookup(Owners(sources, k), x) == PartOwner(rows, initial, n, m, k, x)
  }

  lemma RecordsCell(sources: Sources, rows: seq<Row>, initial: Occupied, n: nat, m: nat)
    requires n < |rows| && m < |rows[n]|
    requires Records(sources, rows, initial, n, m)
    ensures var start := Start(rows[n], n, Before(rows, initial, n), m);
            Records(MarkSources(sources, n, rows[n][m].rowspan, start, rows[n][m].colspan, Source(n, m)),
                    rows, initial, n, m + 1)
  {
    hide Start, Before, MarkSources, OwnerOf;
    var start := Start(rows[n], n, Before(rows, initial, n), m);
    var marked := MarkSources(sources, n, rows[n][m].rowspan, start, rows[n][m].colspan, Source(n, m));
    forall k: nat, x: nat ensures Lookup(Owners(marked, k), x) == PartOwner(rows, initial, n, m + 1, k, x) {
      MarkSourcesAt(sources, n, rows[n][m].rowspan, start, rows[n][m].colspan, Source(n, m), k, x);
      assert Lookup(Owners(sources, k), x) == PartOwner(rows, initial, n, m, k, x);
    }
  }

  /** Skips the owned columns of a row; this is where the scan skips its occupied columns. */
  method NextUnowned(sources: Sources, rows: seq<Row>, initial: Occupied, n: nat, m: nat, column: nat)
    returns (free: nat)
    requires n < |rows| && m < |rows[n]|
    requires Records(sources, rows, initial, n, m)
    requires column == Placing(rows[n], n, Before(rows, initial, n), m).column
    ensures free == Start(rows[n], n, Before(rows, initial, n), m)
  {
    ghost var occ := Placing(rows[n], n, Before(rows, initial, n), m).occ;
    hide Placing, Before, After, PartOwner;
    free := column;
    while free in Owners(sources, n)
      invariant column <= free
      invariant forall x :: column <= x < free ==> Taken(occ, n, x)
      decreases Owners(sources, n).Keys - Span(0, free)
    {
      PartOwnedIffTaken(rows, initial, n, m, n, free);
      assert Lookup(Owners(sources, n), free) == PartOwner(rows, initial, n, m, n, free);
      assert free in Owners(sources, n).Keys - Span(0, free);
      assert free !in Owners(sources, n).Keys - Span(0, free + 1);
      free := free + 1;
    }
    PartOwnedIffTaken(rows, initial, n, m, n, free);
    assert Lookup(Owners(sources, n), free) == PartOwner(rows, initial, n, m, n, free);
    FirstFreeIsUnique(occ, n, column, free);
  }

  ghost predicate RecordsRows(sources: Sources, rows: seq<Row>, initial: Occupied, n: nat)
    requires n <= |rows|
  {
    forall k: nat, x: nat :: Lookup(Owners(sources, k), x) == OwnerOf(rows, initial, n, k, x)
  }

  method InitialSources(ghost rows: seq<Row>, initial: Occupied) returns (sources: Sources)
    ensures RecordsRows(sources, rows, initial, 0)
  {
    sources := map k | k in initial :: map x | x in initial[k] :: Source(-1, x);
  }

  lemma TotalAtStart(rows: seq<Row>, initial: Occupied)
    ensures Total(rows, initial, 0) == Width(Columns(initial))
  {
  }

  /** Records the cells of one row; `column` is where the row ends, the maximum of its cell ends. */
  method RecordRow(sources: Sources, rows: seq<Row>, initial: Occupied, n: nat) returns (recorded: Sources, column: nat)
    requires n < |rows|
    requires RecordsRows(sources, rows, initial, n)
    ensures RecordsRows(recorded, rows, initial, n + 1)
    ensures column == Placing(rows[n], n, Before(rows, initial, n), |rows[n]|).column
  {
    hide Before, Start;
    recorded := sources;
    column := 0;
    for m := 0 to |rows[n]|
      invariant Records(recorded, rows, initial, n, m)
      invariant column == Placing(rows[n], n, Before(rows, initial, n), m).column
    {
      column := NextUnowned(recorded, rows, initial, n, m, column);
      RecordsCell(recorded, rows, initial, n, m);
      recorded := MarkCellSources(recorded, n, column, rows[n][m], Source(n, m));
      column := column + rows[n][m].colspan;
    }
  }

  /**
   The view of row `target` agrees with the scan: the same columns, each with its owner, and the column
   count of the rows up to `target`.
   */
  ghost predicate IsView(owned: Owned, totalCols: nat, rows: seq<Row>, target: nat, initial: Occupied)
    requires target < |rows|
  {
    && owned.Keys == At(After(rows, initial, target + 1), target)
    && (forall x: nat :: Lookup(owned, x) == OwnerOf(rows, initial, target + 1, target, x))
    && totalCols == Total(rows, initial, target + 1)
  }

  /** One pass over the rows up to `target`, as the scan makes over all rows. */
  method VisualSources(rows: seq<Row>, target: nat, initial: Occupied) returns (view: Option<(Owned, nat)>)
    ensures view.Some? <==> target < |rows|
    ensures view.Some? ==> IsView(view.value.0, view.value.1, rows, target, initial)
  {
    hide After, Placing, Total, IsView, RecordsRows;
    if target >= |rows| {
      return None;
    }
    var sources := InitialSources(rows, initial);
    var columns := ColumnsOf(initial);
    var totalCols := WidthOf(columns);
    TotalAtStart(rows, initial);
    for n := 0 to target + 1
      invariant totalCols == Total(rows, initial, n)
      invariant RecordsRows(sources, rows, initial, n)
    {
      var column;
      sources, column := RecordRow(sources, rows, initial, n);
      totalCols := Max(totalCols, column);
      EffectiveWithinEnds(rows, initial, n);
    }
    RecordsAreView(sources, rows, initial, target);
    view := Some((Owners(sources, target), totalCols));
  }

  lemma RecordsAreView(sources: Sources, rows: seq<Row>, initial: Occupied, target: nat)
    requires target < |rows| && RecordsRows(sources, rows, initial, target + 1)
    ensures IsView(Owners(sources, target), Total(rows, initial, target + 1), rows, target, initial)
  {
    hide OwnerOf, Total;
    forall x: nat ensures x in Owners(sources, target) <==> x in At(After(rows, initial, target + 1), target) {
      OwnedIffTaken(rows, initial, target + 1, target, x);
      assert Lookup(Owners(sources, target), x) == OwnerOf(rows, initial, target + 1, target, x);
    }
  }

  /** Counting the columns of each row as well never adds to the ends of the cells placed so far. */
  lemma EffectiveWithinEnds(rows: seq<Row>, initial: Occupied, n: nat)
    requires n < |rows|
    ensures Total(rows, initial, n + 1) ==
            Max(Total(rows, initial, n), Placing(rows[n], n, Before(rows, initial, n), |rows[n]|).column)
  {
    hide Placing, Before;
    var w := Effective(rows, initial, n);
    if w > 0 {
      assert Taken(After(rows, initial, n + 1), n, w - 1);
      AfterBound(rows, initial, n + 1, n, w - 1);
    }
  }

  // ---------------------------------------------------------------- reading off the start columns

  /** Where in a row the owners recorded for it come from that row itself. */
  lemma OwnerInRow(rows: seq<Row>, initial: Occupied, target: nat, x: nat)
    requires target < |rows|
    ensures var owner := OwnerOf(rows, initial, target + 1, target, x);
            var occ := Before(rows, initial, target);
            (owner.Some? && owner.value.row < target) <==>
            Taken(occ, target, x) && !CoveredBy(rows[target], target, occ, |rows[target]|, target, x)
  {
    hide Start, Placing;
    var cells, occ := rows[target], Before(rows, initial, target);
    var j := RowOwner(cells, target, occ, |cells|, target, x);
    OwnedIffTaken(rows, initial, target, target, x);
    assert Taken(occ, target, x) <==> Taken(After(rows, initial, target), target, x);
    if j.Some? {
      assert CoveredBy(cells, target, occ, |cells|, target, x);
    } else if OwnerOf(rows, initial, target, target, x).Some? {
      OwnerRow(rows, initial, target, target, x);
    }
  }

  /** Between the end of a cell and the start of the next one, no cell of the row covers anything. */
  lemma GapUncovered(cells: Row, row: nat, occ: Occupied, j: nat, x: nat)
    requires j < |cells|
    requires Placing(cells, row, occ, j).column <= x < Start(cells, row, occ, j)
    ensures !CoveredBy(cells, row, occ, |cells|, row, x)
  {
    hide Start, Placing;
    if CoveredBy(cells, row, occ, |cells|, row, x) {
      var i :| 0 <= i < |cells| && Covers(cells[i], row, Start(cells, row, occ, i), row, x);
      if i < j {
        CellEndsBefore(cells, row, occ, i, j);
      } else if i > j {
        CellEndsBefore(cells, row, occ, j, i);
        StartAfterPlaced(cells, row, occ, i);
      }
    }
  }

  lemma StartAfterPlaced(cells: Row, row: nat, occ: Occupied, i: nat)
    requires i < |cells|
    ensures Placing(cells, row, occ, i).column <= Start(cells, row, occ, i)
    ensures IsFirstFree(occ, row, Placing(cells, row, occ, i).column, Start(cells, row, occ, i))
  {
    StartIsFirstFree(cells, row, occ, i);
  }

  /**
   The start columns of a row, read off the owners of its columns.  They are the start columns the scan
   gave the cells, each at or after the end of the cell before, even where colspans overrun columns
   occupied from above.
   */
  method VisualMapping(rows: seq<Row>, target: nat, initial: Occupied) returns (mapping: Option<seq<nat>>)
    ensures mapping.Some? <==> target < |rows|
    ensures mapping.Some? ==> IsMapping(mapping.value, rows, target, initial)
  {
    var view := VisualSources(rows, target, initial);
    if view.None? {
      return None;
    }
    hide OwnerOf, Before, Start, IsView, Placing;
    var owned := view.value.0;
    var cells := rows[target];
    ghost var occ := Before(rows, initial, target);
    var starts: seq<nat> := [];
    var column: nat := 0;
    PlacingStarts(cells, target, occ);
    for j := 0 to |cells|
      invariant |starts| == j
      invariant column == Placing(cells, target, occ, j).column
      invariant forall i :: 0 <= i < j ==> starts[i] == Start(cells, target, occ, i)
    {
      PlacingMoves(cells, target, occ, j);
      column := NextInRow(owned, view.value.1, rows, target, initial, j, column);
      starts := starts + [column];
      column := column + cells[j].colspan;
    }
    mapping := Some(starts);
  }

  lemma PlacingStarts(cells: Row, row: nat, occ: Occupied)
    ensures Placing(cells, row, occ, 0).column == 0
  {
  }

  lemma PlacingMoves(cells: Row, row: nat, occ: Occupied, j: nat)
    requires j < |cells|
    ensures Placing(cells, row, occ, j + 1).column == Start(cells, row, occ, j) + cells[j].colspan
  {
  }

  ghost predicate IsMapping(mapping: seq<nat>, rows: seq<Row>, target: nat, initial: Occupied)
    requires target < |rows|
  {
    |mapping| == |rows[target]| &&
    forall i :: 0 <= i < |mapping| ==> mapping[i] == Start(rows[target], target, Before(rows, initial, target), i)
  }

  /** Skips the columns whose owner lies in an earlier row. */
  method NextInRow(owned: Owned, ghost total: nat, rows: seq<Row>, target: nat, initial: Occupied, j: nat,
                   column: nat) returns (start: nat)
    requires target < |rows| && j < |rows[target]|
    requires IsView(owned, total, rows, target, initial)
    requires column == Placing(rows[target], target, Before(rows, initial, target), j).column
    ensures start == Start(rows[target], target, Before(rows, initial, target), j)
  {
    ghost var cells, occ := rows[target], Before(rows, initial, target);
    hide Placing, Before, OwnerOf, Start;
    StartAfterPlaced(cells, target, occ, j);
    ghost var goal := Start(cells, target, occ, j);
    start := column;
    while start in owned && owned[start].row < target
      invariant column <= start <= goal
      decreases goal - start
    {
      assert Lookup(owned, start) == OwnerOf(rows, initial, target + 1, target, start);
      OwnerInRow(rows, initial, target, start);
      start := start + 1;
    }
    if start < goal {
      assert Taken(occ, target, start);
      GapUncovered(cells, target, occ, j, start);
      assert Lookup(owned, start) == OwnerOf(rows, initial, target + 1, target, start);
      OwnerInRow(rows, initial, target, start);
    }
  }

  /** What a mapping means: every start is past the end of the previous cell and free of earlier rows. */
  lemma MappingIsFirstFree(mapping: seq<nat>, rows: seq<Row>, target: nat, initial: Occupied, i: nat)
    requires target < |rows| && IsMapping(mapping, rows, target, initial) && i < |mapping|
    ensures IsFirstFree(After(rows, initial, target), target,
                        if i == 0 then 0 else mapping[i - 1] + rows[target][i - 1].colspan, mapping[i])
  {
    hide Start, Placing, After;
    StartIsFirstFree(rows[target], target, Before(rows, initial, target), i);
    var from := if i == 0 then 0 else mapping[i - 1] + rows[target][i - 1].colspan;
    var occ := After(rows, initial, target);
    assert forall x :: Taken(Before(rows, initial, target), target, x) <==> Taken(occ, target, x);
    assert mapping[i] == Start(rows[target], target, Before(rows, initial, target), i);
  }

  /** The scan, the owners and the mapping of one table describe the same grid. */
  lemma ViewsAgree(rows: seq<Row>, initial: Occupied, first: nat, scan: RowScan,
                   target: nat, owned: Owned, totalCols: nat, mapping: seq<nat>)
    requires target < |rows|
    requires IsScan(scan, rows, initial, first)
    requires IsView(owned, totalCols, rows, target, initial)
    requires IsMapping(mapping, rows, target, initial)
    ensures Width(owned.Keys) == scan.effective[target]
    ensures totalCols <= scan.totalCols && (target == |rows| - 1 ==> totalCols == scan.totalCols)
    ensures forall i :: 0 <= i < |mapping| ==> Lookup(owned, mapping[i]) == Some(Source(target, i))
  {
    hide Start, Placing, After, Before, Total;
    TotalGrows(rows, initial, target + 1, |rows|);
    forall i | 0 <= i < |mapping| ensures Lookup(owned, mapping[i]) == Some(Source(target, i)) {
      CellOwnsItsStart(rows, initial, target, i);
    }
  }

  lemma {:induction false} TotalGrows(rows: seq<Row>, initial: Occupied, m: nat, n: nat)
    requires m <= n <= |rows|
    ensures Total(rows, initial, m) <= Total(rows, initial, n)
  {
    hide Placing, Before, Effective;
    if m < n {
      TotalGrows(rows, initial, m, n - 1);
    }
  }

  lemma CellOwnsItsStart(rows: seq<Row>, initial: Occupied, target: nat, i: nat)
    requires target < |rows| && i < |rows[target]|
    ensures OwnerOf(rows, initial, target + 1, target, Start(rows[target], target, Before(rows, initial, target), i)) ==
            Some(Source(target, i))
  {
    hide Start, Placing, Before;
    var cells, occ := rows[target], Before(rows, initial, target);
    var x := Start(cells, target, occ, i);
    assert Covers(cells[i], target, x, target, x);
    var j := RowOwner(cells, target, occ, |cells|, target, x).value;
    if i < j {
      CellEndsBefore(cells, target, occ, i, j);
      StartAfterPlaced(cells, target, occ, j);
    }
  }
}
