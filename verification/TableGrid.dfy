/**
 The grid of a table whose cells span rows and columns.

 The merge engine computes this grid three times: scanning all rows (`ScanRows`), recording which
 cell owns each column of one row (`VisualSources`), and reading off the start column of each cell of
 one row (`VisualMapping`).  This module proves each method against one specification and shows that
 the three views agree and that scanning composes across a page break.
 */
module TableGrid {
  import opened Wrappers

  type pos = n: nat | n > 0 witness 1

  /** A parsed cell; `semantic` tells whether its content is anything but blank. */
  datatype Cell = Cell(colspan: pos, rowspan: pos, content: string, semantic: bool)
  type Row = seq<Cell>

  /** For each row the columns already taken, by an earlier row or by the previous page. */
  type Occupied = map<nat, set<nat>>

  function At(occ: Occupied, row: nat): set<nat> {
    if row in occ then occ[row] else {}
  }

  /** Column `x` of row `k` is occupied. */
  predicate Taken(occ: Occupied, k: nat, x: nat) {
    k in occ && x in occ[k]
  }

  function Span(column: nat, width: nat): (columns: set<nat>)
    ensures forall x :: x in columns <==> column <= x < column + width
  {
    if width == 0 then {} else Span(column, width - 1) + {column + width - 1}
  }

  // ---------------------------------------------------------------- specification of one row

  ghost predicate IsFirstFree(occ: Occupied, row: nat, column: nat, free: nat) {
    column <= free && !Taken(occ, row, free) && forall x :: column <= x < free ==> Taken(occ, row, x)
  }

  /** The first free column of `row` at or after `column`. */
  ghost function FirstFree(occ: Occupied, row: nat, column: nat): (free: nat)
    ensures IsFirstFree(occ, row, column, free)
  {
    FirstFreeExists(occ, row, column);
    var free: nat :| IsFirstFree(occ, row, column, free);
    free
  }

  lemma {:induction false} FirstFreeExists(occ: Occupied, row: nat, column: nat)
    ensures exists free: nat :: IsFirstFree(occ, row, column, free)
    decreases At(occ, row) - Span(0, column)
  {
    if Taken(occ, row, column) {
      assert column in At(occ, row) - Span(0, column) && column !in At(occ, row) - Span(0, column + 1);
      FirstFreeExists(occ, row, column + 1);
      var free: nat :| IsFirstFree(occ, row, column + 1, free);
      assert IsFirstFree(occ, row, column, free);
    } else {
      assert IsFirstFree(occ, row, column, column);
    }
  }

  lemma FirstFreeIsUnique(occ: Occupied, row: nat, column: nat, free: nat)
    requires IsFirstFree(occ, row, column, free)
    ensures FirstFree(occ, row, column) == free
  {
  }

  /** A rectangle of `height` rows and `width` columns becomes occupied. */
  function Mark(occ: Occupied, row: nat, height: nat, column: nat, width: nat): Occupied {
    if height == 0 then occ else
    var marked := Mark(occ, row, height - 1, column, width);
    marked[row + height - 1 := At(marked, row + height - 1) + Span(column, width)]
  }

  lemma {:induction false} MarkTaken(occ: Occupied, row: nat, height: nat, column: nat, width: nat, k: nat, x: nat)
    ensures Taken(Mark(occ, row, height, column, width), k, x) <==>
            Taken(occ, k, x) || (row <= k < row + height && column <= x < column + width)
  {
    if height > 0 {
      MarkTaken(occ, row, height - 1, column, width, k, x);
    }
  }

  /** Occupancy and next column once some cells of a row have been placed. */
  datatype Placed = Placed(occ: Occupied, column: nat)

  ghost function Placing(cells: Row, row: nat, occ: Occupied, n: nat): Placed
    requires n <= |cells|
    decreases n, 0
  {
    if n == 0 then Placed(occ, 0) else
    var start := Start(cells, row, occ, n - 1);
    var cell := cells[n - 1];
    Placed(Mark(Placing(cells, row, occ, n - 1).occ, row, cell.rowspan, start, cell.colspan), start + cell.colspan)
  }

  /** The start column of cell `i`. */
  ghost function Start(cells: Row, row: nat, occ: Occupied, i: nat): nat
    requires i < |cells|
    decreases i, 1
  {
    var p := Placing(cells, row, occ, i);
    FirstFree(p.occ, row, p.column)
  }

  ghost predicate Covers(cell: Cell, row: nat, start: nat, k: nat, x: nat) {
    row <= k < row + cell.rowspan && start <= x < start + cell.colspan
  }

  ghost predicate IsWidth(columns: set<nat>, w: nat) {
    (forall x :: x in columns ==> x < w) && (w > 0 ==> w - 1 in columns)
  }

  /** The exclusive upper bound of a set of columns. */
  ghost function Width(columns: set<nat>): (w: nat)
    ensures IsWidth(columns, w)
  {
    WidthExists(columns);
    var w: nat :| IsWidth(columns, w);
    w
  }

  lemma {:induction false} WidthExists(columns: set<nat>)
    ensures exists w: nat :: IsWidth(columns, w)
  {
    if columns == {} {
      assert IsWidth(columns, 0);
    } else {
      var x :| x in columns;
      WidthExists(columns - {x});
      var w: nat :| IsWidth(columns - {x}, w);
      assert forall y :: y in columns ==> y == x || y in columns - {x};
      assert IsWidth(columns, Max(w, x + 1));
    }
  }

  lemma WidthIsUnique(columns: set<nat>, w: nat)
    requires IsWidth(columns, w)
    ensures Width(columns) == w
  {
  }

  ghost function Columns(occ: Occupied): set<nat> {
    set r, x | r in occ && x in occ[r] :: x
  }

  function TotalColspan(cells: Row, n: nat): nat
    requires n <= |cells|
  {
    if n == 0 then 0 else TotalColspan(cells, n - 1) + cells[n - 1].colspan
  }

  // ---------------------------------------------------------------- specification of a scan

  datatype RowMetrics = RowMetrics(rowIdx: nat, effectiveCols: nat, actualCols: nat)

  datatype RowScan = RowScan(
    effective: seq<nat>,
    metrics: seq<RowMetrics>,
    totalCols: nat,
    lastNonempty: Option<RowMetrics>,
    tail: Occupied)

  /** The occupancy once the first `n` rows have been placed. */
  ghost function After(rows: seq<Row>, initial: Occupied, n: nat): Occupied
    requires n <= |rows|
    decreases n, 0
  {
    if n == 0 then initial else
    Placing(rows[n - 1], n - 1, Before(rows, initial, n - 1), |rows[n - 1]|).occ
  }

  /** The occupancy row `i` starts from. */
  ghost function Before(rows: seq<Row>, initial: Occupied, i: nat): Occupied
    requires i < |rows|
    decreases i, 1
  {
    var occ := After(rows, initial, i);
    occ[i := At(occ, i)]
  }

  ghost function Effective(rows: seq<Row>, initial: Occupied, i: nat): nat
    requires i < |rows|
  {
    Width(At(After(rows, initial, i + 1), i))
  }

  ghost function Total(rows: seq<Row>, initial: Occupied, n: nat): nat
    requires n <= |rows|
  {
    if n == 0 then Width(Columns(initial)) else
    Max(Max(Total(rows, initial, n - 1),
        Placing(rows[n - 1], n - 1, Before(rows, initial, n - 1), |rows[n - 1]|).column),
        Effective(rows, initial, n - 1))
  }

  ghost function Metric(rows: seq<Row>, initial: Occupied, first: nat, i: nat): RowMetrics
    requires i < |rows|
  {
    RowMetrics(first + i, Effective(rows, initial, i), TotalColspan(rows[i], |rows[i]|))
  }

  ghost function LastNonempty(rows: seq<Row>, initial: Occupied, first: nat, n: nat): Option<RowMetrics>
    requires n <= |rows|
  {
    if n == 0 then None
    else if rows[n - 1] != [] then Some(Metric(rows, initial, first, n - 1))
    else LastNonempty(rows, initial, first, n - 1)
  }

  /** The occupancy left for the rows after the first `n`, renumbered from zero. */
  ghost function Tail(occ: Occupied, n: nat): Occupied {
    map k | k in Span(0, Width(occ.Keys)) && At(occ, k + n) != {} :: At(occ, k + n)
  }

  lemma TailAt(occ: Occupied, n: nat, k: nat)
    ensures k in Tail(occ, n) <==> k + n in occ && occ[k + n] != {}
    ensures k in Tail(occ, n) ==> Tail(occ, n)[k] == occ[k + n]
  {
    assert k + n in occ ==> k + n in occ.Keys;
    assert At(occ, k + n) != {} ==> k + n in occ;
  }

  ghost predicate IsScan(scan: RowScan, rows: seq<Row>, initial: Occupied, first: nat) {
    && |scan.effective| == |scan.metrics| == |rows|
    && (forall i :: 0 <= i < |rows| ==> scan.effective[i] == Effective(rows, initial, i))
    && (forall i :: 0 <= i < |rows| ==> scan.metrics[i] == Metric(rows, initial, first, i))
    && scan.totalCols == Total(rows, initial, |rows|)
    && scan.lastNonempty == LastNonempty(rows, initial, first, |rows|)
    && scan.tail == Tail(After(rows, initial, |rows|), |rows|)
  }

  // ---------------------------------------------------------------- scanning, as the engine does it

  method WidthOf(columns: set<nat>) returns (w: nat)
    ensures w == Width(columns)
  {
    w := 0;
    var rest := columns;
    while rest != {}
      invariant rest <= columns
      invariant forall x :: x in columns ==> x in rest || x < w
      invariant w > 0 ==> w - 1 in columns
      decreases rest
    {
      var x :| x in rest;
      w := Max(w, x + 1);
      rest := rest - {x};
    }
    WidthIsUnique(columns, w);
  }

  method ColumnsOf(occ: Occupied) returns (columns: set<nat>)
    ensures columns == Columns(occ)
  {
    columns := {};
    var rows := occ.Keys;
    while rows != {}
      invariant rows <= occ.Keys
      invariant columns == set r, x | r in occ.Keys - rows && x in occ[r] :: x
      decreases rows
    {
      var r :| r in rows;
      columns := columns + occ[r];
      rows := rows - {r};
    }
  }

  /** Marks the rectangle of one cell, row by row. */
  method MarkCell(occ: Occupied, row: nat, column: nat, cell: Cell) returns (marked: Occupied)
    ensures marked == Mark(occ, row, cell.rowspan, column, cell.colspan)
  {
    marked := occ;
    for offset := 0 to cell.rowspan
      invariant marked == Mark(occ, row, offset, column, cell.colspan)
    {
      marked := marked[row + offset := At(marked, row + offset) + Span(column, cell.colspan)];
    }
  }

  method ScanRow(cells: Row, row: nat, occ: Occupied) returns (placed: Placed, actualCols: nat)
    ensures placed == Placing(cells, row, occ, |cells|)
    ensures actualCols == TotalColspan(cells, |cells|)
  {
    var occupiedRow := At(occ, row);
    var occupied: Occupied := occ;
    var column: nat := 0;
    actualCols := 0;
    for i := 0 to |cells|
      invariant forall x :: x in occupiedRow ==> Taken(occupied, row, x)
      invariant Placed(occupied, column) == Placing(cells, row, occ, i)
      invariant actualCols == TotalColspan(cells, i)
    {
      column := NextFree(occupiedRow, occupied, row, column);
      actualCols := actualCols + cells[i].colspan;
      ghost var before := occupied;
      occupied := MarkCell(occupied, row, column, cells[i]);
      forall x | x in occupiedRow ensures Taken(occupied, row, x) {
        MarkTaken(before, row, cells[i].rowspan, column, cells[i].colspan, row, x);
      }
      column := column + cells[i].colspan;
    }
    placed := Placed(occupied, column);
  }

  /** Skips the columns taken before the row began or by its own cells. */
  method NextFree(occupiedRow: set<nat>, occupied: Occupied, row: nat, column: nat) returns (free: nat)
    requires forall x :: x in occupiedRow ==> Taken(occupied, row, x)
    ensures free == FirstFree(occupied, row, column)
  {
    free := column;
    while free in occupiedRow || free in At(occupied, row)
      invariant column <= free
      invariant forall x :: column <= x < free ==> Taken(occupied, row, x)
      decreases At(occupied, row) - Span(0, free)
    {
      assert Taken(occupied, row, free);
      assert free in At(occupied, row) - Span(0, free) && free !in At(occupied, row) - Span(0, free + 1);
      free := free + 1;
    }
    assert IsFirstFree(occupied, row, column, free);
    FirstFreeIsUnique(occupied, row, column, free);
  }

  /** The rows not in `rows` have been dropped or renumbered. */
  ghost predicate TailSoFar(tail: Occupied, occ: Occupied, n: nat, rows: set<nat>) {
    && (forall k :: k in tail ==> k + n in occ && k + n !in rows && occ[k + n] != {} && tail[k] == occ[k + n])
    && (forall r :: r in occ && r !in rows && r >= n && occ[r] != {} ==> r - n in tail)
  }

  lemma TailStart(occ: Occupied, n: nat)
    ensures TailSoFar(map[], occ, n, occ.Keys)
  {
  }

  lemma TailStep(tail: Occupied, occ: Occupied, n: nat, rows: set<nat>, r: nat)
    requires TailSoFar(tail, occ, n, rows) && r in rows && r in occ
    ensures TailSoFar(if r >= n && occ[r] != {} then tail[r - n := occ[r]] else tail, occ, n, rows - {r})
  {
  }

  lemma TailDoneAt(tail: Occupied, occ: Occupied, n: nat, k: nat)
    requires TailSoFar(tail, occ, n, {})
    ensures k in tail <==> k in Tail(occ, n)
    ensures k in tail ==> tail[k] == Tail(occ, n)[k]
  {
    TailAt(occ, n, k);
    if k + n in occ && occ[k + n] != {} {
      assert (k + n) - n in tail;
    }
  }

  lemma TailDone(tail: Occupied, occ: Occupied, n: nat)
    requires TailSoFar(tail, occ, n, {})
    ensures tail == Tail(occ, n)
  {
    hide TailSoFar, Tail;
    forall k: nat
      ensures k in tail <==> k in Tail(occ, n)
      ensures k in tail ==> tail[k] == Tail(occ, n)[k]
    {
      TailDoneAt(tail, occ, n, k);
    }
    assert tail.Keys == Tail(occ, n).Keys;
  }

  /** Drops the scanned rows and renumbers what is left. */
  method TailOf(occ: Occupied, n: nat) returns (tail: Occupied)
    ensures tail == Tail(occ, n)
  {
    hide TailSoFar, Tail;
    tail := map[];
    var rows := occ.Keys;
    TailStart(occ, n);
    while rows != {}
      invariant rows <= occ.Keys && TailSoFar(tail, occ, n, rows)
      decreases rows
    {
      var r :| r in rows;
      TailStep(tail, occ, n, rows, r);
      if r >= n && occ[r] != {} {
        tail := tail[r - n := occ[r]];
      }
      rows := rows - {r};
    }
    TailDone(tail, occ, n);
  }

  method ScanRows(rows: seq<Row>, initial: Occupied, first: nat) returns (scan: RowScan)
    ensures IsScan(scan, rows, initial, first)
  {
    hide Placing, At, IsWidth;
    var occupied: Occupied := initial;
    var columns := ColumnsOf(occupied);
    var totalCols := WidthOf(columns);
    var effective: seq<nat> := [];
    var metrics: seq<RowMetrics> := [];
    var lastNonempty: Option<RowMetrics> := None;
    for i := 0 to |rows|
      invariant occupied == After(rows, initial, i)
      invariant totalCols == Total(rows, initial, i)
      invariant lastNonempty == LastNonempty(rows, initial, first, i)
      invariant |effective| == |metrics| == i
      invariant forall j :: 0 <= j < i ==> effective[j] == Effective(rows, initial, j)
      invariant forall j :: 0 <= j < i ==> metrics[j] == Metric(rows, initial, first, j)
    {
      occupied := occupied[i := At(occupied, i)];
      var placed, actualCols := ScanRow(rows[i], i, occupied);
      occupied := placed.occ;
      var effectiveCols := WidthOf(At(occupied, i));
      totalCols := Max(Max(totalCols, placed.column), effectiveCols);
      effective := effective + [effectiveCols];
      var metric := RowMetrics(first + i, effectiveCols, actualCols);
      if rows[i] != [] {
        lastNonempty := Some(metric);
      }
      metrics := metrics + [metric];
    }
    var tail := TailOf(occupied, |rows|);
    scan := RowScan(effective, metrics, totalCols, lastNonempty, tail);
  }

  // ---------------------------------------------------------------- what the scan means

  ghost predicate CoveredBy(cells: Row, row: nat, occ: Occupied, n: nat, k: nat, x: nat)
    requires n <= |cells|
  {
    exists j :: 0 <= j < n && Covers(cells[j], row, Start(cells, row, occ, j), k, x)
  }

  /** Placing cells occupies exactly their rectangles, overlapping or not. */
  lemma {:induction false} PlacingTaken(cells: Row, row: nat, occ: Occupied, n: nat, k: nat, x: nat)
    requires n <= |cells|
    ensures Taken(Placing(cells, row, occ, n).occ, k, x) <==>
            Taken(occ, k, x) || CoveredBy(cells, row, occ, n, k, x)
  {
    if n > 0 {
      PlacingTaken(cells, row, occ, n - 1, k, x);
      var start := Start(cells, row, occ, n - 1);
      MarkTaken(Placing(cells, row, occ, n - 1).occ, row, cells[n - 1].rowspan, start, cells[n - 1].colspan, k, x);
      assert Covers(cells[n - 1], row, start, k, x) ==> CoveredBy(cells, row, occ, n, k, x);
    }
  }

  lemma {:induction false} CellEndsBefore(cells: Row, row: nat, occ: Occupied, j: nat, n: nat)
    requires j < n <= |cells|
    ensures Start(cells, row, occ, j) + cells[j].colspan <= Placing(cells, row, occ, n).column
    decreases n
  {
    if j < n - 1 {
      CellEndsBefore(cells, row, occ, j, n - 1);
    }
  }

  /**
   Each cell starts at the first column after the previous cell that no earlier row occupies: cells of
   the same row never push it further, even where a colspan overruns an occupied column.
   */
  lemma StartIsFirstFree(cells: Row, row: nat, occ: Occupied, i: nat)
    requires i < |cells|
    ensures IsFirstFree(occ, row, if i == 0 then 0 else Start(cells, row, occ, i - 1) + cells[i - 1].colspan,
                        Start(cells, row, occ, i))
  {
    var p := Placing(cells, row, occ, i);
    var start := Start(cells, row, occ, i);
    PlacingTaken(cells, row, occ, i, row, start);
    forall x | p.column <= x < start ensures Taken(occ, row, x) {
      PlacingTaken(cells, row, occ, i, row, x);
      if !Taken(occ, row, x) {
        var j :| 0 <= j < i && Covers(cells[j], row, Start(cells, row, occ, j), row, x);
        CellEndsBefore(cells, row, occ, j, i);
      }
    }
  }

  // ---------------------------------------------------------------- scanning composes

  /** From row `from` on, `b` is the occupancy `a` seen from row `n`. */
  ghost predicate Shifted(a: Occupied, b: Occupied, n: nat, from: nat) {
    forall k: nat, x: nat :: k >= from ==> (Taken(b, k, x) <==> Taken(a, k + n, x))
  }

  lemma MarkShift(a: Occupied, b: Occupied, n: nat, from: nat, row: nat, height: nat, column: nat, width: nat)
    requires Shifted(a, b, n, from)
    ensures Shifted(Mark(a, row + n, height, column, width), Mark(b, row, height, column, width), n, from)
  {
    forall k: nat, x: nat | k >= from
      ensures Taken(Mark(b, row, height, column, width), k, x) <==>
              Taken(Mark(a, row + n, height, column, width), k + n, x)
    {
      MarkTaken(a, row + n, height, column, width, k + n, x);
      MarkTaken(b, row, height, column, width, k, x);
    }
  }

  lemma FirstFreeShift(a: Occupied, b: Occupied, n: nat, from: nat, row: nat, column: nat)
    requires Shifted(a, b, n, from) && row >= from
    ensures FirstFree(a, row + n, column) == FirstFree(b, row, column)
  {
    hide Taken;
    var free := FirstFree(b, row, column);
    var r := row + n;
    forall x | column <= x < free ensures Taken(a, r, x) {
      assert Taken(b, row, x);
    }
    assert !Taken(b, row, free);
    FirstFreeIsUnique(a, r, column, free);
  }

  lemma {:induction false} PlacingShift(cells: Row, row: nat, a: Occupied, b: Occupied, n: nat, from: nat, i: nat)
    requires Shifted(a, b, n, from) && row >= from && i <= |cells|
    ensures Placing(cells, row + n, a, i).column == Placing(cells, row, b, i).column
    ensures Shifted(Placing(cells, row + n, a, i).occ, Placing(cells, row, b, i).occ, n, from)
    decreases i, 0
  {
    hide Mark, Start, Shifted;
    if i > 0 {
      StartShift(cells, row, a, b, n, from, i - 1);
      MarkShift(Placing(cells, row + n, a, i - 1).occ, Placing(cells, row, b, i - 1).occ, n, from,
                row, cells[i - 1].rowspan, Start(cells, row, b, i - 1), cells[i - 1].colspan);
    }
  }

  lemma {:induction false} StartShift(cells: Row, row: nat, a: Occupied, b: Occupied, n: nat, from: nat, i: nat)
    requires Shifted(a, b, n, from) && row >= from && i < |cells|
    ensures Placing(cells, row + n, a, i).column == Placing(cells, row, b, i).column
    ensures Shifted(Placing(cells, row + n, a, i).occ, Placing(cells, row, b, i).occ, n, from)
    ensures Start(cells, row + n, a, i) == Start(cells, row, b, i)
    decreases i, 1
  {
    PlacingShift(cells, row, a, b, n, from, i);
    FirstFreeShift(Placing(cells, row + n, a, i).occ, Placing(cells, row, b, i).occ, n, from, row,
                   Placing(cells, row, b, i).column);
  }

  lemma TouchShift(a: Occupied, b: Occupied, n: nat, from: nat, i: nat)
    requires Shifted(a, b, n, from)
    ensures Shifted(a[n + i := At(a, n + i)], b[i := At(b, i)], n, from)
  {
    var a', b' := a[n + i := At(a, n + i)], b[i := At(b, i)];
    forall k: nat, x: nat | k >= from ensures Taken(b', k, x) <==> Taken(a', k + n, x) {
      assert Taken(b, k, x) <==> Taken(a, k + n, x);
    }
  }

  /** Two tables whose rows agree from row `from` of `b` on, `n` rows further down in `c`, grow alike. */
  lemma {:induction false} RunShift(c: seq<Row>, occ: Occupied, b: seq<Row>, tail: Occupied, n: nat, from: nat, i: nat)
    requires |c| == n + |b| && from <= i <= |b|
    requires forall r :: from <= r < |b| ==> b[r] == c[n + r]
    requires Shifted(After(c, occ, n + from), After(b, tail, from), n, from)
    ensures Shifted(After(c, occ, n + i), After(b, tail, i), n, from)
    ensures i < |b| ==> Shifted(Before(c, occ, n + i), Before(b, tail, i), n, from)
    decreases i
  {
    hide Placing, Shifted;
    if i > from {
      RunShift(c, occ, b, tail, n, from, i - 1);
      assert b[i - 1] == c[n + i - 1];
      PlacingShift(b[i - 1], i - 1, Before(c, occ, n + i - 1), Before(b, tail, i - 1), n, from, |b[i - 1]|);
    }
    if i < |b| {
      TouchShift(After(c, occ, n + i), After(b, tail, i), n, from, i);
    }
  }

  lemma AfterNone(rows: seq<Row>, initial: Occupied)
    ensures After(rows, initial, 0) == initial
  {
  }

  lemma {:induction false} AfterPrefix(a: seq<Row>, b: seq<Row>, occ: Occupied, n: nat)
    requires n <= |a|
    ensures After(a + b, occ, n) == After(a, occ, n)
    ensures n < |a| ==> Before(a + b, occ, n) == Before(a, occ, n)
  {
    hide Placing;
    if n > 0 {
      AfterPrefix(a, b, occ, n - 1);
    }
  }

  /** A column occupied after some rows was occupied at the start or is below their column count. */
  lemma {:induction false} AfterBound(rows: seq<Row>, initial: Occupied, n: nat, k: nat, x: nat)
    requires n <= |rows|
    requires Taken(After(rows, initial, n), k, x)
    ensures x < Total(rows, initial, n)
    ensures n > 0 ==> x < Max(Total(rows, initial, n - 1),
                              Placing(rows[n - 1], n - 1, Before(rows, initial, n - 1), |rows[n - 1]|).column)
  {
    hide Start, Placing;
    if n == 0 {
      assert x in Columns(initial);
    } else {
      var cells, occ := rows[n - 1], Before(rows, initial, n - 1);
      PlacingTaken(cells, n - 1, occ, |cells|, k, x);
      if Taken(occ, k, x) {
        AfterBound(rows, initial, n - 1, k, x);
      } else {
        var j :| 0 <= j < |cells| && Covers(cells[j], n - 1, Start(cells, n - 1, occ, j), k, x);
        CellEndsBefore(cells, n - 1, occ, j, |cells|);
      }
    }
  }

  /** The columns still occupied after a scan never exceed its column count. */
  lemma TailWithinTotal(rows: seq<Row>, initial: Occupied)
    ensures Width(Columns(Tail(After(rows, initial, |rows|), |rows|))) <= Total(rows, initial, |rows|)
  {
    var occ := After(rows, initial, |rows|);
    var tail := Tail(occ, |rows|);
    var w := Width(Columns(tail));
    if w > 0 {
      var k, x :| k in tail && x in tail[k] && x == w - 1;
      TailAt(occ, |rows|, k);
      AfterBound(rows, initial, |rows|, k + |rows|, x);
    }
  }

  lemma TailIsShifted(occ: Occupied, n: nat)
    ensures Shifted(occ, Tail(occ, n), n, 0)
  {
    forall k: nat, x: nat ensures Taken(Tail(occ, n), k, x) <==> Taken(occ, k + n, x) {
      TailAt(occ, n, k);
    }
  }

  lemma TailOfShifted(a: Occupied, b: Occupied, n: nat, from: nat, m: nat)
    requires Shifted(a, b, n, from) && from <= m
    ensures Tail(a, n + m) == Tail(b, m)
  {
    var ta, tb := Tail(a, n + m), Tail(b, m);
    forall k: nat, x: nat ensures Taken(ta, k, x) <==> Taken(tb, k, x) {
      TailAt(a, n + m, k);
      TailAt(b, m, k);
      assert Taken(b, k + m, x) <==> Taken(a, k + m + n, x);
    }
    SameTaken(ta, tb);
  }

  lemma SameTaken(a: Occupied, b: Occupied)
    requires forall k: nat, x: nat :: Taken(a, k, x) <==> Taken(b, k, x)
    requires forall k :: k in a ==> a[k] != {}
    requires forall k :: k in b ==> b[k] != {}
    ensures a == b
  {
    forall k: nat ensures k in a <==> k in b {
      if k in a {
        var x :| x in a[k];
        assert Taken(a, k, x);
      }
      if k in b {
        var x :| x in b[k];
        assert Taken(b, k, x);
      }
    }
    forall k | k in a ensures a[k] == b[k] {
      forall x: nat ensures x in a[k] <==> x in b[k] {
        assert Taken(a, k, x) <==> Taken(b, k, x);
      }
    }
  }

  lemma EffectiveShift(a: Occupied, b: Occupied, n: nat, row: nat)
    requires Shifted(a, b, n, 0)
    ensures Width(At(a, n + row)) == Width(At(b, row))
  {
    forall x: nat ensures x in At(a, n + row) <==> x in At(b, row) {
      assert Taken(b, row, x) <==> Taken(a, row + n, x);
    }
    assert At(a, n + row) == At(b, row);
  }

  /** Behind the rows `a`, the rows `b` build what they build from the tail of `a`. */
  lemma ShiftAfterBreak(a: seq<Row>, b: seq<Row>, initial: Occupied, i: nat)
    requires i <= |b|
    ensures var tail := Tail(After(a, initial, |a|), |a|);
            Shifted(After(a + b, initial, |a| + i), After(b, tail, i), |a|, 0) &&
            (i < |b| ==> Shifted(Before(a + b, initial, |a| + i), Before(b, tail, i), |a|, 0))
  {
    hide Placing, Shifted, After, Before, Tail;
    var tail := Tail(After(a, initial, |a|), |a|);
    AfterPrefix(a, b, initial, |a|);
    TailIsShifted(After(a, initial, |a|), |a|);
    AfterNone(b, tail);
    RunShift(a + b, initial, b, tail, |a|, 0, i);
  }

  /** Behind the rows `a`, row `i` of `b` measures what it measures at the start of a scan from the tail of `a`. */
  lemma RowAfterBreak(a: seq<Row>, b: seq<Row>, initial: Occupied, i: nat)
    requires i < |b|
    ensures var tail := Tail(After(a, initial, |a|), |a|);
            Effective(a + b, initial, |a| + i) == Effective(b, tail, i) &&
            Placing(b[i], |a| + i, Before(a + b, initial, |a| + i), |b[i]|).column ==
            Placing(b[i], i, Before(b, tail, i), |b[i]|).column
  {
    hide Placing, Shifted, After, Before, Tail, Width;
    var tail := Tail(After(a, initial, |a|), |a|);
    ShiftAfterBreak(a, b, initial, i);
    ShiftAfterBreak(a, b, initial, i + 1);
    PlacingShift(b[i], i, Before(a + b, initial, |a| + i), Before(b, tail, i), |a|, 0, |b[i]|);
    EffectiveShift(After(a + b, initial, |a| + i + 1), After(b, tail, i + 1), |a|, i);
  }

  lemma {:induction false} TotalConcat(a: seq<Row>, b: seq<Row>, initial: Occupied, i: nat)
    requires i <= |b|
    ensures Total(a + b, initial, |a| + i) ==
            Max(Total(a, initial, |a|), Total(b, Tail(After(a, initial, |a|), |a|), i))
  {
    hide Placing, Effective;
    if i == 0 {
      TailWithinTotal(a, initial);
      TotalPrefix(a, b, initial, |a|);
    } else {
      TotalConcat(a, b, initial, i - 1);
      RowAfterBreak(a, b, initial, i - 1);
    }
  }

  lemma {:induction false} TotalPrefix(a: seq<Row>, b: seq<Row>, initial: Occupied, n: nat)
    requires n <= |a|
    ensures Total(a + b, initial, n) == Total(a, initial, n)
  {
    hide Placing;
    AfterPrefix(a, b, initial, n);
    if n > 0 {
      AfterPrefix(a, b, initial, n - 1);
      TotalPrefix(a, b, initial, n - 1);
    }
  }

  lemma {:induction false} LastNonemptyConcat(a: seq<Row>, b: seq<Row>, initial: Occupied, first: nat, i: nat)
    requires i <= |b|
    ensures var last := LastNonempty(b, Tail(After(a, initial, |a|), |a|), first + |a|, i);
            LastNonempty(a + b, initial, first, |a| + i) ==
            if last.Some? then last else LastNonempty(a, initial, first, |a|)
  {
    hide Effective, After, Before, Tail;
    if i == 0 {
      LastNonemptyPrefix(a, b, initial, first, |a|);
    } else {
      LastNonemptyConcat(a, b, initial, first, i - 1);
      RowAfterBreak(a, b, initial, i - 1);
    }
  }

  lemma {:induction false} LastNonemptyPrefix(a: seq<Row>, b: seq<Row>, initial: Occupied, first: nat, n: nat)
    requires n <= |a|
    ensures LastNonempty(a + b, initial, first, n) == LastNonempty(a, initial, first, n)
  {
    if n > 0 {
      LastNonemptyPrefix(a, b, initial, first, n - 1);
      AfterPrefix(a, b, initial, n);
    }
  }

  /**
   Scanning composes across a page break: scanning `a` and then `b` from what `a` leaves behind gives
   the scan of `a + b`, whatever the spans and whatever was occupied at the start.
   */
  lemma ScanComposes(a: seq<Row>, b: seq<Row>, initial: Occupied, first: nat, sa: RowScan, sb: RowScan)
    requires IsScan(sa, a, initial, first)
    requires IsScan(sb, b, sa.tail, first + |a|)
    ensures IsScan(RowScan(sa.effective + sb.effective,
                           sa.metrics + sb.metrics,
                           Max(sa.totalCols, sb.totalCols),
                           if sb.lastNonempty.Some? then sb.lastNonempty else sa.lastNonempty,
                           sb.tail),
                   a + b, initial, first)
  {
    hide Placing, Effective, Shifted, After, Before, Total, LastNonempty, Tail;
    forall i | 0 <= i < |a| ensures Effective(a + b, initial, i) == Effective(a, initial, i) {
      EffectivePrefix(a, b, initial, i);
    }
    forall i | |a| <= i < |a| + |b| ensures Effective(a + b, initial, i) == Effective(b, sa.tail, i - |a|) {
      RowAfterBreak(a, b, initial, i - |a|);
    }
    TotalConcat(a, b, initial, |b|);
    LastNonemptyConcat(a, b, initial, first, |b|);
    ShiftAfterBreak(a, b, initial, |b|);
    TailOfShifted(After(a + b, initial, |a| + |b|), After(b, sa.tail, |b|), |a|, 0, |b|);
  }

  lemma EffectivePrefix(a: seq<Row>, b: seq<Row>, initial: Occupied, i: nat)
    requires i < |a|
    ensures Effective(a + b, initial, i) == Effective(a, initial, i)
  {
    AfterPrefix(a, b, initial, i + 1);
  }
}
