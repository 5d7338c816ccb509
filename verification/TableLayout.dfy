/**
 What the scan of a table and the other views of its grid mean, said of the cells alone.

 A layout gives every cell its start column: the first one behind the cell before it that neither the previous page
 nor a cell of an earlier row fills.  There is one layout, and scan, owners and mapping report what can be seen on it.
 */
module TableLayout {
  import opened Wrappers
  import opened TableGrid
  import opened TableViews

  type Starts = seq<seq<nat>>

  ghost predicate InTable(rows: seq<Row>, r: nat, j: nat) {
    r < |rows| && j < |rows[r]|
  }

  ghost predicate FitsTable(rows: seq<Row>, starts: Starts) {
    |starts| == |rows| && forall r :: 0 <= r < |rows| ==> |starts[r]| == |rows[r]|
  }

  /** Cell `j` of row `r` lies over column `x` of row `k`. */
  ghost predicate LiesOver(rows: seq<Row>, starts: Starts, r: nat, j: nat, k: nat, x: nat)
    requires FitsTable(rows, starts) && InTable(rows, r, j)
  {
    r <= k < r + rows[r][j].rowspan && starts[r][j] <= x < starts[r][j] + rows[r][j].colspan
  }

  ghost predicate Inherited(initial: Occupied, k: nat, x: nat) {
    k in initial && x in initial[k]
  }

  /** Column `x` of row `k` is filled by the previous page or by a cell of the first `n` rows. */
  ghost predicate Filled(rows: seq<Row>, initial: Occupied, starts: Starts, n: nat, k: nat, x: nat)
    requires FitsTable(rows, starts)
  {
    Inherited(initial, k, x) ||
    exists r: nat, j: nat :: r < n && InTable(rows, r, j) && LiesOver(rows, starts, r, j, k, x)
  }

  ghost predicate IsStart(rows: seq<Row>, initial: Occupied, starts: Starts, r: nat, j: nat)
    requires FitsTable(rows, starts) && InTable(rows, r, j)
  {
    var from, start := if j == 0 then 0 else starts[r][j - 1] + rows[r][j - 1].colspan, starts[r][j];
    && from <= start && !Filled(rows, initial, starts, r, r, start)
    && forall x :: from <= x < start ==> Filled(rows, initial, starts, r, r, x)
  }

  ghost predicate IsLayout(rows: seq<Row>, initial: Occupied, starts: Starts) {
    FitsTable(rows, starts) && forall r: nat, j: nat :: InTable(rows, r, j) ==> IsStart(rows, initial, starts, r, j)
  }

  // ---------------------------------------------------------------- the layout and the scan

  /** The scan starts the cells of the first `n` rows, and the first `m` of the next, where the layout says. */
  ghost predicate Agrees(rows: seq<Row>, initial: Occupied, starts: Starts, n: nat, m: nat)
    requires FitsTable(rows, starts)
  {
    forall r: nat, j: nat :: InTable(rows, r, j) && (r < n || (r == n && j < m)) ==>
      starts[r][j] == Start(rows[r], r, Before(rows, initial, r), j)
  }

  lemma {:induction false} FilledIsTaken(rows: seq<Row>, initial: Occupied, starts: Starts, n: nat, k: nat, x: nat)
    requires FitsTable(rows, starts) && n <= |rows| && Agrees(rows, initial, starts, n, 0)
    ensures Filled(rows, initial, starts, n, k, x) <==> Taken(After(rows, initial, n), k, x)
  {
    hide Start, Before, Placing;
    if n > 0 {
      var cells, occ := rows[n - 1], Before(rows, initial, n - 1);
      FilledIsTaken(rows, initial, starts, n - 1, k, x);
      PlacingTaken(cells, n - 1, occ, |cells|, k, x);
      BeforeTakes(rows, initial, n - 1, k, x);
      RowFills(rows, initial, starts, n - 1, k, x);
    }
  }

  /** One more row fills what its cells cover. */
  lemma RowFills(rows: seq<Row>, initial: Occupied, starts: Starts, n: nat, k: nat, x: nat)
    requires FitsTable(rows, starts) && n < |rows| && Agrees(rows, initial, starts, n + 1, 0)
    ensures Filled(rows, initial, starts, n + 1, k, x) <==>
            Filled(rows, initial, starts, n, k, x) ||
            CoveredBy(rows[n], n, Before(rows, initial, n), |rows[n]|, k, x)
  {
    hide Start, Before;
    var cells, occ := rows[n], Before(rows, initial, n);
    if CoveredBy(cells, n, occ, |cells|, k, x) {
      var j: nat :| j < |cells| && Covers(cells[j], n, Start(cells, n, occ, j), k, x);
      assert InTable(rows, n, j) && LiesOver(rows, starts, n, j, k, x);
    }
    if Filled(rows, initial, starts, n + 1, k, x) && !Inherited(initial, k, x) {
      var r: nat, j: nat :| r < n + 1 && InTable(rows, r, j) && LiesOver(rows, starts, r, j, k, x);
      assert r == n ==> Covers(cells[j], n, Start(cells, n, occ, j), k, x);
    }
  }

  lemma BeforeTakes(rows: seq<Row>, initial: Occupied, n: nat, k: nat, x: nat)
    requires n < |rows|
    ensures Taken(Before(rows, initial, n), k, x) <==> Taken(After(rows, initial, n), k, x)
  {
    hide After;
  }

  /** A start the layout gives is the one the scan finds, if those before it are. */
  lemma SameStart(rows: seq<Row>, initial: Occupied, starts: Starts, r: nat, j: nat)
    requires FitsTable(rows, starts) && InTable(rows, r, j) && IsStart(rows, initial, starts, r, j)
    requires Agrees(rows, initial, starts, r, j)
    ensures starts[r][j] == Start(rows[r], r, Before(rows, initial, r), j)
  {
    hide Start, Placing, Filled;
    var occ := Before(rows, initial, r);
    StartIsFirstFree(rows[r], r, occ, j);
    var from := if j == 0 then 0 else starts[r][j - 1] + rows[r][j - 1].colspan;
    assert Agrees(rows, initial, starts, r, 0);
    forall x: nat ensures Filled(rows, initial, starts, r, r, x) <==> Taken(occ, r, x) {
      FilledIsTaken(rows, initial, starts, r, r, x);
      BeforeTakes(rows, initial, r, r, x);
    }
    hide Before;
    FirstFreeIsUnique(occ, r, from, starts[r][j]);
    FirstFreeIsUnique(occ, r, from, Start(rows[r], r, occ, j));
  }

  lemma {:induction false} LayoutAgrees(rows: seq<Row>, initial: Occupied, starts: Starts, n: nat, m: nat)
    requires IsLayout(rows, initial, starts) && n <= |rows|
    requires if n < |rows| then m <= |rows[n]| else m == 0
    ensures Agrees(rows, initial, starts, n, m)
    decreases n, m
  {
    hide Start, Before, IsStart;
    if m > 0 {
      LayoutAgrees(rows, initial, starts, n, m - 1);
      assert InTable(rows, n, m - 1);
      SameStart(rows, initial, starts, n, m - 1);
    } else if n > 0 {
      LayoutAgrees(rows, initial, starts, n - 1, |rows[n - 1]|);
    }
  }

  ghost function StartsOf(rows: seq<Row>, initial: Occupied): (starts: Starts)
    ensures FitsTable(rows, starts)
  {
    seq(|rows|, r requires 0 <= r < |rows| =>
      seq(|rows[r]|, j requires 0 <= j < |rows[r]| => Start(rows[r], r, Before(rows, initial, r), j)))
  }

  /** Every table has exactly one layout, whatever the previous page left. */
  lemma LayoutIsUnique(rows: seq<Row>, initial: Occupied, starts: Starts)
    ensures IsLayout(rows, initial, StartsOf(rows, initial))
    ensures IsLayout(rows, initial, starts) ==> starts == StartsOf(rows, initial)
  {
    hide Start, Before, IsStart;
    var own := StartsOf(rows, initial);
    forall r: nat, j: nat | InTable(rows, r, j) ensures IsStart(rows, initial, own, r, j) {
      OwnStart(rows, initial, r, j);
    }
    if IsLayout(rows, initial, starts) {
      LayoutAgrees(rows, initial, starts, |rows|, 0);
      forall r: nat | r < |rows| ensures starts[r] == own[r] {
        forall j: nat | j < |rows[r]| ensures starts[r][j] == own[r][j] {
          assert InTable(rows, r, j);
        }
      }
    }
  }

  lemma OwnStart(rows: seq<Row>, initial: Occupied, r: nat, j: nat)
    requires InTable(rows, r, j)
    ensures IsStart(rows, initial, StartsOf(rows, initial), r, j)
  {
    hide Start, Placing, Filled;
    var own, occ := StartsOf(rows, initial), Before(rows, initial, r);
    StartIsFirstFree(rows[r], r, occ, j);
    assert Agrees(rows, initial, own, r, 0);
    forall x: nat ensures Filled(rows, initial, own, r, r, x) <==> Taken(occ, r, x) {
      FilledIsTaken(rows, initial, own, r, r, x);
      BeforeTakes(rows, initial, r, r, x);
    }
  }

  // ---------------------------------------------------------------- what the scan reports

  /** How many columns the cells of a row span together. */
  ghost function Spanned(cells: Row): set<(nat, nat)> {
    set j: nat, o: nat | j < |cells| && o < cells[j].colspan :: (j, o)
  }

  lemma {:induction false} ColspanCounts(cells: Row, n: nat)
    requires n <= |cells|
    ensures TotalColspan(cells, n) == |Spanned(cells[..n])|
  {
    if n == 0 {
      assert Spanned(cells[..0]) == {};
    } else {
      ColspanCounts(cells, n - 1);
      var before, last := Spanned(cells[..n - 1]), LastSpanned(n - 1, cells[n - 1].colspan);
      assert Spanned(cells[..n]) == before + last;
      assert before !! last;
      LastCounts(n - 1, cells[n - 1].colspan);
    }
  }

  ghost function LastSpanned(j: nat, n: nat): set<(nat, nat)> {
    set o: nat | o < n :: (j, o)
  }

  lemma {:induction false} LastCounts(j: nat, n: nat)
    ensures |LastSpanned(j, n)| == n
  {
    if n > 0 {
      LastCounts(j, n - 1);
      assert LastSpanned(j, n) == LastSpanned(j, n - 1) + {(j, n - 1)};
    } else {
      assert LastSpanned(j, n) == {};
    }
  }

  /** Column `x` of row `i` is filled, all rows up to it placed. */
  ghost predicate InRow(rows: seq<Row>, initial: Occupied, starts: Starts, i: nat, x: nat)
    requires FitsTable(rows, starts)
  {
    Filled(rows, initial, starts, i + 1, i, x)
  }

  /** `width` is one more than the last column of row `i` that is filled, all rows up to it placed. */
  ghost predicate IsRowWidth(rows: seq<Row>, initial: Occupied, starts: Starts, i: nat, width: nat)
    requires FitsTable(rows, starts)
  {
    && (forall x: nat :: InRow(rows, initial, starts, i, x) ==> x < width)
    && (width > 0 ==> InRow(rows, initial, starts, i, width - 1))
  }

  /** `width` is where the last column ends that the previous page or a cell of the first `n` rows reaches. */
  ghost predicate IsTableWidth(rows: seq<Row>, initial: Occupied, starts: Starts, n: nat, width: nat)
    requires FitsTable(rows, starts)
  {
    && (forall k: nat, x: nat :: Inherited(initial, k, x) ==> x < width)
    && (forall r: nat, j: nat :: r < n && InTable(rows, r, j) ==> starts[r][j] + rows[r][j].colspan <= width)
    && (width > 0 ==>
         (exists k: nat, x: nat :: x + 1 == width && Inherited(initial, k, x)) ||
         (exists r: nat, j: nat :: r < n && InTable(rows, r, j) && starts[r][j] + rows[r][j].colspan == width))
  }

  /** Column `x` of the `k`-th row behind the table is filled. */
  ghost predicate IsTail(rows: seq<Row>, initial: Occupied, starts: Starts, tail: Occupied)
    requires FitsTable(rows, starts)
  {
    && (forall k: nat, x: nat :: Inherited(tail, k, x) <==> Filled(rows, initial, starts, |rows|, |rows| + k, x))
    && forall k :: k in tail ==> tail[k] != {}
  }

  /** What a scan reports of the layout. */
  ghost predicate Reports(scan: RowScan, rows: seq<Row>, initial: Occupied, first: nat, starts: Starts)
    requires FitsTable(rows, starts)
  {
    && |scan.effective| == |scan.metrics| == |rows|
    && (forall i :: 0 <= i < |rows| ==> IsRowWidth(rows, initial, starts, i, scan.effective[i]))
    && (forall i :: 0 <= i < |rows| ==>
         scan.metrics[i] == RowMetrics(first + i, scan.effective[i], |Spanned(rows[i])|))
    && IsTableWidth(rows, initial, starts, |rows|, scan.totalCols)
    && (scan.lastNonempty.None? <==> forall i :: 0 <= i < |rows| ==> rows[i] == [])
    && (forall k :: 0 <= k < |rows| && rows[k] != [] && (forall i :: k < i < |rows| ==> rows[i] == []) ==>
         scan.lastNonempty == Some(scan.metrics[k]))
    && IsTail(rows, initial, starts, scan.tail)
  }

  lemma EffectiveMeans(rows: seq<Row>, initial: Occupied, starts: Starts, i: nat)
    requires FitsTable(rows, starts) && Agrees(rows, initial, starts, |rows|, 0) && i < |rows|
    ensures IsRowWidth(rows, initial, starts, i, Effective(rows, initial, i))
  {
    hide After, Filled;
    var columns := At(After(rows, initial, i + 1), i);
    assert IsWidth(columns, Effective(rows, initial, i));
    forall x: nat ensures x in columns <==> InRow(rows, initial, starts, i, x) {
      FilledIsTaken(rows, initial, starts, i + 1, i, x);
    }
  }

  lemma ColumnsMean(initial: Occupied, x: nat)
    ensures x in Columns(initial) <==> exists k :: Inherited(initial, k, x)
  {
    if x in Columns(initial) {
      var k :| k in initial && x in initial[k];
      assert Inherited(initial, k, x);
    }
  }

  lemma {:induction false} TotalMeans(rows: seq<Row>, initial: Occupied, starts: Starts, n: nat)
    requires FitsTable(rows, starts) && Agrees(rows, initial, starts, |rows|, 0) && n <= |rows|
    ensures IsTableWidth(rows, initial, starts, n, Total(rows, initial, n))
  {
    hide Start, Before, Placing, Effective;
    if n == 0 {
      var w := Width(Columns(initial));
      assert IsWidth(Columns(initial), w);
      forall k: nat, x: nat | Inherited(initial, k, x) ensures x < w {
        ColumnsMean(initial, x);
      }
      if w > 0 {
        ColumnsMean(initial, w - 1);
        var k: nat :| Inherited(initial, k, w - 1);
      }
    } else {
      TotalMeans(rows, initial, starts, n - 1);
      EffectiveWithinEnds(rows, initial, n - 1);
      RowEnds(rows, initial, starts, n - 1);
    }
  }

  /** A row ends where its last cell does. */
  lemma RowEnds(rows: seq<Row>, initial: Occupied, starts: Starts, r: nat)
    requires FitsTable(rows, starts) && Agrees(rows, initial, starts, |rows|, 0) && r < |rows|
    ensures var end := Placing(rows[r], r, Before(rows, initial, r), |rows[r]|).column;
            && (forall j: nat :: InTable(rows, r, j) ==> starts[r][j] + rows[r][j].colspan <= end)
            && (end > 0 ==> rows[r] != [] && starts[r][|rows[r]| - 1] + rows[r][|rows[r]| - 1].colspan == end)
            && (rows[r] == [] ==> end == 0)
  {
    hide Before;
    var cells, occ := rows[r], Before(rows, initial, r);
    forall j: nat | InTable(rows, r, j)
      ensures starts[r][j] + cells[j].colspan <= Placing(cells, r, occ, |cells|).column
    {
      CellEndsBefore(cells, r, occ, j, |cells|);
    }
    if cells != [] {
      assert InTable(rows, r, |cells| - 1);
    }
  }

  lemma TailMeans(rows: seq<Row>, initial: Occupied, starts: Starts)
    requires FitsTable(rows, starts) && Agrees(rows, initial, starts, |rows|, 0)
    ensures IsTail(rows, initial, starts, Tail(After(rows, initial, |rows|), |rows|))
  {
    hide After, Filled, Tail;
    var n, occ := |rows|, After(rows, initial, |rows|);
    forall k: nat, x: nat ensures Inherited(Tail(occ, n), k, x) <==> Filled(rows, initial, starts, n, n + k, x) {
      TailAt(occ, n, k);
      FilledIsTaken(rows, initial, starts, n, n + k, x);
    }
    forall k | k in Tail(occ, n) ensures Tail(occ, n)[k] != {} {
      TailAt(occ, n, k);
    }
  }

  lemma {:induction false} LastMeans(rows: seq<Row>, initial: Occupied, first: nat, n: nat)
    requires n <= |rows|
    ensures LastNonempty(rows, initial, first, n).None? <==> forall i :: 0 <= i < n ==> rows[i] == []
    ensures forall k :: 0 <= k < n && rows[k] != [] && (forall i :: k < i < n ==> rows[i] == []) ==>
        LastNonempty(rows, initial, first, n) == Some(Metric(rows, initial, first, k))
  {
    hide Metric;
    if n > 0 {
      LastMeans(rows, initial, first, n - 1);
    }
  }

  lemma MetricMeans(rows: seq<Row>, initial: Occupied, first: nat, i: nat)
    requires i < |rows|
    ensures Metric(rows, initial, first, i) ==
            RowMetrics(first + i, Effective(rows, initial, i), |Spanned(rows[i])|)
  {
    ColspanCounts(rows[i], |rows[i]|);
    assert rows[i][..|rows[i]|] == rows[i];
  }

  /**
   What the scan means: each row's width and the total width are those of the layout, a row's own columns are those
   its cells span, the last row with cells is the one reported, and the tail is what reaches behind the table.
   */
  lemma ScanReports(scan: RowScan, rows: seq<Row>, initial: Occupied, first: nat, starts: Starts)
    requires IsScan(scan, rows, initial, first) && IsLayout(rows, initial, starts)
    ensures FitsTable(rows, starts) && Reports(scan, rows, initial, first, starts)
  {
    LayoutAgrees(rows, initial, starts, |rows|, 0);
    hide Start, Before, After, IsStart, Effective, Metric, Total, LastNonempty, Tail, IsRowWidth, IsTableWidth, IsTail,
      Agrees, Spanned;
    forall i | 0 <= i < |rows|
      ensures IsRowWidth(rows, initial, starts, i, scan.effective[i])
      ensures scan.metrics[i] == RowMetrics(first + i, scan.effective[i], |Spanned(rows[i])|)
    {
      EffectiveMeans(rows, initial, starts, i);
      MetricMeans(rows, initial, first, i);
    }
    TotalMeans(rows, initial, starts, |rows|);
    TailMeans(rows, initial, starts);
    LastMeans(rows, initial, first, |rows|);
  }

  // ---------------------------------------------------------------- what the other views report

  /** The last cell of the first `n` rows to lie over column `x` of row `k`, or the previous page. */
  ghost predicate LastOver(rows: seq<Row>, initial: Occupied, starts: Starts, n: nat, k: nat, x: nat, owner: Source)
    requires FitsTable(rows, starts)
  {
    if owner.row == -1 then
      && owner.cell == x && Inherited(initial, k, x)
      && forall r: nat, j: nat :: r < n && InTable(rows, r, j) ==> !LiesOver(rows, starts, r, j, k, x)
    else
      && 0 <= owner.row < n && InTable(rows, owner.row, owner.cell)
      && LiesOver(rows, starts, owner.row, owner.cell, k, x)
      && forall r: nat, j: nat :: r < n && InTable(rows, r, j) && LiesOver(rows, starts, r, j, k, x) ==>
           r < owner.row || (r == owner.row && j <= owner.cell)
  }

  /** What the owners of a row report of the layout. */
  ghost predicate OwnersReport(owned: Owned, totalCols: nat, rows: seq<Row>, initial: Occupied, target: nat,
                               starts: Starts)
    requires FitsTable(rows, starts)
  {
    && (forall x: nat :: x in owned <==> InRow(rows, initial, starts, target, x))
    && (forall x :: x in owned ==> LastOver(rows, initial, starts, target + 1, target, x, owned[x]))
    && IsTableWidth(rows, initial, starts, target + 1, totalCols)
  }

  lemma {:induction false} OwnerMeans(rows: seq<Row>, initial: Occupied, starts: Starts, n: nat, k: nat, x: nat)
    requires FitsTable(rows, starts) && Agrees(rows, initial, starts, |rows|, 0) && n <= |rows|
    ensures var owner := OwnerOf(rows, initial, n, k, x);
            && (owner.None? ==> !Filled(rows, initial, starts, n, k, x))
            && (owner.Some? ==> LastOver(rows, initial, starts, n, k, x, owner.value))
  {
    hide Start, Before;
    if n > 0 {
      OwnerMeans(rows, initial, starts, n - 1, k, x);
      RowOwnerMeans(rows, initial, starts, n - 1, k, x);
    }
  }

  lemma RowOwnerMeans(rows: seq<Row>, initial: Occupied, starts: Starts, r: nat, k: nat, x: nat)
    requires FitsTable(rows, starts) && Agrees(rows, initial, starts, |rows|, 0) && r < |rows|
    ensures var j := RowOwner(rows[r], r, Before(rows, initial, r), |rows[r]|, k, x);
            && (j.Some? ==> InTable(rows, r, j.value) && LiesOver(rows, starts, r, j.value, k, x))
            && forall i: nat :: InTable(rows, r, i) && LiesOver(rows, starts, r, i, k, x) ==> j.Some? && i <= j.value
  {
    hide Start, Before;
    var cells, occ := rows[r], Before(rows, initial, r);
    forall i: nat | InTable(rows, r, i)
      ensures LiesOver(rows, starts, r, i, k, x) <==> Covers(cells[i], r, Start(cells, r, occ, i), k, x)
    {
    }
  }

  /** The map of owners gives each filled column of a row the last cell that lies over it. */
  lemma ViewReports(owned: Owned, totalCols: nat, rows: seq<Row>, initial: Occupied, target: nat, starts: Starts)
    requires target < |rows| && IsView(owned, totalCols, rows, target, initial) && IsLayout(rows, initial, starts)
    ensures FitsTable(rows, starts) && OwnersReport(owned, totalCols, rows, initial, target, starts)
  {
    LayoutAgrees(rows, initial, starts, |rows|, 0);
    LayoutFits(rows, initial, starts);
    hide IsLayout, After, OwnerOf, Total, IsTableWidth, InRow, Agrees, LastOver;
    TotalMeans(rows, initial, starts, target + 1);
    forall x: nat
      ensures x in owned <==> InRow(rows, initial, starts, target, x)
      ensures x in owned ==> LastOver(rows, initial, starts, target + 1, target, x, owned[x])
    {
      ViewAt(owned, totalCols, rows, initial, target, starts, x);
    }
  }

  lemma ViewAt(owned: Owned, totalCols: nat, rows: seq<Row>, initial: Occupied, target: nat, starts: Starts, x: nat)
    requires target < |rows| && IsView(owned, totalCols, rows, target, initial)
    requires FitsTable(rows, starts) && Agrees(rows, initial, starts, |rows|, 0)
    ensures x in owned <==> InRow(rows, initial, starts, target, x)
    ensures x in owned ==> LastOver(rows, initial, starts, target + 1, target, x, owned[x])
  {
    hide After, OwnerOf, Total, Filled, Agrees, LastOver;
    AgreesBefore(rows, initial, starts, target + 1);
    FilledIsTaken(rows, initial, starts, target + 1, target, x);
    OwnerMeans(rows, initial, starts, target + 1, target, x);
    assert Lookup(owned, x) == OwnerOf(rows, initial, target + 1, target, x);
  }

  lemma AgreesBefore(rows: seq<Row>, initial: Occupied, starts: Starts, n: nat)
    requires FitsTable(rows, starts) && Agrees(rows, initial, starts, |rows|, 0) && n <= |rows|
    ensures Agrees(rows, initial, starts, n, 0)
  {
    hide Start, Before;
  }

  /** The mapping of a row is the layout's. */
  lemma MappingReports(mapping: seq<nat>, rows: seq<Row>, initial: Occupied, target: nat, starts: Starts)
    requires target < |rows| && IsMapping(mapping, rows, target, initial) && IsLayout(rows, initial, starts)
    ensures FitsTable(rows, starts) && mapping == starts[target]
  {
    LayoutAgrees(rows, initial, starts, |rows|, 0);
    LayoutFits(rows, initial, starts);
    hide IsLayout, Start, Before;
    forall j: nat | j < |mapping| ensures mapping[j] == starts[target][j] {
      assert InTable(rows, target, j);
    }
  }

  lemma LayoutFits(rows: seq<Row>, initial: Occupied, starts: Starts)
    requires IsLayout(rows, initial, starts)
    ensures FitsTable(rows, starts)
  {
  }
}
