/**
 Repairs on table rows: extending a header over its rowspans, inserting a cell before a visual column,
 and carrying the rowspans of a blank row down so that the row can be deleted.
 */
module TableRepair {
  import opened Wrappers
  import opened TableGrid
  import opened TableViews

  /** The start column of cell `j` of row `r` in a table that starts on an empty page. */
  ghost function ColumnOf(rows: seq<Row>, r: nat, j: nat): nat
    requires r < |rows| && j < |rows[r]|
  {
    Start(rows[r], r, Before(rows, map[], r), j)
  }

  // ---------------------------------------------------------------- headers

  /** No cell of the first `count` rows reaches below them, unless they are the whole table. */
  ghost predicate HeaderClosed(rows: seq<Row>, count: nat) {
    count >= |rows| ||
    forall r, j :: 0 <= r < count && 0 <= j < |rows[r]| ==> r + rows[r][j].rowspan <= count
  }

  /** Extends a header of `first` rows to the least number of rows its cells do not reach below. */
  method ExpandHeaderRowspans(rows: seq<Row>, first: nat) returns (count: nat)
    ensures first <= |rows| ==> first <= count <= |rows| && HeaderClosed(rows, count)
    ensures first <= |rows| ==> forall c: nat :: first <= c && HeaderClosed(rows, c) ==> count <= c
  {
    count := first;
    var index := 0;
    while index < count && index < |rows|
      invariant index <= |rows|
      invariant first <= |rows| ==> index <= count <= |rows| && first <= count
      invariant first <= |rows| ==>
        forall r, j :: 0 <= r < index && 0 <= j < |rows[r]| ==> r + rows[r][j].rowspan <= count || count == |rows|
      invariant first <= |rows| ==> forall c: nat :: first <= c && HeaderClosed(rows, c) ==> count <= c
      decreases |rows| - index
    {
      ghost var before := count;
      for j := 0 to |rows[index]|
        invariant first <= |rows| ==> index < before <= count <= |rows| && first <= count
        invariant first <= |rows| ==>
          forall i :: 0 <= i < j ==> index + rows[index][i].rowspan <= count || count == |rows|
        invariant first <= |rows| ==> forall c: nat :: first <= c && HeaderClosed(rows, c) ==> count <= c
      {
        var reach := Max(count, index + rows[index][j].rowspan);
        count := if reach < |rows| then reach else |rows|;
      }
      index := index + 1;
    }
  }

  /** The previous page leaves nothing in row `i` or below it. */
  ghost predicate LeavesFree(initial: Occupied, i: nat) {
    forall k: nat, x: nat :: k >= i ==> !Taken(initial, k, x)
  }

  /** Below an extended header nothing is occupied by it. */
  lemma {:induction false} HeaderStops(rows: seq<Row>, initial: Occupied, count: nat, n: nat, k: nat, x: nat)
    requires n <= count < |rows| && HeaderClosed(rows, count) && k >= count && LeavesFree(initial, count)
    ensures !Taken(After(rows, initial, n), k, x)
  {
    hide Start, Placing;
    if n > 0 {
      HeaderStops(rows, initial, count, n - 1, k, x);
      PlacingTaken(rows[n - 1], n - 1, Before(rows, initial, n - 1), |rows[n - 1]|, k, x);
    }
  }

  /** An extended header keeps clear of the first row below it, the one the merge may delete. */
  lemma DeletableBelowHeader(rows: seq<Row>, count: nat)
    requires HeaderClosed(rows, count) && count + 1 < |rows|
    requires forall j :: 0 <= j < |rows[count]| ==> !rows[count][j].semantic
    requires Tight(rows, count + 1)
    ensures Deletable(rows, count)
  {
    hide HeaderClosed, Tight, After;
    forall k: nat, x: nat | k >= count ensures !Taken(After(rows, map[], count), k, x) {
      HeaderStops(rows, map[], count, count, k, x);
    }
  }

  // ---------------------------------------------------------------- inserting a cell

  ghost predicate IsInsertPosition(cells: Row, row: nat, occ: Occupied, column: nat, p: nat) {
    && p <= |cells|
    && (forall j :: 0 <= j < p ==> Start(cells, row, occ, j) < column)
    && (p < |cells| ==> column <= Start(cells, row, occ, p))
  }

  ghost function InsertPosition(cells: Row, row: nat, occ: Occupied, column: nat, from: nat): (p: nat)
    requires from <= |cells|
    requires forall j :: 0 <= j < from ==> Start(cells, row, occ, j) < column
    ensures IsInsertPosition(cells, row, occ, column, p)
    decreases |cells| - from
  {
    if from == |cells| || column <= Start(cells, row, occ, from) then from
    else InsertPosition(cells, row, occ, column, from + 1)
  }

  function InsertAt<T>(s: seq<T>, p: nat, x: T): seq<T>
    requires p <= |s|
  {
    s[..p] + [x] + s[p..]
  }

  ghost function InsertCell(rows: seq<Row>, target: nat, column: nat, cell: Cell): (inserted: seq<Row>)
    requires target < |rows|
    ensures |inserted| == |rows|
  {
    var p := InsertPosition(rows[target], target, Before(rows, map[], target), column, 0);
    rows[target := InsertAt(rows[target], p, cell)]
  }

  lemma InsertPositionIsUnique(cells: Row, row: nat, occ: Occupied, column: nat, p: nat)
    requires IsInsertPosition(cells, row, occ, column, p)
    ensures InsertPosition(cells, row, occ, column, 0) == p
  {
    hide Start, InsertPosition;
  }

  /** Inserts before the first cell that starts at `column` or later. */
  method InsertCellBeforeVisualColumn(rows: seq<Row>, target: nat, column: nat, cell: Cell)
    returns (result: Option<seq<Row>>)
    ensures result.Some? <==> target < |rows|
    ensures result.Some? ==> result.value == InsertCell(rows, target, column, cell)
  {
    var mapping := VisualMapping(rows, target, map[]);
    if mapping.None? {
      return None;
    }
    var starts := mapping.value;
    ghost var occ := Before(rows, map[], target);
    hide Start, Before;
    var p := 0;
    while p < |starts| && starts[p] < column
      invariant p <= |starts|
      invariant forall j :: 0 <= j < p ==> Start(rows[target], target, occ, j) < column
    {
      p := p + 1;
    }
    InsertPositionIsUnique(rows[target], target, occ, column, p);
    result := Some(rows[target := InsertAt(rows[target], p, cell)]);
  }

  // ---------------------------------------------------------------- carrying rowspans down

  /** A cell and the column it is meant for. */
  datatype Slot = Slot(column: nat, cell: Cell)

  function Shortened(cell: Cell): Cell
    requires cell.rowspan > 1
  {
    cell.(rowspan := cell.rowspan - 1)
  }

  predicate Carries(cell: Cell) {
    cell.rowspan > 1 && !cell.semantic
  }

  /** What the first `n` cells of row `i` leave for the row below. */
  ghost function Carried(rows: seq<Row>, i: nat, n: nat): seq<Slot>
    requires i < |rows| && n <= |rows[i]|
  {
    if n == 0 then []
    else if Carries(rows[i][n - 1]) then
      Carried(rows, i, n - 1) + [Slot(ColumnOf(rows, i, n - 1), Shortened(rows[i][n - 1]))]
    else Carried(rows, i, n - 1)
  }

  /** Inserting the slots from `t` on, the last one first. */
  ghost function InsertFrom(rows: seq<Row>, target: nat, slots: seq<Slot>, t: nat): (inserted: seq<Row>)
    requires target < |rows| && t <= |slots|
    ensures |inserted| == |rows|
    decreases |slots| - t
  {
    if t == |slots| then rows
    else InsertCell(InsertFrom(rows, target, slots, t + 1), target, slots[t].column, slots[t].cell)
  }

  ghost function Carry(rows: seq<Row>, i: nat): seq<Row> {
    if i + 1 >= |rows| then rows
    else InsertFrom(rows, i + 1, Carried(rows, i, |rows[i]|), 0)
  }

  method CarryBlankRowspans(rows: seq<Row>, i: nat) returns (result: seq<Row>)
    ensures result == Carry(rows, i)
  {
    if i + 1 >= |rows| {
      return rows;
    }
    var mapping := VisualMapping(rows, i, map[]);
    var carried := CollectCarried(rows, i, mapping.value);
    hide InsertCell;
    result := rows;
    var t: nat := |carried|;
    while t > 0
      invariant t <= |carried|
      invariant result == InsertFrom(rows, i + 1, carried, t)
    {
      t := t - 1;
      var inserted := InsertCellBeforeVisualColumn(result, i + 1, carried[t].column, carried[t].cell);
      result := inserted.value;
    }
  }

  method CollectCarried(rows: seq<Row>, i: nat, mapping: seq<nat>) returns (carried: seq<Slot>)
    requires i < |rows| && IsMapping(mapping, rows, i, map[])
    ensures carried == Carried(rows, i, |rows[i]|)
  {
    hide Start, Before;
    carried := [];
    for n := 0 to |rows[i]|
      invariant carried == Carried(rows, i, n)
    {
      if rows[i][n].rowspan > 1 && !rows[i][n].semantic {
        carried := carried + [Slot(mapping[n], Shortened(rows[i][n]))];
      }
    }
  }

  // ---------------------------------------------------------------- slots in column order

  ghost function Cells(slots: seq<Slot>): (cells: Row)
    ensures |cells| == |slots|
    ensures forall q :: 0 <= q < |slots| ==> cells[q] == slots[q].cell
  {
    seq(|slots|, q requires 0 <= q < |slots| => slots[q].cell)
  }

  /** Slots in column order that do not overlap. */
  ghost predicate Apart(slots: seq<Slot>) {
    forall a, b :: 0 <= a < b < |slots| ==> slots[a].column + slots[a].cell.colspan <= slots[b].column
  }

  ghost predicate Disjoint(a: Slot, b: Slot) {
    a.column + a.cell.colspan <= b.column || b.column + b.cell.colspan <= a.column
  }

  ghost predicate IsRank(slots: seq<Slot>, column: nat, p: nat) {
    && p <= |slots|
    && (forall q :: 0 <= q < p ==> slots[q].column < column)
    && (forall q :: p <= q < |slots| ==> column <= slots[q].column)
  }

  ghost function Rank(slots: seq<Slot>, column: nat): (p: nat)
    requires Apart(slots)
    ensures p <= |slots| && IsRank(slots, column, p)
  {
    if |slots| == 0 || slots[|slots| - 1].column < column then |slots|
    else Rank(slots[..|slots| - 1], column)
  }

  /** The slots of a row with the carried slots from `t` on put in their places. */
  ghost function MergeFrom(own: seq<Slot>, carried: seq<Slot>, t: nat): (merged: seq<Slot>)
    requires t <= |carried| && Mergeable(own, carried)
    ensures Apart(merged)
    ensures forall s :: s in merged <==> s in own || s in carried[t..]
    ensures |merged| == |own| + |carried| - t
    decreases |carried| - t
  {
    if t == |carried| then own else
    var rest := MergeFrom(own, carried, t + 1);
    assert carried[t..] == [carried[t]] + carried[t + 1..];
    assert forall s :: s in rest ==> Disjoint(s, carried[t]);
    InsertKeepsApart(rest, carried[t], Rank(rest, carried[t].column));
    InsertAt(rest, Rank(rest, carried[t].column), carried[t])
  }

  ghost predicate Mergeable(own: seq<Slot>, carried: seq<Slot>) {
    Apart(own) && Apart(carried) && forall a, b :: a in own && b in carried ==> Disjoint(a, b)
  }

  lemma InsertKeepsApart(slots: seq<Slot>, s: Slot, p: nat)
    requires Apart(slots) && IsRank(slots, s.column, p)
    requires forall q :: q in slots ==> Disjoint(q, s)
    ensures Apart(InsertAt(slots, p, s))
    ensures forall q :: q in InsertAt(slots, p, s) <==> q == s || q in slots
  {
    var merged := InsertAt(slots, p, s);
    assert slots == slots[..p] + slots[p..];
    forall q | 0 <= q < |slots| ensures Disjoint(slots[q], s) {
      assert slots[q] in slots;
    }
  }

  lemma RankIsUnique(slots: seq<Slot>, column: nat, p: nat, q: nat)
    requires IsRank(slots, column, p) && IsRank(slots, column, q)
    ensures p == q
  {
    var atP := if p < |slots| then slots[p].column else column;
    var atQ := if q < |slots| then slots[q].column else column;
  }

  lemma InsertPrefix(slots: seq<Slot>, s: Slot, q: nat, column: nat, p: nat)
    requires IsRank(slots, s.column, q) && IsRank(slots, column, p) && column < s.column
    ensures p <= q && InsertAt(slots, q, s)[..p] == slots[..p]
    ensures IsRank(InsertAt(slots, q, s), column, p)
  {
    assert q < |slots| ==> column < slots[q].column;
  }

  /** Slots at later columns leave what comes before `column` alone. */
  lemma {:induction false} MergePrefix(own: seq<Slot>, carried: seq<Slot>, t: nat, column: nat, p: nat)
    requires t <= |carried| && Mergeable(own, carried)
    requires forall u :: t <= u < |carried| ==> column < carried[u].column
    requires p <= |own| && IsRank(own, column, p)
    ensures p <= |MergeFrom(own, carried, t)| && MergeFrom(own, carried, t)[..p] == own[..p]
    ensures IsRank(MergeFrom(own, carried, t), column, p)
    decreases |carried| - t
  {
    hide Apart, Mergeable, Disjoint, IsRank;
    if t < |carried| {
      MergePrefix(own, carried, t + 1, column, p);
      var rest := MergeFrom(own, carried, t + 1);
      InsertPrefix(rest, carried[t], Rank(rest, carried[t].column), column, p);
    }
  }

  // ---------------------------------------------------------------- deleting a blank row

  /** The cells of a row with their start columns. */
  ghost function OwnSlots(rows: seq<Row>, r: nat): (slots: seq<Slot>)
    requires r < |rows|
    ensures |slots| == |rows[r]|
    ensures forall j :: 0 <= j < |slots| ==> slots[j] == Slot(ColumnOf(rows, r, j), rows[r][j])
  {
    seq(|rows[r]|, j requires 0 <= j < |rows[r]| => Slot(ColumnOf(rows, r, j), rows[r][j]))
  }

  ghost predicate Filled(occ: Occupied, row: nat, width: nat) {
    forall x :: 0 <= x < width ==> Taken(occ, row, x)
  }

  /** Row `r` has no hole below its effective width and none of its cells overlaps an earlier row. */
  ghost predicate Tight(rows: seq<Row>, r: nat)
    requires r < |rows|
  {
    && Filled(After(rows, map[], r + 1), r, Effective(rows, map[], r))
    && (forall j, x :: 0 <= j < |rows[r]| && ColumnOf(rows, r, j) <= x < ColumnOf(rows, r, j) + rows[r][j].colspan ==>
         !Taken(Before(rows, map[], r), r, x))
  }

  /** Row `i` is blank, nothing from above reaches it, and the row below it is tight. */
  ghost predicate Deletable(rows: seq<Row>, i: nat) {
    && i + 1 < |rows|
    && (forall k: nat, x: nat :: k >= i ==> !Taken(After(rows, map[], i), k, x))
    && (forall j :: 0 <= j < |rows[i]| ==> !rows[i][j].semantic)
    && Tight(rows, i + 1)
  }

  function WithoutRow(rows: seq<Row>, i: nat): seq<Row>
    requires i < |rows|
  {
    rows[..i] + rows[i + 1..]
  }

  lemma {:induction false} StartOfPrefix(a: Row, b: Row, row: nat, occ: Occupied, n: nat)
    requires n <= |a| && n <= |b| && forall q :: 0 <= q < n ==> a[q] == b[q]
    ensures Placing(a, row, occ, n) == Placing(b, row, occ, n)
    ensures n < |a| && n < |b| ==> Start(a, row, occ, n) == Start(b, row, occ, n)
    decreases n
  {
    if n > 0 {
      StartOfPrefix(a, b, row, occ, n - 1);
    }
  }

  lemma StartsApart(cells: Row, row: nat, occ: Occupied, a: nat, b: nat)
    requires a < b < |cells|
    ensures Start(cells, row, occ, a) + cells[a].colspan <= Start(cells, row, occ, b)
  {
    CellEndsBefore(cells, row, occ, a, b);
    StartAfterPlaced(cells, row, occ, b);
  }

  lemma OwnSlotsApart(rows: seq<Row>, r: nat)
    requires r < |rows|
    ensures Apart(OwnSlots(rows, r))
  {
    hide Start, Before;
    var slots := OwnSlots(rows, r);
    forall a, b | 0 <= a < b < |slots| ensures slots[a].column + slots[a].cell.colspan <= slots[b].column {
      StartsApart(rows[r], r, Before(rows, map[], r), a, b);
    }
  }

  /** Every carried slot stems from a cell of the row, and every carrying cell has its slot. */
  lemma {:induction false} CarriedFrom(rows: seq<Row>, i: nat, n: nat, t: nat) returns (m: nat)
    requires i < |rows| && n <= |rows[i]| && t < |Carried(rows, i, n)|
    ensures m < n && Carries(rows[i][m])
    ensures Carried(rows, i, n)[t] == Slot(ColumnOf(rows, i, m), Shortened(rows[i][m]))
    decreases n
  {
    hide ColumnOf;
    if Carries(rows[i][n - 1]) && t == |Carried(rows, i, n)| - 1 {
      m := n - 1;
    } else {
      m := CarriedFrom(rows, i, n - 1, t);
    }
  }

  lemma {:induction false} CarriedOf(rows: seq<Row>, i: nat, n: nat, m: nat)
    requires i < |rows| && m < n <= |rows[i]| && Carries(rows[i][m])
    ensures Slot(ColumnOf(rows, i, m), Shortened(rows[i][m])) in Carried(rows, i, n)
    decreases n
  {
    hide ColumnOf;
    if m < n - 1 {
      CarriedOf(rows, i, n - 1, m);
    }
  }

  lemma {:induction false} CarriedApart(rows: seq<Row>, i: nat, n: nat)
    requires i < |rows| && n <= |rows[i]|
    ensures Apart(Carried(rows, i, n))
    decreases n
  {
    hide Start, Before;
    if n > 0 {
      CarriedApart(rows, i, n - 1);
      if Carries(rows[i][n - 1]) {
        var slots := Carried(rows, i, n - 1);
        forall a | 0 <= a < |slots| ensures slots[a].column + slots[a].cell.colspan <= ColumnOf(rows, i, n - 1) {
          var m := CarriedFrom(rows, i, n - 1, a);
          StartsApart(rows[i], i, Before(rows, map[], i), m, n - 1);
        }
      }
    }
  }

  /** Row `i` occupies row `i + 1` exactly where it carries. */
  lemma BelowRow(rows: seq<Row>, i: nat, k: nat, x: nat)
    requires Deletable(rows, i) && k > i
    ensures Taken(After(rows, map[], i + 1), k, x) <==>
            exists s :: s in Carried(rows, i, |rows[i]|) && Covers(s.cell, i, s.column, k - 1, x)
  {
    hide Start, Before, Tight, Placing;
    var carried := Carried(rows, i, |rows[i]|);
    var cells, occ := rows[i], Before(rows, map[], i);
    AfterIsPlacing(rows, i);
    PlacingTaken(cells, i, occ, |cells|, k, x);
    assert !Taken(occ, k, x) by {
      BeforeTaken(rows, i, k, x);
      assert !Taken(After(rows, map[], i), k, x);
    }
    if CoveredBy(cells, i, occ, |cells|, k, x) {
      var m :| 0 <= m < |cells| && Covers(cells[m], i, Start(cells, i, occ, m), k, x);
      CarriedOf(rows, i, |cells|, m);
      var s := Slot(ColumnOf(rows, i, m), Shortened(cells[m]));
      assert s in carried && Covers(s.cell, i, s.column, k - 1, x);
    }
    if s :| s in carried && Covers(s.cell, i, s.column, k - 1, x) {
      var t :| 0 <= t < |carried| && carried[t] == s;
      var m := CarriedFrom(rows, i, |cells|, t);
      assert Covers(cells[m], i, Start(cells, i, occ, m), k, x);
    }
  }

  lemma AfterIsPlacing(rows: seq<Row>, r: nat)
    requires r < |rows|
    ensures After(rows, map[], r + 1) == Placing(rows[r], r, Before(rows, map[], r), |rows[r]|).occ
  {
    hide Placing;
  }

  lemma BeforeTaken(rows: seq<Row>, r: nat, k: nat, x: nat)
    requires r < |rows|
    ensures Taken(Before(rows, map[], r), k, x) <==> Taken(After(rows, map[], r), k, x)
  {
    hide After;
  }

  /** What row `i + 1` and the rows above occupy, as slots. */
  lemma BelowTaken(rows: seq<Row>, i: nat, k: nat, x: nat)
    requires Deletable(rows, i) && k > i
    ensures Taken(After(rows, map[], i + 2), k, x) <==>
            (exists s :: s in Carried(rows, i, |rows[i]|) && Covers(s.cell, i, s.column, k - 1, x)) ||
            (exists s :: s in OwnSlots(rows, i + 1) && Covers(s.cell, i, s.column, k - 1, x))
  {
    hide Start, Before, Placing, Tight, Carried;
    var cells, occ := rows[i + 1], Before(rows, map[], i + 1);
    var own := OwnSlots(rows, i + 1);
    AfterIsPlacing(rows, i + 1);
    PlacingTaken(cells, i + 1, occ, |cells|, k, x);
    BeforeTaken(rows, i + 1, k, x);
    BelowRow(rows, i, k, x);
    if CoveredBy(cells, i + 1, occ, |cells|, k, x) {
      var m :| 0 <= m < |cells| && Covers(cells[m], i + 1, Start(cells, i + 1, occ, m), k, x);
      assert own[m] in own && Covers(own[m].cell, i, own[m].column, k - 1, x);
    }
    if s :| s in own && Covers(s.cell, i, s.column, k - 1, x) {
      var m :| 0 <= m < |own| && own[m] == s;
      assert Covers(cells[m], i + 1, Start(cells, i + 1, occ, m), k, x);
    }
  }

  /** A carried slot overlaps no cell of the row below it. */
  lemma CarriedFits(rows: seq<Row>, i: nat)
    requires Deletable(rows, i)
    ensures Mergeable(OwnSlots(rows, i + 1), Carried(rows, i, |rows[i]|))
  {
    hide Start, Before, Placing, Carried, Apart, Filled;
    var own, carried := OwnSlots(rows, i + 1), Carried(rows, i, |rows[i]|);
    OwnSlotsApart(rows, i + 1);
    CarriedApart(rows, i, |rows[i]|);
    forall a, b | a in own && b in carried ensures Disjoint(a, b) {
      var j :| 0 <= j < |own| && own[j] == a;
      if !Disjoint(a, b) {
        var x := Max(a.column, b.column);
        assert Covers(b.cell, i, b.column, i, x);
        assert ColumnOf(rows, i + 1, j) <= x < ColumnOf(rows, i + 1, j) + rows[i + 1][j].colspan;
        BeforeTaken(rows, i + 1, i + 1, x);
        BelowRow(rows, i, i + 1, x);
      }
    }
  }

  /** Nothing is missing left of a column that row `i + 1` covers in some way. */
  lemma NoHoleBefore(rows: seq<Row>, i: nat, c: nat, x: nat) returns (s: Slot)
    requires Deletable(rows, i)
    requires x <= c && Taken(After(rows, map[], i + 2), i + 1, c)
    ensures s in Carried(rows, i, |rows[i]|) || s in OwnSlots(rows, i + 1)
    ensures s.column <= x < s.column + s.cell.colspan
  {
    hide Start, Before, Placing, Carried, After;
    assert c in At(After(rows, map[], i + 2), i + 1);
    assert x < Effective(rows, map[], i + 1);
    assert Taken(After(rows, map[], i + 2), i + 1, x);
    BelowTaken(rows, i, i + 1, x);
    s :| (s in Carried(rows, i, |rows[i]|) || s in OwnSlots(rows, i + 1)) && Covers(s.cell, i, s.column, i, x);
    assert Covers(s.cell, i, s.column, i, x);
  }

  /** Cells that begin like the cells of a row start where those do. */
  lemma PrefixStarts(rows: seq<Row>, r: nat, cells: Row, p: nat, q: nat)
    requires r < |rows| && p <= |rows[r]| && p <= |cells| && cells[..p] == rows[r][..p] && q < p
    ensures Start(cells, r, Before(rows, map[], r), q) == OwnSlots(rows, r)[q].column
  {
    hide Start, Placing, Before;
    forall u | 0 <= u < p ensures cells[u] == rows[r][u] {
      assert cells[..p][u] == rows[r][..p][u];
    }
    StartOfPrefix(cells, rows[r], r, Before(rows, map[], r), q);
  }

  /** Behind the cells that start left of a carried column, the next cell starts at that column or later. */
  lemma NextStartsAtLeast(rows: seq<Row>, i: nat, cells: Row, p: nat, t: nat)
    requires Deletable(rows, i) && t < |Carried(rows, i, |rows[i]|)|
    requires IsRank(OwnSlots(rows, i + 1), Carried(rows, i, |rows[i]|)[t].column, p)
    requires p < |cells| && p <= |rows[i + 1]| && cells[..p] == rows[i + 1][..p]
    ensures Carried(rows, i, |rows[i]|)[t].column <= Start(cells, i + 1, Before(rows, map[], i + 1), p)
  {
    hide Start, Before, Placing, Carried, Tight, IsRank;
    var occ, c := Before(rows, map[], i + 1), Carried(rows, i, |rows[i]|)[t].column;
    StartIsFirstFree(cells, i + 1, occ, p);
    var x := Start(cells, i + 1, occ, p);
    if p > 0 {
      PrefixStarts(rows, i + 1, cells, p, p - 1);
      assert cells[..p][p - 1] == rows[i + 1][..p][p - 1];
      assert ColumnOf(rows, i + 1, p - 1) + rows[i + 1][p - 1].colspan <= x;
    }
    if x < c {
      CarriedColumnTaken(rows, i, t);
      FreeColumnIsOwned(rows, i, c, x, p);
    }
  }

  /** In the row below, a carried slot finds its place among the slots already merged. */
  lemma CarriedPosition(rows: seq<Row>, i: nat, t: nat)
    requires Deletable(rows, i)
    requires Mergeable(OwnSlots(rows, i + 1), Carried(rows, i, |rows[i]|))
    requires t < |Carried(rows, i, |rows[i]|)|
    ensures var own, carried := OwnSlots(rows, i + 1), Carried(rows, i, |rows[i]|);
            var rest := MergeFrom(own, carried, t + 1);
            IsInsertPosition(Cells(rest), i + 1, Before(rows, map[], i + 1), carried[t].column,
                             Rank(rest, carried[t].column))
  {
    hide Start, Before, Placing, Carried, Tight, MergeFrom, Disjoint;
    var own, carried := OwnSlots(rows, i + 1), Carried(rows, i, |rows[i]|);
    var rest, c := MergeFrom(own, carried, t + 1), carried[t].column;
    var cells, occ := Cells(rest), Before(rows, map[], i + 1);
    var p := Rank(own, c);
    MergePrefix(own, carried, t + 1, c, p);
    RankIsUnique(rest, c, p, Rank(rest, c));
    assert cells[..p] == rows[i + 1][..p] by {
      forall q | 0 <= q < p ensures cells[q] == rows[i + 1][q] {
        assert rest[..p][q] == own[..p][q];
      }
    }
    var below := i + 1;
    forall q | 0 <= q < p ensures Start(cells, below, occ, q) < c {
      PrefixStarts(rows, i + 1, cells, p, q);
      assert own[q].column < c;
    }
    if p < |cells| {
      NextStartsAtLeast(rows, i, cells, p, t);
    }
  }

  lemma CarriedColumnTaken(rows: seq<Row>, i: nat, t: nat)
    requires Deletable(rows, i) && t < |Carried(rows, i, |rows[i]|)|
    ensures Taken(After(rows, map[], i + 2), i + 1, Carried(rows, i, |rows[i]|)[t].column)
  {
    hide Start, Before, Placing, Carried, After;
    var s := Carried(rows, i, |rows[i]|)[t];
    assert Covers(s.cell, i, s.column, i, s.column);
    BelowTaken(rows, i, i + 1, s.column);
  }

  /** A column left of `c` that row `i` leaves free in row `i + 1` lies in one of the cells left of `c`. */
  lemma FreeColumnIsOwned(rows: seq<Row>, i: nat, c: nat, x: nat, p: nat)
    requires Deletable(rows, i) && x < c && Taken(After(rows, map[], i + 2), i + 1, c)
    requires !Taken(Before(rows, map[], i + 1), i + 1, x)
    requires IsRank(OwnSlots(rows, i + 1), c, p)
    ensures p > 0 && x < ColumnOf(rows, i + 1, p - 1) + rows[i + 1][p - 1].colspan
  {
    hide Start, Before, Placing, Carried, After;
    var own := OwnSlots(rows, i + 1);
    var s := NoHoleBefore(rows, i, c, x);
    BelowRow(rows, i, i + 1, x);
    BeforeTaken(rows, i + 1, i + 1, x);
    assert s in own by {
      assert Covers(s.cell, i, s.column, i, x);
    }
    var j :| 0 <= j < |own| && own[j] == s;
    OwnSlotsApart(rows, i + 1);
    assert j < p;
  }

  lemma {:induction false} AfterAgree(a: seq<Row>, b: seq<Row>, n: nat)
    requires n <= |a| && n <= |b| && forall r :: 0 <= r < n ==> a[r] == b[r]
    ensures After(a, map[], n) == After(b, map[], n)
    ensures n < |a| && n < |b| ==> Before(a, map[], n) == Before(b, map[], n)
    decreases n
  {
    hide Placing;
    if n > 0 {
      AfterAgree(a, b, n - 1);
    }
  }

  /** The row below a deletable row, with everything carried into it, in column order. */
  ghost function Merged(rows: seq<Row>, i: nat): seq<Slot>
    requires Deletable(rows, i)
  {
    CarriedFits(rows, i);
    MergeFrom(OwnSlots(rows, i + 1), Carried(rows, i, |rows[i]|), 0)
  }

  lemma CellsInsert(slots: seq<Slot>, p: nat, s: Slot)
    requires p <= |slots|
    ensures Cells(InsertAt(slots, p, s)) == InsertAt(Cells(slots), p, s.cell)
  {
  }

  /** Inserting one carried slot into the row that already has the later ones. */
  lemma CarryOne(rows: seq<Row>, i: nat, t: nat)
    requires Deletable(rows, i)
    requires Mergeable(OwnSlots(rows, i + 1), Carried(rows, i, |rows[i]|))
    requires t < |Carried(rows, i, |rows[i]|)|
    ensures var own, carried := OwnSlots(rows, i + 1), Carried(rows, i, |rows[i]|);
            InsertCell(rows[i + 1 := Cells(MergeFrom(own, carried, t + 1))], i + 1, carried[t].column, carried[t].cell)
            == rows[i + 1 := Cells(MergeFrom(own, carried, t))]
  {
    hide Tight, Mergeable, Carried, Start, Before, IsInsertPosition, IsRank, Apart, InsertAt;
    var own, carried := OwnSlots(rows, i + 1), Carried(rows, i, |rows[i]|);
    var rest := MergeFrom(own, carried, t + 1);
    AfterAgree(rows, rows[i + 1 := Cells(rest)], i + 1);
    CarriedPosition(rows, i, t);
    var p := Rank(rest, carried[t].column);
    InsertPositionIsUnique(Cells(rest), i + 1, Before(rows, map[], i + 1), carried[t].column, p);
    CellsInsert(rest, p, carried[t]);
  }

  /** Carrying the rowspans of row `i` down merges its slots into the next row and touches no other row. */
  lemma {:induction false} InsertFromMerges(rows: seq<Row>, i: nat, t: nat)
    requires Deletable(rows, i)
    requires Mergeable(OwnSlots(rows, i + 1), Carried(rows, i, |rows[i]|))
    requires t <= |Carried(rows, i, |rows[i]|)|
    ensures var own, carried := OwnSlots(rows, i + 1), Carried(rows, i, |rows[i]|);
            InsertFrom(rows, i + 1, carried, t) == rows[i + 1 := Cells(MergeFrom(own, carried, t))]
    decreases |Carried(rows, i, |rows[i]|)| - t
  {
    hide Tight, Mergeable, Carried, InsertCell, Apart;
    var own, carried := OwnSlots(rows, i + 1), Carried(rows, i, |rows[i]|);
    if t == |carried| {
      assert Cells(own) == rows[i + 1];
    } else {
      InsertFromMerges(rows, i, t + 1);
      CarryOne(rows, i, t);
    }
  }

  lemma CarryMerges(rows: seq<Row>, i: nat)
    requires Deletable(rows, i)
    ensures Carry(rows, i) == rows[i + 1 := Cells(Merged(rows, i))]
  {
    hide Tight, Mergeable, InsertFrom, Carried;
    CarriedFits(rows, i);
    InsertFromMerges(rows, i, 0);
  }

  lemma MergedMembers(rows: seq<Row>, i: nat, s: Slot)
    requires Deletable(rows, i)
    ensures s in Merged(rows, i) <==> s in OwnSlots(rows, i + 1) || s in Carried(rows, i, |rows[i]|)
  {
    hide Tight, Mergeable, Carried;
    CarriedFits(rows, i);
    var carried := Carried(rows, i, |rows[i]|);
    assert carried[0..] == carried;
  }

  lemma MergedApart(rows: seq<Row>, i: nat)
    requires Deletable(rows, i)
    ensures Apart(Merged(rows, i))
  {
    hide Tight, Mergeable, Carried;
    CarriedFits(rows, i);
  }

  /** The merged slots follow each other without a gap, from the first column on. */
  lemma MergedContiguous(rows: seq<Row>, i: nat, q: nat)
    requires Deletable(rows, i) && q < |Merged(rows, i)|
    ensures var slots := Merged(rows, i);
            slots[q].column == if q == 0 then 0 else slots[q - 1].column + slots[q - 1].cell.colspan
  {
    hide Tight, Carried, Start, Before, Merged, After;
    var slots := Merged(rows, i);
    var from := if q == 0 then 0 else slots[q - 1].column + slots[q - 1].cell.colspan;
    MergedApart(rows, i);
    if from < slots[q].column {
      assert Covers(slots[q].cell, i, slots[q].column, i, slots[q].column);
      MergedMembers(rows, i, slots[q]);
      BelowTaken(rows, i, i + 1, slots[q].column);
      var s := NoHoleBefore(rows, i, slots[q].column, from);
      MergedMembers(rows, i, s);
      GapIsBare(slots, q, from, s);
    }
  }

  lemma GapIsBare(slots: seq<Slot>, q: nat, x: nat, s: Slot)
    requires Apart(slots) && q < |slots| && s in slots
    requires x < slots[q].column && (q > 0 ==> slots[q - 1].column + slots[q - 1].cell.colspan <= x)
    ensures !(s.column <= x < s.column + s.cell.colspan)
  {
    var u :| 0 <= u < |slots| && slots[u] == s;
    assert u < q - 1 ==> slots[u].column + s.cell.colspan <= slots[q - 1].column;
    assert u > q ==> slots[q].column < slots[u].column;
  }

  /** In the table without row `i`, the merged slots start exactly at their columns. */
  lemma {:induction false} MergedStarts(rows: seq<Row>, i: nat, occ: Occupied, q: nat)
    requires Deletable(rows, i) && q < |Merged(rows, i)|
    requires forall x: nat :: !Taken(occ, i, x)
    ensures Start(Cells(Merged(rows, i)), i, occ, q) == Merged(rows, i)[q].column
  {
    hide Tight, Merged, Placing, Start;
    MergedContiguous(rows, i, q);
    StartIsFirstFree(Cells(Merged(rows, i)), i, occ, q);
    assert !Taken(occ, i, Merged(rows, i)[q].column);
    if q > 0 {
      MergedStarts(rows, i, occ, q - 1);
    }
  }

  /** The table after carrying and deleting row `i`. */
  ghost function Repaired(rows: seq<Row>, i: nat): seq<Row>
    requires i < |rows|
  {
    WithoutRow(Carry(rows, i), i)
  }

  lemma RepairedRows(rows: seq<Row>, i: nat)
    requires Deletable(rows, i)
    ensures var d := Repaired(rows, i);
            |d| == |rows| - 1 && d[i] == Cells(Merged(rows, i)) &&
            (forall r :: 0 <= r < i ==> d[r] == rows[r]) &&
            (forall r :: i < r < |d| ==> d[r] == rows[r + 1])
  {
    hide Tight, Merged, Carry;
    CarryMerges(rows, i);
  }

  /** Nothing above reaches row `i`, so the merged row starts from an empty row. */
  lemma RepairedRowEmpty(rows: seq<Row>, i: nat, k: nat, x: nat)
    requires Deletable(rows, i) && |Repaired(rows, i)| > i && k >= i
    ensures !Taken(Before(Repaired(rows, i), map[], i), k, x)
  {
    hide Tight, Merged, Carry, After;
    RepairedRows(rows, i);
    var d := Repaired(rows, i);
    AfterAgree(d, rows, i);
    BeforeTaken(d, i, k, x);
  }

  /** The merged row starts its cells at the columns of their slots. */
  lemma RepairedStarts(rows: seq<Row>, i: nat, q: nat)
    requires Deletable(rows, i) && q < |Merged(rows, i)| && |Repaired(rows, i)| > i
    requires Repaired(rows, i)[i] == Cells(Merged(rows, i))
    ensures ColumnOf(Repaired(rows, i), i, q) == Merged(rows, i)[q].column
  {
    hide Tight, Merged, Repaired, Before, Start;
    var d := Repaired(rows, i);
    forall x: nat ensures !Taken(Before(d, map[], i), i, x) {
      RepairedRowEmpty(rows, i, i, x);
    }
    MergedStarts(rows, i, Before(d, map[], i), q);
  }

  /** Below the merged row, the repaired table occupies what the original occupied one row further down. */
  lemma RepairedShifted(rows: seq<Row>, i: nat)
    requires Deletable(rows, i) && |Repaired(rows, i)| > i
    requires Repaired(rows, i)[i] == Cells(Merged(rows, i))
    ensures Shifted(After(rows, map[], i + 2), After(Repaired(rows, i), map[], i + 1), 1, i + 1)
  {
    hide Tight, Merged, Repaired, Before, Start, Carried, Placing, After;
    var d, slots := Repaired(rows, i), Merged(rows, i);
    var cells, occ := Cells(slots), Before(d, map[], i);
    var a, b := After(rows, map[], i + 2), After(d, map[], i + 1);
    forall k: nat, x: nat | k >= i + 1 ensures Taken(b, k, x) <==> Taken(a, k + 1, x) {
      AfterIsPlacing(d, i);
      PlacingTaken(cells, i, occ, |cells|, k, x);
      RepairedRowEmpty(rows, i, k, x);
      BelowTaken(rows, i, k + 1, x);
      MergedCover(rows, i, occ, k, x);
    }
  }

  lemma MergedCover(rows: seq<Row>, i: nat, occ: Occupied, k: nat, x: nat)
    requires Deletable(rows, i) && occ == Before(Repaired(rows, i), map[], i)
    requires |Repaired(rows, i)| > i && Repaired(rows, i)[i] == Cells(Merged(rows, i))
    ensures CoveredBy(Cells(Merged(rows, i)), i, occ, |Merged(rows, i)|, k, x) <==>
            (exists s :: s in Carried(rows, i, |rows[i]|) && Covers(s.cell, i, s.column, k, x)) ||
            (exists s :: s in OwnSlots(rows, i + 1) && Covers(s.cell, i, s.column, k, x))
  {
    hide Tight, Merged, Repaired, Before, Start, Carried;
    var slots := Merged(rows, i);
    var cells := Cells(slots);
    if CoveredBy(cells, i, occ, |slots|, k, x) {
      var q :| 0 <= q < |slots| && Covers(cells[q], i, Start(cells, i, occ, q), k, x);
      RepairedStarts(rows, i, q);
      MergedMembers(rows, i, slots[q]);
    }
    if s :| (s in Carried(rows, i, |rows[i]|) || s in OwnSlots(rows, i + 1)) && Covers(s.cell, i, s.column, k, x) {
      MergedMembers(rows, i, s);
      var q :| 0 <= q < |slots| && slots[q] == s;
      RepairedStarts(rows, i, q);
      assert Covers(cells[q], i, Start(cells, i, occ, q), k, x);
    }
  }

  /** Row `r` has `cell` starting at `column`. */
  ghost predicate Shows(rows: seq<Row>, r: nat, column: nat, cell: Cell)
    requires r < |rows|
  {
    exists q :: 0 <= q < |rows[r]| && rows[r][q] == cell && ColumnOf(rows, r, q) == column
  }

  lemma MergedShows(rows: seq<Row>, i: nat, s: Slot)
    requires Deletable(rows, i) && |Repaired(rows, i)| > i
    requires Repaired(rows, i)[i] == Cells(Merged(rows, i))
    requires s in OwnSlots(rows, i + 1) || s in Carried(rows, i, |rows[i]|)
    ensures Shows(Repaired(rows, i), i, s.column, s.cell)
  {
    hide Tight, Merged, Repaired, Carried, ColumnOf;
    MergedMembers(rows, i, s);
    var slots := Merged(rows, i);
    var q :| 0 <= q < |slots| && slots[q] == s;
    RepairedStarts(rows, i, q);
    assert Cells(slots)[q] == s.cell;
  }

  lemma RepairedColumns(rows: seq<Row>, i: nat, r: nat, j: nat)
    requires Deletable(rows, i) && |Repaired(rows, i)| == |rows| - 1
    requires forall r' :: i < r' < |Repaired(rows, i)| ==> Repaired(rows, i)[r'] == rows[r' + 1]
    requires Repaired(rows, i)[i] == Cells(Merged(rows, i))
    requires i < r < |Repaired(rows, i)| && j < |rows[r + 1]|
    ensures ColumnOf(Repaired(rows, i), r, j) == ColumnOf(rows, r + 1, j)
  {
    hide Tight, Merged, Repaired, Before, After, Start, Shifted;
    var d := Repaired(rows, i);
    RepairedShifted(rows, i);
    RunShift(rows, map[], d, map[], 1, i + 1, r);
    StartShift(d[r], r, Before(rows, map[], 1 + r), Before(d, map[], r), 1, i + 1, j);
  }

  lemma RepairedTail(rows: seq<Row>, i: nat)
    requires Deletable(rows, i) && |Repaired(rows, i)| == |rows| - 1
    requires forall r :: i < r < |Repaired(rows, i)| ==> Repaired(rows, i)[r] == rows[r + 1]
    requires Repaired(rows, i)[i] == Cells(Merged(rows, i))
    ensures var d := Repaired(rows, i);
            Tail(After(d, map[], |d|), |d|) == Tail(After(rows, map[], |rows|), |rows|)
  {
    hide Tight, Merged, Repaired, After, Before, Shifted, Tail;
    var d := Repaired(rows, i);
    RepairedShifted(rows, i);
    RunShift(rows, map[], d, map[], 1, i + 1, |d|);
    TailOfShifted(After(rows, map[], |rows|), After(d, map[], |d|), 1, i + 1, |d|);
  }

  /**
   Deleting a blank row keeps the grid.  Rows further down keep their cells and every cell its column; the
   next row keeps its cells at their columns and gains one cell for each rowspan of the deleted row, at the
   column it had and one row shorter; and the table leaves the same occupancy for the next page.
   */
  ghost predicate KeepsGrid(rows: seq<Row>, i: nat, d: seq<Row>)
    requires i + 1 < |rows|
  {
    && |d| == |rows| - 1
    && |d[i]| == |rows[i + 1]| + |Carried(rows, i, |rows[i]|)|
    && (forall s :: s in OwnSlots(rows, i + 1) ==> Shows(d, i, s.column, s.cell))
    && (forall m :: 0 <= m < |rows[i]| && rows[i][m].rowspan > 1 ==>
         Shows(d, i, ColumnOf(rows, i, m), Shortened(rows[i][m])))
    && (forall r :: 0 <= r < i ==> d[r] == rows[r])
    && (forall r :: i < r < |d| ==> d[r] == rows[r + 1])
    && (forall r, j :: i < r < |d| && 0 <= j < |d[r]| ==> ColumnOf(d, r, j) == ColumnOf(rows, r + 1, j))
    && Tail(After(d, map[], |d|), |d|) == Tail(After(rows, map[], |rows|), |rows|)
  }

  lemma {:induction false} RowDeletionKeepsGrid(rows: seq<Row>, i: nat)
    requires Deletable(rows, i)
    ensures KeepsGrid(rows, i, WithoutRow(Carry(rows, i), i))
  {
    hide Tight, Merged, Repaired, Carried, ColumnOf, After, Tail, Shows;
    var d := Repaired(rows, i);
    assert d == WithoutRow(Carry(rows, i), i) by { RepairedIs(rows, i); }
    RepairedRows(rows, i);
    MergedSize(rows, i);
    forall s | s in OwnSlots(rows, i + 1) ensures Shows(d, i, s.column, s.cell) {
      MergedShows(rows, i, s);
    }
    forall m | 0 <= m < |rows[i]| && rows[i][m].rowspan > 1
      ensures Shows(d, i, ColumnOf(rows, i, m), Shortened(rows[i][m]))
    {
      CarriedOf(rows, i, |rows[i]|, m);
      MergedShows(rows, i, Slot(ColumnOf(rows, i, m), Shortened(rows[i][m])));
    }
    forall r, j | i < r < |d| && 0 <= j < |d[r]| ensures ColumnOf(d, r, j) == ColumnOf(rows, r + 1, j) {
      RepairedColumns(rows, i, r, j);
    }
    RepairedTail(rows, i);
  }

  // ---------------------------------------------------------------- a table that continues another page

  /** The column of a cell when the previous page has left `initial` occupied. */
  ghost function ColumnFrom(rows: seq<Row>, initial: Occupied, r: nat, j: nat): nat
    requires r < |rows| && j < |rows[r]|
  {
    Start(rows[r], r, Before(rows, initial, r), j)
  }

  lemma {:induction false} TakenStays(rows: seq<Row>, n: nat, m: nat, k: nat, x: nat)
    requires n <= m <= |rows| && Taken(After(rows, map[], n), k, x)
    ensures Taken(After(rows, map[], m), k, x)
    decreases m
  {
    hide Placing;
    if n < m {
      TakenStays(rows, n, m - 1, k, x);
      PlacingTaken(rows[m - 1], m - 1, Before(rows, map[], m - 1), |rows[m - 1]|, k, x);
    }
  }

  /** If nothing from above is taken in row `i`, no cell above reaches it. */
  lemma DeletableCloses(rows: seq<Row>, i: nat)
    requires Deletable(rows, i)
    ensures HeaderClosed(rows, i)
  {
    hide Placing, Start, Tight;
    forall r, j | 0 <= r < i && 0 <= j < |rows[r]| ensures r + rows[r][j].rowspan <= i {
      var k, x := r + rows[r][j].rowspan - 1, ColumnOf(rows, r, j);
      AfterIsPlacing(rows, r);
      PlacingTaken(rows[r], r, Before(rows, map[], r), |rows[r]|, k, x);
      assert Covers(rows[r][j], r, x, k, x);
      TakenStays(rows, r + 1, i, k, x);
    }
  }

  lemma FreeShifted(rows: seq<Row>, initial: Occupied, i: nat)
    requires i < |rows| && HeaderClosed(rows, i) && LeavesFree(initial, i)
    ensures Shifted(After(rows, map[], i), After(rows, initial, i), 0, i)
  {
    hide After, HeaderClosed, LeavesFree;
    assert LeavesFree(map[], i) by { NothingLeft(i); }
    forall k: nat, x: nat | k >= i
      ensures !Taken(After(rows, map[], i), k, x) && !Taken(After(rows, initial, i), k, x)
    {
      HeaderStops(rows, map[], i, i, k, x);
      HeaderStops(rows, initial, i, i, k, x);
    }
  }

  lemma NothingLeft(i: nat)
    ensures LeavesFree(map[], i)
  {
  }

  /** If the previous page leaves row `i` and the rows below it free, it moves no cell there. */
  lemma TailMovesNoCell(rows: seq<Row>, initial: Occupied, i: nat, r: nat, j: nat)
    requires i <= r < |rows| && j < |rows[r]| && HeaderClosed(rows, i) && LeavesFree(initial, i)
    ensures ColumnFrom(rows, initial, r, j) == ColumnOf(rows, r, j)
  {
    hide Start, Before, HeaderClosed, After, Shifted, LeavesFree;
    FreeShifted(rows, initial, i);
    RunShift(rows, map[], rows, initial, 0, i, r);
    StartShift(rows[r], r, Before(rows, map[], r), Before(rows, initial, r), 0, i, j);
  }

  lemma TailKept(rows: seq<Row>, initial: Occupied, i: nat)
    requires i < |rows| && HeaderClosed(rows, i) && LeavesFree(initial, i)
    ensures Tail(After(rows, initial, |rows|), |rows|) == Tail(After(rows, map[], |rows|), |rows|)
  {
    hide Before, HeaderClosed, After, Shifted, LeavesFree, Tail;
    FreeShifted(rows, initial, i);
    RunShift(rows, map[], rows, initial, 0, i, |rows|);
    TailOfShifted(After(rows, map[], |rows|), After(rows, initial, |rows|), 0, i, |rows|);
  }

  lemma TailMovesNothing(rows: seq<Row>, initial: Occupied, i: nat)
    requires i < |rows| && HeaderClosed(rows, i) && LeavesFree(initial, i)
    ensures forall r, j :: i <= r < |rows| && 0 <= j < |rows[r]| ==>
        ColumnFrom(rows, initial, r, j) == ColumnOf(rows, r, j)
    ensures Tail(After(rows, initial, |rows|), |rows|) == Tail(After(rows, map[], |rows|), |rows|)
  {
    hide HeaderClosed, After, LeavesFree, Tail, ColumnFrom, ColumnOf;
    forall r, j | i <= r < |rows| && 0 <= j < |rows[r]|
      ensures ColumnFrom(rows, initial, r, j) == ColumnOf(rows, r, j)
    {
      TailMovesNoCell(rows, initial, i, r, j);
    }
    TailKept(rows, initial, i);
  }

  lemma {:induction false} SameAbove(a: seq<Row>, b: seq<Row>, initial: Occupied, n: nat)
    requires n <= |a| && n <= |b| && forall r :: 0 <= r < n ==> a[r] == b[r]
    ensures After(a, initial, n) == After(b, initial, n)
    decreases n
  {
    hide Placing;
    if n > 0 {
      SameAbove(a, b, initial, n - 1);
    }
  }

  /**
   So in a table that continues a previous page the deletion keeps the grid as well, if that page leaves the blank
   row and the rows below it free: above, at and below the row no cell stands elsewhere than without that page, and
   the occupancy left for the next page is the same.
   */
  lemma DeletionUnderTail(rows: seq<Row>, initial: Occupied, i: nat)
    requires Deletable(rows, i) && LeavesFree(initial, i)
    ensures var d := WithoutRow(Carry(rows, i), i);
            && KeepsGrid(rows, i, d)
            && (forall r, j :: i <= r < |rows| && 0 <= j < |rows[r]| ==>
                 ColumnFrom(rows, initial, r, j) == ColumnOf(rows, r, j))
            && (forall r, j :: i <= r < |d| && 0 <= j < |d[r]| ==> ColumnFrom(d, initial, r, j) == ColumnOf(d, r, j))
            && (forall r, j :: 0 <= r < i && 0 <= j < |d[r]| ==>
                 ColumnFrom(d, initial, r, j) == ColumnFrom(rows, initial, r, j))
            && Tail(After(d, initial, |d|), |d|) == Tail(After(rows, initial, |rows|), |rows|)
  {
    hide Deletable, Carry, LeavesFree, ColumnOf, ColumnFrom, Tail, After, Shows, Carried, HeaderClosed;
    RowsOfDeletable(rows, i);
    var d := WithoutRow(Carry(rows, i), i);
    RowDeletionKeepsGrid(rows, i);
    DeletableCloses(rows, i);
    TailMovesNothing(rows, initial, i);
    ClosedAfterDeletion(rows, d, i);
    TailMovesNothing(d, initial, i);
    forall r, j | 0 <= r < i && 0 <= j < |d[r]|
      ensures ColumnFrom(d, initial, r, j) == ColumnFrom(rows, initial, r, j)
    {
      SameColumnAbove(d, rows, initial, r, j);
    }
  }

  lemma RowsOfDeletable(rows: seq<Row>, i: nat)
    requires Deletable(rows, i)
    ensures i + 1 < |rows| && |Carry(rows, i)| == |rows|
  {
    hide Tight, Merged, Carry;
    CarryMerges(rows, i);
  }

  lemma ClosedAfterDeletion(rows: seq<Row>, d: seq<Row>, i: nat)
    requires i < |rows| && i < |d| && HeaderClosed(rows, i) && forall r :: 0 <= r < i ==> d[r] == rows[r]
    ensures HeaderClosed(d, i)
  {
  }

  lemma SameColumnAbove(a: seq<Row>, b: seq<Row>, initial: Occupied, r: nat, j: nat)
    requires r < |a| && r < |b| && (forall k :: 0 <= k <= r ==> a[k] == b[k]) && j < |a[r]|
    ensures ColumnFrom(a, initial, r, j) == ColumnFrom(b, initial, r, j)
  {
    hide Start, After;
    SameAbove(a, b, initial, r);
  }

  /**
   Where the page before does leave something, the deletion moves cells: with a blank first row of single cells,
   the first cell of the next row keeps its column exactly if that page leaves both rows the same first column.
   */
  lemma TailMovesFirstCell(rows: seq<Row>, initial: Occupied)
    requires |rows| > 1 && rows[1] != [] && forall j :: 0 <= j < |rows[0]| ==> rows[0][j].rowspan == 1
    ensures ColumnFrom(WithoutRow(rows, 0), initial, 0, 0) == ColumnFrom(rows, initial, 1, 0) <==>
            FirstFree(initial, 0, 0) == FirstFree(initial, 1, 0)
  {
    var d := WithoutRow(rows, 0);
    assert d[0] == rows[1];
    StartIsFirstFree(d[0], 0, Before(d, initial, 0), 0);
    StartIsFirstFree(rows[1], 1, Before(rows, initial, 1), 0);
    FirstFreeSame(Before(d, initial, 0), initial, 0);
    forall x: nat ensures Taken(Before(rows, initial, 1), 1, x) <==> Taken(initial, 1, x) {
      PlacingTaken(rows[0], 0, Before(rows, initial, 0), |rows[0]|, 1, x);
    }
    FirstFreeSame(Before(rows, initial, 1), initial, 1);
  }

  lemma FirstFreeSame(a: Occupied, b: Occupied, row: nat)
    requires forall x: nat :: Taken(a, row, x) <==> Taken(b, row, x)
    ensures FirstFree(a, row, 0) == FirstFree(b, row, 0)
  {
    FirstFreeIsUnique(a, row, 0, FirstFree(b, row, 0));
  }

  lemma RepairedIs(rows: seq<Row>, i: nat)
    requires i + 1 < |rows|
    ensures Repaired(rows, i) == WithoutRow(Carry(rows, i), i)
  {
    hide Carry;
  }

  lemma MergedSize(rows: seq<Row>, i: nat)
    requires Deletable(rows, i)
    ensures |Merged(rows, i)| == |rows[i + 1]| + |Carried(rows, i, |rows[i]|)|
  {
    hide Tight, Mergeable, Carried;
    CarriedFits(rows, i);
  }
}
