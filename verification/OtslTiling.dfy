/**
 The OTSL round trip: a grid tiled by rectangles, written as tokens, decodes to exactly those rectangles.
 */
module OtslTiling {
  import opened Wrappers
  import opened Otsl
  import opened OtslReading

  /** A rectangle with its text; one without text may be written as an empty cell. */
  datatype Rect = Rect(top: nat, left: nat, height: nat, width: nat, text: string, asEmpty: bool)

  predicate Inside(q: Rect, r: nat, c: nat) {
    q.top <= r < q.top + q.height && q.left <= c < q.left + q.width
  }

  predicate IsCorner(q: Rect, r: nat, c: nat) {
    r == q.top && c == q.left
  }

  /** Each position of a grid of `height` rows and `width` columns lies in exactly one rectangle, `own[r][c]`. */
  ghost predicate Tiling(own: seq<seq<Rect>>, height: nat, width: nat) {
    && height > 0 && width > 0
    && |own| == height && (forall r :: 0 <= r < height ==> |own[r]| == width)
    && (forall r, c :: 0 <= r < height && 0 <= c < width ==>
         var q := own[r][c];
         Inside(q, r, c) && q.top + q.height <= height && q.left + q.width <= width && Trimmed(q.text) &&
         (q.asEmpty ==> q.text == ""))
    && (forall r, c, r', c' :: 0 <= r < height && 0 <= c < width && 0 <= r' < height && 0 <= c' < width ==>
         Inside(own[r][c], r', c') ==> own[r'][c'] == own[r][c])
  }

  // ---------------------------------------------------------------- writing

  /** A cell token at the corner, `lcel` along the top edge, `ucel` down the left edge, `xcel` inside. */
  function TokenAt(q: Rect, r: nat, c: nat): Token {
    if IsCorner(q, r, c) then if q.asEmpty then Ecel else Fcel
    else if r == q.top then Lcel
    else if c == q.left then Ucel
    else Xcel
  }

  function ItemAt(q: Rect, r: nat, c: nat): Item {
    Item(TokenAt(q, r, c), if IsCorner(q, r, c) then q.text else "")
  }

  /** The tokens of the rows before `r` and of the first `c` positions of row `r`. */
  ghost function Emit(own: seq<seq<Rect>>, width: nat, r: nat, c: nat): seq<Item>
    requires r < |own| && forall i :: 0 <= i < |own| ==> |own[i]| == width
    requires c <= width
    decreases r, c
  {
    if c > 0 then Emit(own, width, r, c - 1) + [ItemAt(own[r][c - 1], r, c - 1)]
    else if r > 0 then Emit(own, width, r - 1, width) + [Item(Nl, "")]
    else []
  }

  // ---------------------------------------------------------------- what decoding has built half-way

  /** How far the top edge of `q` has been read before position (r, c). */
  function ColumnsRead(q: Rect, r: nat, c: nat): nat {
    if q.top < r then q.width
    else if q.top > r || c <= q.left then 0
    else if c - q.left < q.width then c - q.left else q.width
  }

  function RowsRead(q: Rect, r: nat, c: nat): nat {
    if q.top + q.height <= r then q.height
    else (if r >= q.top then r - q.top else 0) + if r >= q.top && q.left < c then 1 else 0
  }

  function CellAt(q: Rect, r: nat, c: nat, r': nat, c': nat): Cell {
    if IsCorner(q, r', c') then Cell(q.text, ColumnsRead(q, r, c), RowsRead(q, r, c), false, None)
    else HiddenCell(Some((q.top, q.left)))
  }

  /** The decoder's rows just before position (r, c). */
  ghost function Grid(own: seq<seq<Rect>>, width: nat, r: nat, c: nat): (rows: Rows)
    requires r < |own| && forall i :: 0 <= i < |own| ==> |own[i]| == width
    requires c <= width
    ensures |rows| == r + 1
    ensures forall i :: 0 <= i <= r ==> |rows[i]| == if i < r then width else c
    ensures forall i, j :: 0 <= i <= r && 0 <= j < |rows[i]| ==> rows[i][j] == CellAt(own[i][j], r, c, i, j)
  {
    seq(r + 1, i requires 0 <= i <= r =>
      var n := if i < r then width else c;
      seq(n, j requires 0 <= j < n => CellAt(own[i][j], r, c, i, j)))
  }

  /** Once the grid is read, every rectangle shows its full spans. */
  lemma GridComplete(own: seq<seq<Rect>>, height: nat, width: nat, i: nat, j: nat)
    requires Tiling(own, height, width) && i < height && j < width
    ensures var q := own[i][j];
            Grid(own, width, height - 1, width)[i][j] ==
            if IsCorner(q, i, j) then Cell(q.text, q.width, q.height, false, None)
            else HiddenCell(Some((q.top, q.left)))
  {
  }

  lemma GridNewRow(own: seq<seq<Rect>>, height: nat, width: nat, r: nat)
    requires Tiling(own, height, width) && r + 1 < height
    ensures Grid(own, width, r, width) + [[]] == Grid(own, width, r + 1, 0)
  {
    var a, b := Grid(own, width, r, width) + [[]], Grid(own, width, r + 1, 0);
    forall i | 0 <= i <= r + 1 ensures a[i] == b[i] {
      if i <= r {
        forall j | 0 <= j < width ensures a[i][j] == b[i][j] {
          assert Inside(own[i][j], i, j);
        }
      }
    }
  }

  /** Reading one more position lengthens only the edges of the rectangle it lies in. */
  lemma SpansGrow(q: Rect, r: nat, c: nat)
    requires q.height > 0 && q.width > 0
    ensures ColumnsRead(q, r, c + 1) == ColumnsRead(q, r, c) + if r == q.top && Inside(q, r, c) then 1 else 0
    ensures RowsRead(q, r, c + 1) == RowsRead(q, r, c) + if c == q.left && Inside(q, r, c) then 1 else 0
  {
  }

  /** The cell at (i, j) after position (r, c) has been read, given how it looked before. */
  lemma CellGrows(own: seq<seq<Rect>>, height: nat, width: nat, r: nat, c: nat, i: nat, j: nat)
    requires Tiling(own, height, width) && r < height && c < width && i < height && j < width
    ensures var q, before, after := own[i][j], CellAt(own[i][j], r, c, i, j), CellAt(own[i][j], r, c + 1, i, j);
            if IsCorner(q, i, j) && own[r][c] == q && r == q.top then
              after == before.(colspan := before.colspan + 1, rowspan := before.rowspan + if c == q.left then 1 else 0)
            else if IsCorner(q, i, j) && own[r][c] == q && c == q.left then
              after == before.(rowspan := before.rowspan + 1)
            else after == before
  {
    assert Inside(own[i][j], i, j) && Inside(own[r][c], r, c);
    SpansGrow(own[i][j], r, c);
    assert Inside(own[i][j], r, c) ==> own[r][c] == own[i][j];
  }

  lemma LeftNeighbour(own: seq<seq<Rect>>, height: nat, width: nat, r: nat, c: nat)
    requires Tiling(own, height, width) && r < height && c < width && c > own[r][c].left
    ensures own[r][c - 1] == own[r][c]
    ensures LeftOwner(Grid(own, width, r, c)) == Some((own[r][c].top, own[r][c].left))
  {
    assert Inside(own[r][c], r, c - 1);
    LeftOwnerIs(own, width, r, c);
  }

  lemma LeftOwnerIs(own: seq<seq<Rect>>, width: nat, r: nat, c: nat)
    requires r < |own| && (forall i :: 0 <= i < |own| ==> |own[i]| == width) && 0 < c < width
    ensures var q := own[r][c - 1];
            LeftOwner(Grid(own, width, r, c)) == Some(if IsCorner(q, r, c - 1) then (r, c - 1) else (q.top, q.left))
  {
    assert Grid(own, width, r, c)[r][c - 1] == CellAt(own[r][c - 1], r, c, r, c - 1);
  }

  lemma UpNeighbour(own: seq<seq<Rect>>, height: nat, width: nat, r: nat, c: nat)
    requires Tiling(own, height, width) && r < height && c < width && r > own[r][c].top
    ensures own[r - 1][c] == own[r][c]
    ensures UpOwner(Grid(own, width, r, c)) == Some((own[r][c].top, own[r][c].left))
  {
    assert Inside(own[r][c], r - 1, c);
    assert Grid(own, width, r, c)[r - 1][c] == CellAt(own[r - 1][c], r, c, r - 1, c);
  }

  /** The corner of the rectangle at (r, c) comes first in reading order and is that rectangle's own position. */
  lemma CornerRead(own: seq<seq<Rect>>, height: nat, width: nat, r: nat, c: nat)
    requires Tiling(own, height, width) && r < height && c < width && !IsCorner(own[r][c], r, c)
    ensures var q := own[r][c];
            own[q.top][q.left] == q && (q.top < r || (q.top == r && q.left < c)) &&
            InRows(Grid(own, width, r, c), (q.top, q.left))
  {
    var q := own[r][c];
    assert Inside(q, r, c) && Inside(q, q.top, q.left);
  }

  ghost predicate SameRows(a: Rows, b: Rows) {
    |a| == |b| && (forall i :: 0 <= i < |a| ==> |a[i]| == |b[i]|) &&
    forall i, j :: 0 <= i < |a| && 0 <= j < |a[i]| ==> a[i][j] == b[i][j]
  }

  lemma SameRowsEqual(a: Rows, b: Rows)
    requires SameRows(a, b)
    ensures a == b
  {
    forall i | 0 <= i < |a| ensures a[i] == b[i] {
    }
  }

  /** The rows that reading position (r, c) produces, whatever the token. */
  ghost function Read(own: seq<seq<Rect>>, width: nat, r: nat, c: nat): Rows
    requires r < |own| && forall i :: 0 <= i < |own| ==> |own[i]| == width
    requires c < width && Good(State(Grid(own, width, r, c), None))
  {
    var item := ItemAt(own[r][c], r, c);
    TakeTokenGood(State(Grid(own, width, r, c), None), item.token);
    TakeText(TakeToken(State(Grid(own, width, r, c), None), item.token), item.text).rows
  }

  lemma TrimEmpty()
    ensures Trim("") == ""
  {
  }

  lemma TrimmedStays(text: string)
    requires Trimmed(text)
    ensures Trim(text) == text
  {
    hide Trim;
    TrimTakesEnds("", text, "");
    assert "" + text + "" == text;
  }

  lemma ReadCorner(own: seq<seq<Rect>>, height: nat, width: nat, r: nat, c: nat)
    requires Tiling(own, height, width) && r < height && c < width && IsCorner(own[r][c], r, c)
    requires Good(State(Grid(own, width, r, c), None))
    ensures Read(own, width, r, c) == Grid(own, width, r, c + 1)
  {
    hide Good, Trim, Grid;
    var q, g := own[r][c], Grid(own, width, r, c);
    var read, goal := Read(own, width, r, c), Grid(own, width, r, c + 1);
    TrimmedStays(q.text);
    assert Inside(q, r, c);
    CornerRows(g, q.text);
    if q.asEmpty {
      TrimEmpty();
      assert read == Push(g, NewCell(""));
    }
    assert read == g[r := g[r] + [Cell(q.text, 1, 1, false, None)]];
    forall i, j | 0 <= i <= r && 0 <= j < |goal[i]| ensures read[i][j] == goal[i][j] {
      CellGrows(own, height, width, r, c, i, j);
    }
    SameRowsEqual(read, goal);
  }

  lemma CornerRows(g: Rows, text: string)
    requires g != []
    ensures var r, c := |g| - 1, |g[|g| - 1]|;
            PushText(Push(g, NewCell("")), (r, c), text) == g[r := g[r] + [Cell(text, 1, 1, false, None)]]
  {
    var r := |g| - 1;
    var row := g[r] + [NewCell("")];
    assert "" + text == text;
    assert row[|g[r]| := Cell(text, 1, 1, false, None)] == g[r] + [Cell(text, 1, 1, false, None)];
  }

  /** What reading a hidden position does: its rectangle's corner gets longer along an edge, or stays. */
  lemma ReadHiddenRows(own: seq<seq<Rect>>, height: nat, width: nat, r: nat, c: nat)
    requires Tiling(own, height, width) && r < height && c < width && !IsCorner(own[r][c], r, c)
    requires Good(State(Grid(own, width, r, c), None))
    requires InRows(Grid(own, width, r, c), (own[r][c].top, own[r][c].left))
    ensures var q, g := own[r][c], Grid(own, width, r, c);
            var corner := (q.top, q.left);
            Read(own, width, r, c) ==
            Push(if r == q.top then ExtendColspan(g, corner) else if c == q.left then ExtendRowspan(g, corner) else g,
                 HiddenCell(Some(corner)))
  {
    hide Good, Trim, Grid;
    var q := own[r][c];
    TrimEmpty();
    assert Inside(q, r, c);
    if r > q.top {
      UpNeighbour(own, height, width, r, c);
    }
    if c > q.left {
      LeftNeighbour(own, height, width, r, c);
    }
  }

  lemma ReadHidden(own: seq<seq<Rect>>, height: nat, width: nat, r: nat, c: nat)
    requires Tiling(own, height, width) && r < height && c < width && !IsCorner(own[r][c], r, c)
    requires Good(State(Grid(own, width, r, c), None))
    ensures Read(own, width, r, c) == Grid(own, width, r, c + 1)
  {
    hide Good, Grid, Read;
    var q, g := own[r][c], Grid(own, width, r, c);
    var read, goal := Read(own, width, r, c), Grid(own, width, r, c + 1);
    CornerRead(own, height, width, r, c);
    ReadHiddenRows(own, height, width, r, c);
    assert Inside(q, r, c);
    forall i, j | 0 <= i <= r && 0 <= j < |goal[i]| ensures read[i][j] == goal[i][j] {
      CellGrows(own, height, width, r, c, i, j);
      OnlyCorner(own, height, width, r, c, i, j);
    }
    SameRowsEqual(read, goal);
  }

  /** The only corner of the rectangle at (r, c) is at its top left. */
  lemma OnlyCorner(own: seq<seq<Rect>>, height: nat, width: nat, r: nat, c: nat, i: nat, j: nat)
    requires Tiling(own, height, width) && r < height && c < width && i < height && j < width
    ensures IsCorner(own[i][j], i, j) && own[i][j] == own[r][c] <==> (i, j) == (own[r][c].top, own[r][c].left)
  {
    assert Inside(own[r][c], r, c);
    assert Inside(own[r][c], own[r][c].top, own[r][c].left);
  }

  // ---------------------------------------------------------------- the round trip

  /** Half-way through the tokens of a tiling the decoder holds exactly the grid read so far. */
  lemma {:induction false} ReadyIsGrid(own: seq<seq<Rect>>, height: nat, width: nat, r: nat, c: nat)
    requires Tiling(own, height, width) && r < height && c <= width
    ensures var items := Emit(own, width, r, c);
            Ready("", items, |items|) == State(Grid(own, width, r, c), None)
    decreases r, c
  {
    hide Trim, Tiling, Read, Grid, Ready, Good, TakeText, TakeToken;
    Shape(own, height, width);
    if c > 0 {
      var before := Emit(own, width, r, c - 1);
      var item := ItemAt(own[r][c - 1], r, c - 1);
      ReadyIsGrid(own, height, width, r, c - 1);
      ReadyStep("", before, item);
      ReadOne(own, height, width, r, c - 1);
      ReadIs(own, width, r, c - 1);
    } else if r > 0 {
      var before := Emit(own, width, r - 1, width);
      ReadyIsGrid(own, height, width, r - 1, width);
      ReadyStep("", before, Item(Nl, ""));
      TakeNewRow(Grid(own, width, r - 1, width));
      GridNewRow(own, height, width, r - 1);
    } else {
      ReadyStart();
      FirstGrid(own, height, width);
    }
  }

  lemma ReadyStep(lead: string, before: seq<Item>, item: Item)
    ensures var s := Ready(lead, before, |before|);
            Good(s) && Good(TakeToken(s, item.token)) &&
            Ready(lead, before + [item], |before| + 1) == TakeText(TakeToken(s, item.token), item.text)
  {
    hide Good, Trim, TakeText, TakeToken;
    ReadyPrefix(lead, before, [item], |before|);
    GoodMeans(Ready(lead, before, |before|));
    TakeTokenGood(Ready(lead, before, |before|), item.token);
  }

  lemma FinishedStep(lead: string, before: seq<Item>, item: Item)
    ensures var s := Ready(lead, before, |before|);
            Good(s) && Good(TakeToken(s, item.token)) &&
            Finished(lead, before + [item]) == TakeLastText(TakeToken(s, item.token), item.text).rows
  {
    hide Good, Trim, TakeText, TakeToken, TakeLastText;
    ReadyPrefix(lead, before, [item], |before|);
    GoodMeans(Ready(lead, before, |before|));
    TakeTokenGood(Ready(lead, before, |before|), item.token);
  }

  lemma ReadyStart()
    ensures Ready("", [], 0) == State([[]], None)
  {
    TrimEmpty();
  }

  lemma TakeNewRow(rows: Rows)
    requires Good(State(rows, None))
    ensures TakeText(TakeToken(State(rows, None), Nl), "") == State(rows + [[]], None)
  {
    hide Trim;
    TrimEmpty();
  }

  lemma Shape(own: seq<seq<Rect>>, height: nat, width: nat)
    requires Tiling(own, height, width)
    ensures height > 0 && width > 0 && |own| == height && forall i :: 0 <= i < |own| ==> |own[i]| == width
  {
  }

  lemma FirstGrid(own: seq<seq<Rect>>, height: nat, width: nat)
    requires Tiling(own, height, width)
    ensures Grid(own, width, 0, 0) == [[]]
  {
    SameRowsEqual(Grid(own, width, 0, 0), [[]]);
  }

  lemma ReadOne(own: seq<seq<Rect>>, height: nat, width: nat, r: nat, c: nat)
    requires Tiling(own, height, width) && r < height && c < width
    requires Good(State(Grid(own, width, r, c), None))
    ensures Read(own, width, r, c) == Grid(own, width, r, c + 1)
  {
    hide Good, Read, Grid, Tiling;
    Shape(own, height, width);
    if IsCorner(own[r][c], r, c) {
      ReadCorner(own, height, width, r, c);
    } else {
      ReadHidden(own, height, width, r, c);
    }
  }

  lemma ReadIs(own: seq<seq<Rect>>, width: nat, r: nat, c: nat)
    requires r < |own| && (forall i :: 0 <= i < |own| ==> |own[i]| == width) && c < width
    requires Good(State(Grid(own, width, r, c), None))
    ensures var item, s := ItemAt(own[r][c], r, c), State(Grid(own, width, r, c), None);
            Good(TakeToken(s, item.token)) &&
            TakeText(TakeToken(s, item.token), item.text) == State(Read(own, width, r, c), None)
  {
    hide Good, Grid, Trim;
    var item, s := ItemAt(own[r][c], r, c), State(Grid(own, width, r, c), None);
    GoodMeans(s);
    TakeTokenGood(s, item.token);
    GoodMeans(TakeToken(s, item.token));
    TakeTextGood(TakeToken(s, item.token), item.text);
  }

  lemma EmitLast(own: seq<seq<Rect>>, width: nat, r: nat, c: nat)
    requires r < |own| && (forall i :: 0 <= i < |own| ==> |own[i]| == width) && c < width
    ensures Emit(own, width, r, c + 1) == Emit(own, width, r, c) + [ItemAt(own[r][c], r, c)]
  {
    hide ItemAt;
  }

  /** After a token of the tiling, the text behind it is treated alike in the middle and at the end. */
  lemma LastItem(own: seq<seq<Rect>>, height: nat, width: nat)
    requires Tiling(own, height, width)
    ensures var items := Emit(own, width, height - 1, width);
            items != [] && Finished("", items) == Grid(own, width, height - 1, width)
  {
    hide Trim, Tiling, Grid, Good, Finished, Ready, TakeText, TakeLastText, TakeToken, Read, Emit, ItemAt;
    Shape(own, height, width);
    var r, c := height - 1, width - 1;
    var before := Emit(own, width, r, c);
    var item := ItemAt(own[r][c], r, c);
    EmitLast(own, width, r, c);
    ReadyIsGrid(own, height, width, r, c);
    FinishedStep("", before, item);
    ReadOne(own, height, width, r, c);
    ReadIs(own, width, r, c);
    LastTextAlike(own, width, r, c);
  }

  lemma LastTextAlike(own: seq<seq<Rect>>, width: nat, r: nat, c: nat)
    requires r < |own| && (forall i :: 0 <= i < |own| ==> |own[i]| == width) && c < width
    requires Good(State(Grid(own, width, r, c), None))
    requires Good(TakeToken(State(Grid(own, width, r, c), None), ItemAt(own[r][c], r, c).token))
    ensures var item := ItemAt(own[r][c], r, c);
            var s := TakeToken(State(Grid(own, width, r, c), None), item.token);
            TakeLastText(s, item.text).rows == TakeText(s, item.text).rows
  {
    hide Trim, Grid;
    TrimEmpty();
  }

  /** The rectangles whose corner lies among the first `n` positions of row `r`, in order, as cells. */
  ghost function Corners(own: seq<seq<Rect>>, r: nat, n: nat): seq<Cell>
    requires r < |own| && n <= |own[r]|
  {
    if n == 0 then []
    else
      var q := own[r][n - 1];
      Corners(own, r, n - 1) + if IsCorner(q, r, n - 1) then [Cell(q.text, q.width, q.height, false, None)] else []
  }

  lemma {:induction false} ShownAreCorners(own: seq<seq<Rect>>, height: nat, width: nat, r: nat, n: nat)
    requires Tiling(own, height, width) && r < height && n <= width
    ensures Shown(Grid(own, width, height - 1, width)[r][..n]) == Corners(own, r, n)
  {
    hide Grid;
    if n > 0 {
      var row := Grid(own, width, height - 1, width)[r];
      ShownAreCorners(own, height, width, r, n - 1);
      assert row[..n][..n - 1] == row[..n - 1];
      GridComplete(own, height, width, r, n - 1);
    }
  }

  lemma {:induction false} NoEmptyRows(rows: Rows)
    requires forall i :: 0 <= i < |rows| ==> rows[i] != []
    ensures DropEmpty(rows) == rows
  {
    if rows != [] {
      NoEmptyRows(rows[..|rows| - 1]);
    }
  }

  /**
   The round trip: for every tiling of a grid by rectangles, decoding its tokens gives back each rectangle
   exactly once, in the row of its corner and in order, with its text and its spans.
   */
  lemma RoundTrip(own: seq<seq<Rect>>, height: nat, width: nat)
    requires Tiling(own, height, width)
    ensures var table := Table("", Emit(own, width, height - 1, width));
            table.Some? && |table.value| == height &&
            forall r :: 0 <= r < height ==> table.value[r] == Corners(own, r, width)
  {
    hide Tiling, Grid, Trim, Finished, Emit, Corners;
    Shape(own, height, width);
    LastItem(own, height, width);
    var rows := Grid(own, width, height - 1, width);
    NoEmptyRows(rows);
    forall r | 0 <= r < height ensures Shown(rows[r]) == Corners(own, r, width) {
      ShownAreCorners(own, height, width, r, width);
      assert rows[r][..width] == rows[r];
    }
  }
}
