/**
 What any stream of OTSL tokens means, without running the decoder: the places it lays out row by row, which cell
 each place belongs to, and how far each cell reaches.
 */
module OtslReading {
  import opened Wrappers
  import opened Otsl

  // ---------------------------------------------------------------- white space

  /** The characters trimmed from the ends of a text, one by one. */
  const WHITE_SPACE: set<char> := {
    '\t', '\n', '\U{B}', '\U{C}', '\r', ' ', '\U{85}', '\U{A0}', '\U{1680}', '\U{2000}', '\U{2001}', '\U{2002}',
    '\U{2003}', '\U{2004}', '\U{2005}', '\U{2006}', '\U{2007}', '\U{2008}', '\U{2009}', '\U{200A}', '\U{2028}',
    '\U{2029}', '\U{202F}', '\U{205F}', '\U{3000}'}

  /** A text that neither begins nor ends with white space. */
  predicate Trimmed(s: string) {
    s != "" ==> s[0] !in WHITE_SPACE && s[|s| - 1] !in WHITE_SPACE
  }

  predicate AllWhite(s: string) {
    forall i :: 0 <= i < |s| ==> s[i] in WHITE_SPACE
  }

  lemma SpaceIsListed(c: char)
    ensures IsSpace(c) <==> c in WHITE_SPACE
  {
    var code := c as int;
    assert c == code as char;
  }

  /** Trimming takes the white space off both ends and nothing else. */
  lemma {:induction false} TrimTakesEnds(a: string, s: string, b: string)
    requires AllWhite(a) && AllWhite(b) && Trimmed(s)
    ensures Trim(a + s + b) == s
  {
    if s == "" {
      assert a + s + b == (a + b) + "" && AllWhite(a + b);
      TrimStartTakes(a + b, "");
    } else {
      assert a + s + b == a + (s + b);
      SpaceIsListed(s[0]);
      TrimStartTakes(a, s + b);
      TrimEndTakes(s, b);
    }
  }

  lemma {:induction false} TrimStartTakes(a: string, s: string)
    requires AllWhite(a) && (s != "" ==> s[0] !in WHITE_SPACE)
    ensures TrimStart(a + s) == s
  {
    if a == "" {
      assert a + s == s;
      if s != "" {
        SpaceIsListed(s[0]);
      }
    } else {
      SpaceIsListed(a[0]);
      assert (a + s)[1..] == a[1..] + s;
      TrimStartTakes(a[1..], s);
    }
  }

  lemma {:induction false} TrimEndTakes(s: string, b: string)
    requires AllWhite(b) && (s != "" ==> s[|s| - 1] !in WHITE_SPACE)
    ensures TrimEnd(s + b) == s
  {
    if b == "" {
      assert s + b == s;
      if s != "" {
        SpaceIsListed(s[|s| - 1]);
      }
    } else {
      var n := |b| - 1;
      SpaceIsListed(b[n]);
      assert (s + b)[..|s + b| - 1] == s + b[..n];
      TrimEndTakes(s, b[..n]);
    }
  }

  // ---------------------------------------------------------------- the places of a stream

  /** A place in a row: it opens a cell, or goes with its neighbour on the left, above, or both. */
  datatype Place = Opens(text: string) | Left | Up | Both

  type Layout = seq<seq<Place>>

  function WithPlace(layout: Layout, place: Place): (more: Layout)
    requires layout != []
    ensures more != []
  {
    layout[|layout| - 1 := layout[|layout| - 1] + [place]]
  }

  /** A row begins with the text before its first token, if there is any. */
  function RowStart(text: string): seq<Place> {
    if Trim(text) == "" then [] else [Opens(Trim(text))]
  }

  /** What one token with the text behind it adds; `last` if no token follows. */
  function Laid(layout: Layout, item: Item, last: bool): (more: Layout)
    requires layout != []
    ensures more != []
  {
    match item.token
    case Nl => layout + [if last then [] else RowStart(item.text)]
    case Fcel => WithPlace(layout, Opens(Trim(item.text)))
    case Ecel => WithPlace(layout, Opens(""))
    case Lcel => WithPlace(layout, Left)
    case Ucel => WithPlace(layout, Up)
    case Xcel => WithPlace(layout, Both)
  }

  /** The places of the first `n` items, more items following. */
  function LaidOut(lead: string, items: seq<Item>, n: nat): (layout: Layout)
    requires n <= |items|
    ensures layout != []
  {
    if n == 0 then [RowStart(lead)] else Laid(LaidOut(lead, items, n - 1), items[n - 1], false)
  }

  function LayoutOf(lead: string, items: seq<Item>): (layout: Layout)
    requires items != []
    ensures layout != []
  {
    Laid(LaidOut(lead, items, |items| - 1), items[|items| - 1], true)
  }

  // ---------------------------------------------------------------- owners and spans

  predicate InLayout(layout: Layout, r: nat, c: nat) {
    r < |layout| && c < |layout[r]|
  }

  function LeftOf(layout: Layout, r: nat, c: nat): Option<Position>
    requires InLayout(layout, r, c)
    decreases r, c, 0
  {
    if c == 0 then None else OwnerOf(layout, r, c - 1)
  }

  function Above(layout: Layout, r: nat, c: nat): Option<Position>
    requires InLayout(layout, r, c)
    decreases r, c, 0
  {
    if r == 0 || c >= |layout[r - 1]| then None else OwnerOf(layout, r - 1, c)
  }

  /** The cell a place belongs to; a place inside goes with the one above before the one on the left. */
  function OwnerOf(layout: Layout, r: nat, c: nat): Option<Position>
    requires InLayout(layout, r, c)
    decreases r, c, 1
  {
    match layout[r][c]
    case Opens(_) => Some((r, c))
    case Left => LeftOf(layout, r, c)
    case Up => Above(layout, r, c)
    case Both => if Above(layout, r, c).Some? then Above(layout, r, c) else LeftOf(layout, r, c)
  }

  /** The place makes the cell at `p` wider: it goes with its left neighbour alone. */
  predicate Widens(layout: Layout, r: nat, c: nat, p: Position)
    requires InLayout(layout, r, c)
  {
    && (layout[r][c].Left? || (layout[r][c].Both? && Above(layout, r, c).None?))
    && LeftOf(layout, r, c) == Some(p)
  }

  predicate Lengthens(layout: Layout, r: nat, c: nat, p: Position)
    requires InLayout(layout, r, c)
  {
    && (layout[r][c].Up? || (layout[r][c].Both? && LeftOf(layout, r, c).None?))
    && Above(layout, r, c) == Some(p)
  }

  /** How many places before (r, c), in reading order, make the cell at `p` wider. */
  function Wider(layout: Layout, p: Position, r: nat, c: nat): nat
    requires r < |layout| && c <= |layout[r]|
    decreases r, c
  {
    if c > 0 then Wider(layout, p, r, c - 1) + (if Widens(layout, r, c - 1, p) then 1 else 0)
    else if r > 0 then Wider(layout, p, r - 1, |layout[r - 1]|)
    else 0
  }

  function Longer(layout: Layout, p: Position, r: nat, c: nat): nat
    requires r < |layout| && c <= |layout[r]|
    decreases r, c
  {
    if c > 0 then Longer(layout, p, r, c - 1) + (if Lengthens(layout, r, c - 1, p) then 1 else 0)
    else if r > 0 then Longer(layout, p, r - 1, |layout[r - 1]|)
    else 0
  }

  /** The cell at a place, all places of the layout counted. */
  function CellOf(layout: Layout, r: nat, c: nat): Cell
    requires InLayout(layout, r, c)
  {
    var last := |layout| - 1;
    match layout[r][c]
    case Opens(text) => Cell(text, 1 + Wider(layout, (r, c), last, |layout[last]|),
                             1 + Longer(layout, (r, c), last, |layout[last]|), false, None)
    case _ => HiddenCell(OwnerOf(layout, r, c))
  }

  /** The rows hold exactly the cells of the layout. */
  ghost predicate Shows(rows: Rows, layout: Layout) {
    && |rows| == |layout| && (forall r :: 0 <= r < |layout| ==> |rows[r]| == |layout[r]|)
    && forall r: nat, c: nat :: InLayout(layout, r, c) ==> rows[r][c] == CellOf(layout, r, c)
  }

  // ---------------------------------------------------------------- one more place

  lemma {:induction false} OwnerStays(a: Layout, b: Layout, r: nat, c: nat)
    requires Extends(a, b) && InLayout(a, r, c)
    ensures InLayout(b, r, c) && OwnerOf(b, r, c) == OwnerOf(a, r, c)
    ensures LeftOf(b, r, c) == LeftOf(a, r, c) && Above(b, r, c) == Above(a, r, c)
    decreases r, c
  {
    if c > 0 {
      OwnerStays(a, b, r, c - 1);
    }
    if r > 0 && c < |a[r - 1]| {
      OwnerStays(a, b, r - 1, c);
    }
  }

  /** `b` is `a` with more places at the end of its last row, or with more rows. */
  ghost predicate Extends(a: Layout, b: Layout) {
    && 0 < |a| <= |b| && (forall r :: 0 <= r < |a| - 1 ==> a[r] == b[r]) && a[|a| - 1] <= b[|a| - 1]
  }

  lemma {:induction false} CountsStay(a: Layout, b: Layout, p: Position, r: nat, c: nat)
    requires Extends(a, b) && r < |a| && c <= |a[r]|
    ensures c <= |b[r]| && Wider(b, p, r, c) == Wider(a, p, r, c) && Longer(b, p, r, c) == Longer(a, p, r, c)
    decreases r, c
  {
    hide OwnerOf, LeftOf, Above;
    if c > 0 {
      OwnerStays(a, b, r, c - 1);
      CountsStay(a, b, p, r, c - 1);
    } else if r > 0 {
      CountsStay(a, b, p, r - 1, |a[r - 1]|);
    }
  }

  /** Nothing reaches a cell before it is opened. */
  lemma {:induction false} OwnerEarlier(layout: Layout, r: nat, c: nat)
    requires InLayout(layout, r, c)
    ensures var owner := OwnerOf(layout, r, c);
            owner.Some? ==> var p := owner.value;
              InLayout(layout, p.0, p.1) && layout[p.0][p.1].Opens? && (p.0 < r || (p.0 == r && p.1 <= c))
    decreases r, c
  {
    if c > 0 {
      OwnerEarlier(layout, r, c - 1);
    }
    if r > 0 && c < |layout[r - 1]| {
      OwnerEarlier(layout, r - 1, c);
    }
  }

  lemma {:induction false} NotYetReached(layout: Layout, p: Position, r: nat, c: nat)
    requires r < |layout| && c <= |layout[r]| && (p.0 > r || (p.0 == r && p.1 >= c))
    ensures Wider(layout, p, r, c) == 0 && Longer(layout, p, r, c) == 0
    decreases r, c
  {
    hide OwnerOf;
    if c > 0 {
      NotYetReached(layout, p, r, c - 1);
      if c > 1 {
        OwnerEarlier(layout, r, c - 2);
      }
      if r > 0 && c - 1 < |layout[r - 1]| {
        OwnerEarlier(layout, r - 1, c - 1);
      }
    } else if r > 0 {
      NotYetReached(layout, p, r - 1, |layout[r - 1]|);
    }
  }

  function Grown(cell: Cell, place: Place, wider: bool, longer: bool): Cell {
    if place.Opens? then
      cell.(colspan := cell.colspan + if wider then 1 else 0, rowspan := cell.rowspan + if longer then 1 else 0)
    else cell
  }

  /** What a further place at the end of the last row does to the cells before it. */
  lemma CellsAfterPlace(layout: Layout, place: Place, r: nat, c: nat)
    requires layout != [] && InLayout(layout, r, c)
    ensures var more := WithPlace(layout, place); var last := |layout| - 1;
            var end := |layout[last]|; var before, after := CellOf(layout, r, c), CellOf(more, r, c);
            && InLayout(more, last, end)
            && after == Grown(before, layout[r][c], Widens(more, last, end, (r, c)),
                              Lengthens(more, last, end, (r, c)))
  {
    hide OwnerOf, LeftOf, Above, Widens, Lengthens;
    var more, last := WithPlace(layout, place), |layout| - 1;
    assert more[last][..|layout[last]|] == layout[last];
    assert Extends(layout, more);
    OwnerStays(layout, more, r, c);
    CountsStay(layout, more, (r, c), last, |layout[last]|);
  }

  /** The new place itself. */
  lemma NewPlace(layout: Layout, place: Place)
    requires layout != []
    ensures var more := WithPlace(layout, place); var last := |layout| - 1; var end := |layout[last]|;
            && InLayout(more, last, end) && more[last][end] == place
            && CellOf(more, last, end) == if place.Opens? then NewCell(place.text)
                                          else HiddenCell(OwnerOf(more, last, end))
  {
    hide OwnerOf, LeftOf, Above;
    var more, last := WithPlace(layout, place), |layout| - 1;
    var end := |layout[last]|;
    if place.Opens? {
      NotYetReached(more, (last, end), last, end);
      assert !Widens(more, last, end, (last, end)) && !Lengthens(more, last, end, (last, end));
    }
  }

  // ---------------------------------------------------------------- the decoder does this

  /** The owners the decoder finds for the place it is about to add are those of the layout. */
  lemma OwnersAgree(rows: Rows, layout: Layout, place: Place)
    requires layout != [] && Shows(rows, layout)
    ensures var more := WithPlace(layout, place); var last := |layout| - 1; var end := |layout[last]|;
            && rows != [] && InLayout(more, last, end)
            && LeftOwner(rows) == LeftOf(more, last, end) && UpOwner(rows) == Above(more, last, end)
  {
    var more, last := WithPlace(layout, place), |layout| - 1;
    var end := |layout[last]|;
    assert more[last][..end] == layout[last];
    assert Extends(layout, more);
    if end > 0 {
      OwnerStays(layout, more, last, end - 1);
      assert rows[last][end - 1] == CellOf(layout, last, end - 1);
    }
    if last > 0 && end < |layout[last - 1]| {
      OwnerStays(layout, more, last - 1, end);
      assert rows[last - 1][end] == CellOf(layout, last - 1, end);
    }
  }

  lemma ShowsPlace(rows: Rows, layout: Layout, after: Rows, place: Place)
    requires layout != [] && Shows(rows, layout)
    requires var more := WithPlace(layout, place); var last := |layout| - 1; var end := |layout[last]|;
             && |after| == |rows| && (forall r :: 0 <= r < last ==> |after[r]| == |rows[r]|)
             && |after[last]| == end + 1
             && after[last][end] == (if place.Opens? then NewCell(place.text) else HiddenCell(OwnerOf(more, last, end)))
             && (forall r: nat, c: nat :: InLayout(layout, r, c) ==>
                  after[r][c] == Grown(rows[r][c], layout[r][c], Widens(more, last, end, (r, c)),
                                       Lengthens(more, last, end, (r, c))))
    ensures Shows(after, WithPlace(layout, place))
  {
    hide OwnerOf, LeftOf, Above, Widens, Lengthens, CellOf;
    var more, last := WithPlace(layout, place), |layout| - 1;
    var end := |layout[last]|;
    NewPlace(layout, place);
    forall r: nat, c: nat | InLayout(more, r, c) ensures after[r][c] == CellOf(more, r, c) {
      if (r, c) != (last, end) {
        assert InLayout(layout, r, c);
        CellsAfterPlace(layout, place, r, c);
      }
    }
  }

  lemma RowsOfLayout(rows: Rows, layout: Layout)
    requires layout != [] && Shows(rows, layout)
    ensures rows != [] && |rows| == |layout| && |rows[|rows| - 1]| == |layout[|layout| - 1]|
  {
  }

  lemma ShowsOpens(rows: Rows, layout: Layout, text: string)
    requires layout != [] && Shows(rows, layout)
    ensures rows != [] && Shows(Push(rows, NewCell(text)), WithPlace(layout, Opens(text)))
  {
    hide OwnerOf, LeftOf, Above, CellOf;
    RowsOfLayout(rows, layout);
    ShowsPlace(rows, layout, Push(rows, NewCell(text)), Opens(text));
  }

  lemma ShowsLeft(rows: Rows, layout: Layout)
    requires layout != [] && Shows(rows, layout) && rows != [] && Sound(rows)
    ensures Shows(ExtendLeft(rows), WithPlace(layout, Left))
  {
    hide OwnerOf, LeftOf, Above, LeftOwner, Sound;
    OwnersAgree(rows, layout, Left);
    OwnersVisible(rows);
    OwnersOpen(rows, layout);
    HiddenIs(layout, Left);
    ShowsPlace(rows, layout, ExtendLeft(rows), Left);
  }

  lemma ShowsUp(rows: Rows, layout: Layout)
    requires layout != [] && Shows(rows, layout) && rows != [] && Sound(rows)
    ensures Shows(ExtendUp(rows), WithPlace(layout, Up))
  {
    hide OwnerOf, LeftOf, Above, UpOwner, Sound;
    OwnersAgree(rows, layout, Up);
    OwnersVisible(rows);
    OwnersOpen(rows, layout);
    HiddenIs(layout, Up);
    ShowsPlace(rows, layout, ExtendUp(rows), Up);
  }

  lemma ShowsBoth(rows: Rows, layout: Layout)
    requires layout != [] && Shows(rows, layout) && rows != [] && Sound(rows)
    ensures Shows(ExtendBoth(rows), WithPlace(layout, Both))
  {
    hide OwnerOf, LeftOf, Above, LeftOwner, UpOwner, Sound;
    OwnersAgree(rows, layout, Both);
    OwnersVisible(rows);
    OwnersOpen(rows, layout);
    HiddenIs(layout, Both);
    ShowsPlace(rows, layout, ExtendBoth(rows), Both);
  }

  /** The owners found are cells the layout opens. */
  lemma OwnersOpen(rows: Rows, layout: Layout)
    requires layout != [] && Shows(rows, layout) && rows != [] && Sound(rows)
    ensures var left, up := LeftOwner(rows), UpOwner(rows);
            && (left.Some? ==>
                 InLayout(layout, left.value.0, left.value.1) && layout[left.value.0][left.value.1].Opens?)
            && (up.Some? ==> InLayout(layout, up.value.0, up.value.1) && layout[up.value.0][up.value.1].Opens?)
  {
    hide OwnerOf, LeftOwner, UpOwner, Sound;
    OwnersVisible(rows);
    forall p: Position | Visible(rows, p) ensures InLayout(layout, p.0, p.1) && layout[p.0][p.1].Opens? {
      assert InLayout(layout, p.0, p.1) && rows[p.0][p.1] == CellOf(layout, p.0, p.1);
    }
  }

  lemma HiddenIs(layout: Layout, place: Place)
    requires layout != [] && !place.Opens?
    ensures var more := WithPlace(layout, place); var last := |layout| - 1; var end := |layout[last]|;
            && InLayout(more, last, end)
            && OwnerOf(more, last, end) ==
               match place
               case Left => LeftOf(more, last, end)
               case Up => Above(more, last, end)
               case _ => if Above(more, last, end).Some? then Above(more, last, end) else LeftOf(more, last, end)
  {
  }

  /** A row that is still empty begins with the text before its first token. */
  lemma ShowsRowStart(rows: Rows, layout: Layout, text: string)
    requires Shows(rows, layout)
    ensures TakeText(State(rows + [[]], None), text).current == None
    ensures Shows(TakeText(State(rows + [[]], None), text).rows, layout + [RowStart(text)])
    ensures Shows(rows + [[]], layout + [[]])
  {
    hide Trim, OwnerOf, CellOf;
    ShowsNewRow(rows, layout);
    if Trim(text) != "" {
      ShowsOpens(rows + [[]], layout + [[]], Trim(text));
      var row: seq<Place> := [];
      assert row + [Opens(Trim(text))] == RowStart(text);
      assert (layout + [[]])[|layout| := RowStart(text)] == layout + [RowStart(text)];
    }
  }

  lemma ShowsNewRow(rows: Rows, layout: Layout)
    requires Shows(rows, layout)
    ensures Shows(rows + [[]], layout + [[]])
  {
    var more := layout + [[]];
    forall r: nat, c: nat | InLayout(more, r, c) ensures (rows + [[]])[r][c] == CellOf(more, r, c) {
      CellsAfterRow(layout, r, c);
    }
  }

  lemma CellsAfterRow(layout: Layout, r: nat, c: nat)
    requires InLayout(layout, r, c)
    ensures CellOf(layout + [[]], r, c) == CellOf(layout, r, c)
  {
    hide OwnerOf;
    var more, last := layout + [[]], |layout| - 1;
    assert Extends(layout, more);
    OwnerStays(layout, more, r, c);
    CountsStay(layout, more, (r, c), last, |layout[last]|);
  }

  /** One token, with the text behind it when another token follows. */
  lemma ShowsItem(rows: Rows, layout: Layout, item: Item)
    requires layout != [] && Shows(rows, layout) && rows != [] && Sound(rows)
    requires Good(TakeToken(State(rows, None), item.token))
    ensures var after := TakeText(TakeToken(State(rows, None), item.token), item.text);
            after.current == None && Shows(after.rows, Laid(layout, item, false))
  {
    hide Trim, Good, Sound, Shows, ExtendLeft, ExtendUp, ExtendBoth, OwnerOf, CellOf;
    GoodMeans(TakeToken(State(rows, None), item.token));
    match item.token
    case Nl => ShowsRowStart(rows, layout, item.text);
    case Fcel =>
      FcelTakes(rows, item.text);
      ShowsOpens(rows, layout, Trim(item.text));
    case Ecel =>
      ShowsOpens(rows, layout, "");
      TextDropped(Push(rows, NewCell("")), layout, Opens(""), item.text);
    case Lcel =>
      ShowsLeft(rows, layout);
      TextDropped(ExtendLeft(rows), layout, Left, item.text);
    case Ucel =>
      ShowsUp(rows, layout);
      TextDropped(ExtendUp(rows), layout, Up, item.text);
    case Xcel =>
      ShowsBoth(rows, layout);
      TextDropped(ExtendBoth(rows), layout, Both, item.text);
  }

  lemma FcelTakes(rows: Rows, text: string)
    requires rows != [] && Sound(rows)
    requires Good(TakeToken(State(rows, None), Fcel))
    ensures var s := TakeToken(State(rows, None), Fcel);
            && (s.current.Some? ==> InRows(s.rows, s.current.value)) && s.rows != []
            && TakeText(s, text) == State(Push(rows, NewCell(Trim(text))), None)
            && TakeLastText(s, text).rows == Push(rows, NewCell(Trim(text)))
  {
    hide Trim, Sound;
    var last := |rows| - 1;
    assert (rows[last] + [NewCell("")])[|rows[last]| := NewCell(Trim(text))] == rows[last] + [NewCell(Trim(text))];
    assert "" + Trim(text) == Trim(text);
  }

  /** Text behind a row that has places already is dropped. */
  lemma TextDropped(rows: Rows, layout: Layout, place: Place, text: string)
    requires layout != [] && Shows(rows, WithPlace(layout, place))
    ensures rows != [] && TakeText(State(rows, None), text) == State(rows, None)
  {
    hide Trim, CellOf;
    RowsOfLayout(rows, WithPlace(layout, place));
  }

  lemma ShowsLastItem(rows: Rows, layout: Layout, item: Item)
    requires layout != [] && Shows(rows, layout) && rows != [] && Sound(rows)
    requires Good(TakeToken(State(rows, None), item.token))
    ensures Shows(TakeLastText(TakeToken(State(rows, None), item.token), item.text).rows, Laid(layout, item, true))
  {
    hide Trim, Good, Sound, Shows, ExtendLeft, ExtendUp, ExtendBoth, OwnerOf, CellOf;
    GoodMeans(TakeToken(State(rows, None), item.token));
    match item.token
    case Nl => ShowsNewRow(rows, layout);
    case Fcel =>
      FcelTakes(rows, item.text);
      ShowsOpens(rows, layout, Trim(item.text));
    case Ecel => ShowsOpens(rows, layout, "");
    case Lcel => ShowsLeft(rows, layout);
    case Ucel => ShowsUp(rows, layout);
    case Xcel => ShowsBoth(rows, layout);
  }

  /** At every token the decoder holds exactly the cells laid out so far. */
  lemma {:induction false} ReadyShows(lead: string, items: seq<Item>, n: nat)
    requires n <= |items|
    ensures Shows(Ready(lead, items, n).rows, LaidOut(lead, items, n))
  {
    hide Trim, Good, Shows, TakeText, TakeToken, Laid, RowStart;
    if n == 0 {
      NothingShown();
      ShowsRowStart([], [], lead);
      assert [] + [RowStart(lead)] == [RowStart(lead)];
      ReadyAtStart(lead, items);
      var none: Rows := [];
      assert none + [[]] == [[]];
    } else {
      ReadyShows(lead, items, n - 1);
      var s := Ready(lead, items, n - 1);
      GoodMeans(s);
      TakeTokenGood(s, items[n - 1].token);
      ShowsItem(s.rows, LaidOut(lead, items, n - 1), items[n - 1]);
      assert s == State(s.rows, None);
    }
  }

  lemma NothingShown()
    ensures Shows([], [])
  {
  }

  lemma ReadyAtStart(lead: string, items: seq<Item>)
    ensures Ready(lead, items, 0) == TakeText(State([[]], None), lead)
  {
    hide Trim;
  }

  /**
   So for any stream of tokens the decoder's rows are those of its layout: every place that opens a cell shows it
   with its text, one column wider for each place that goes with it from the right alone and one row longer for each
   that goes with it from below alone; every other place is hidden and points at the cell it belongs to.
   */
  lemma FinishedShows(lead: string, items: seq<Item>)
    requires items != []
    ensures Shows(Finished(lead, items), LayoutOf(lead, items))
  {
    hide Trim, Good, Shows, TakeText, TakeToken, TakeLastText, Laid, Ready;
    var n := |items| - 1;
    ReadyShows(lead, items, n);
    var s := Ready(lead, items, n);
    GoodMeans(s);
    TakeTokenGood(s, items[n].token);
    ShowsLastItem(s.rows, LaidOut(lead, items, n), items[n]);
    assert s == State(s.rows, None);
  }

  // ---------------------------------------------------------------- the table

  /** Which rows of the layout have a place. */
  function RowsWithPlaces(layout: Layout, n: nat): (rows: seq<nat>)
    requires n <= |layout|
    ensures forall k :: 0 <= k < |rows| ==> rows[k] < n && layout[rows[k]] != []
    ensures forall r :: 0 <= r < n && layout[r] != [] ==> r in rows
    ensures forall k, l :: 0 <= k < l < |rows| ==> rows[k] < rows[l]
  {
    if n == 0 then [] else RowsWithPlaces(layout, n - 1) + if layout[n - 1] == [] then [] else [n - 1]
  }

  /** The places of a row that open a cell. */
  function Opening(layout: Layout, r: nat, n: nat): (columns: seq<nat>)
    requires r < |layout| && n <= |layout[r]|
    ensures forall k :: 0 <= k < |columns| ==> columns[k] < n && layout[r][columns[k]].Opens?
    ensures forall c :: 0 <= c < n && layout[r][c].Opens? ==> c in columns
    ensures forall k, l :: 0 <= k < l < |columns| ==> columns[k] < columns[l]
  {
    if n == 0 then [] else Opening(layout, r, n - 1) + if layout[r][n - 1].Opens? then [n - 1] else []
  }

  lemma {:induction false} ShownOpening(rows: Rows, layout: Layout, r: nat, n: nat)
    requires Shows(rows, layout) && r < |layout| && n <= |layout[r]|
    ensures var columns := Opening(layout, r, n);
            && |Shown(rows[r][..n])| == |columns|
            && forall k :: 0 <= k < |columns| ==> Shown(rows[r][..n])[k] == CellOf(layout, r, columns[k])
  {
    hide CellOf, OwnerOf;
    if n > 0 {
      ShownOpening(rows, layout, r, n - 1);
      assert rows[r][..n][..n - 1] == rows[r][..n - 1];
      assert InLayout(layout, r, n - 1) && rows[r][n - 1] == CellOf(layout, r, n - 1);
      HiddenUnlessOpens(layout, r, n - 1);
    }
  }

  lemma HiddenUnlessOpens(layout: Layout, r: nat, c: nat)
    requires InLayout(layout, r, c)
    ensures CellOf(layout, r, c).hidden <==> !layout[r][c].Opens?
  {
    hide OwnerOf;
  }

  lemma {:induction false} DroppedRows(rows: Rows, layout: Layout, n: nat)
    requires Shows(rows, layout) && n <= |layout|
    ensures var kept := RowsWithPlaces(layout, n);
            && |DropEmpty(rows[..n])| == |kept|
            && forall k :: 0 <= k < |kept| ==> DropEmpty(rows[..n])[k] == rows[kept[k]]
  {
    hide CellOf, OwnerOf;
    if n > 0 {
      DroppedRows(rows, layout, n - 1);
      assert rows[..n][..n - 1] == rows[..n - 1];
    }
  }

  /**
   The table of any stream: nothing if no row has a place; else the rows that have places, in order, each with the
   cells it opens, in order.
   */
  lemma TableIs(lead: string, items: seq<Item>)
    requires items != []
    ensures var layout, table := LayoutOf(lead, items), Table(lead, items);
            var rows := RowsWithPlaces(layout, |layout|);
            && (table.None? <==> rows == [])
            && (table.Some? ==> |table.value| == |rows| && forall k :: 0 <= k < |rows| ==>
                 IsTableRow(table.value[k], layout, rows[k]))
  {
    hide Shows, Finished, LayoutOf, CellOf, RowsWithPlaces, Opening, DropEmpty, Shown;
    var layout, rows := LayoutOf(lead, items), Finished(lead, items);
    FinishedShows(lead, items);
    RowsOfLayout(rows, layout);
    DroppedRows(rows, layout, |layout|);
    assert rows[..|layout|] == rows;
    var kept := RowsWithPlaces(layout, |layout|);
    forall k | 0 <= k < |kept| ensures IsTableRow(Shown(rows[kept[k]]), layout, kept[k]) {
      RowIs(rows, layout, kept[k]);
    }
  }

  ghost predicate IsTableRow(row: seq<Cell>, layout: Layout, r: nat)
    requires r < |layout|
  {
    var columns := Opening(layout, r, |layout[r]|);
    |row| == |columns| && forall j :: 0 <= j < |row| ==> row[j] == CellOf(layout, r, columns[j])
  }

  lemma RowIs(rows: Rows, layout: Layout, r: nat)
    requires Shows(rows, layout) && r < |layout|
    ensures r < |rows| && IsTableRow(Shown(rows[r]), layout, r)
  {
    hide CellOf;
    ShownOpening(rows, layout, r, |layout[r]|);
    assert rows[r][..|layout[r]|] == rows[r];
  }
}
