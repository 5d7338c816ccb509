/**
 Decoding OTSL table tokens into cells with spans.

 `fcel` and `ecel` open a cell; `lcel` widens the cell to the left, `ucel` lengthens the cell above, `xcel`
 belongs to both.  Cells that only continue another one are hidden and point at it, their anchor.
 */
module Otsl {
  import opened Wrappers

  datatype Token = Nl | Fcel | Ecel | Lcel | Ucel | Xcel

  /** A token and the text up to the next one. */
  datatype Item = Item(token: Token, text: string)

  type Position = (nat, nat)

  datatype Cell = Cell(text: string, colspan: nat, rowspan: nat, hidden: bool, anchor: Option<Position>)
  type Rows = seq<seq<Cell>>

  function NewCell(text: string): Cell {
    Cell(text, 1, 1, false, None)
  }

  function HiddenCell(anchor: Option<Position>): Cell {
    Cell("", 0, 0, true, anchor)
  }

  // ---------------------------------------------------------------- text

  predicate IsSpace(c: char) {
    var code := c as int;
    || 0x9 <= code <= 0xD || code == 0x20 || code == 0x85 || code == 0xA0 || code == 0x1680
    || 0x2000 <= code <= 0x200A || code == 0x2028 || code == 0x2029 || code == 0x202F || code == 0x205F
        || code == 0x3000
  }

  function TrimStart(s: string): string {
    if s != "" && IsSpace(s[0]) then TrimStart(s[1..]) else s
  }

  function TrimEnd(s: string): string {
    if s != "" && IsSpace(s[|s| - 1]) then TrimEnd(s[..|s| - 1]) else s
  }

  function Trim(s: string): string {
    TrimEnd(TrimStart(s))
  }

  // ---------------------------------------------------------------- rows

  predicate InRows(rows: Rows, p: Position) {
    p.0 < |rows| && p.1 < |rows[p.0]|
  }

  /** `p` is a cell that shows. */
  predicate Visible(rows: Rows, p: Position) {
    InRows(rows, p) && !rows[p.0][p.1].hidden
  }

  /** Every anchor of a hidden cell is a visible cell, and visible cells span at least themselves. */
  ghost predicate Sound(rows: Rows) {
    forall r, c :: 0 <= r < |rows| && 0 <= c < |rows[r]| ==>
      var cell := rows[r][c];
      if cell.hidden then cell.anchor.Some? ==> Visible(rows, cell.anchor.value)
      else cell.colspan >= 1 && cell.rowspan >= 1
  }

  /** The visible cell a position belongs to: itself, or its anchor when it is hidden. */
  function OwnerAt(rows: Rows, row: nat, column: nat): Option<Position> {
    if row < |rows| && column < |rows[row]| then
      if rows[row][column].hidden then rows[row][column].anchor else Some((row, column))
    else None
  }

  function SetCell(rows: Rows, p: Position, cell: Cell): Rows
    requires InRows(rows, p)
  {
    rows[p.0 := rows[p.0][p.1 := cell]]
  }

  function ExtendColspan(rows: Rows, p: Position): Rows
    requires InRows(rows, p)
  {
    SetCell(rows, p, rows[p.0][p.1].(colspan := rows[p.0][p.1].colspan + 1))
  }

  function ExtendRowspan(rows: Rows, p: Position): Rows
    requires InRows(rows, p)
  {
    SetCell(rows, p, rows[p.0][p.1].(rowspan := rows[p.0][p.1].rowspan + 1))
  }

  function PushText(rows: Rows, p: Position, text: string): Rows
    requires InRows(rows, p)
  {
    SetCell(rows, p, rows[p.0][p.1].(text := rows[p.0][p.1].text + text))
  }

  function Push(rows: Rows, cell: Cell): Rows
    requires rows != []
  {
    rows[|rows| - 1 := rows[|rows| - 1] + [cell]]
  }

  lemma SetCellSound(rows: Rows, p: Position, cell: Cell)
    requires Sound(rows) && Visible(rows, p) && !cell.hidden && cell.colspan >= 1 && cell.rowspan >= 1
    ensures Sound(SetCell(rows, p, cell))
    ensures forall q: Position :: Visible(rows, q) <==> Visible(SetCell(rows, p, cell), q)
  {
  }

  lemma PushSound(rows: Rows, cell: Cell)
    requires Sound(rows) && rows != []
    requires if cell.hidden then cell.anchor.Some? ==> Visible(rows, cell.anchor.value)
             else cell.colspan >= 1 && cell.rowspan >= 1
    ensures Sound(Push(rows, cell))
    ensures forall q: Position :: Visible(rows, q) ==> Visible(Push(rows, cell), q)
  {
    var pushed := Push(rows, cell);
    forall q: Position | Visible(rows, q) ensures Visible(pushed, q) {
      assert pushed[q.0][q.1] == rows[q.0][q.1];
    }
    forall r, c | 0 <= r < |pushed| && 0 <= c < |pushed[r]|
      ensures var x := pushed[r][c];
              if x.hidden then x.anchor.Some? ==> Visible(pushed, x.anchor.value) else x.colspan >= 1 && x.rowspan >= 1
    {
      if c < |rows[r]| {
        assert pushed[r][c] == rows[r][c];
      }
    }
  }

  // ---------------------------------------------------------------- extending

  function LeftOwner(rows: Rows): Option<Position>
    requires rows != []
  {
    var row := |rows| - 1;
    if |rows[row]| == 0 then None else OwnerAt(rows, row, |rows[row]| - 1)
  }

  function UpOwner(rows: Rows): Option<Position>
    requires rows != []
  {
    if |rows| == 1 then None else OwnerAt(rows, |rows| - 2, |rows[|rows| - 1]|)
  }

  function ExtendLeft(rows: Rows): Rows
    requires rows != [] && Sound(rows)
  {
    var anchor := LeftOwner(rows);
    Push(if anchor.Some? then ExtendColspan(rows, anchor.value) else rows, HiddenCell(anchor))
  }

  function ExtendUp(rows: Rows): Rows
    requires rows != [] && Sound(rows)
  {
    var anchor := UpOwner(rows);
    Push(if anchor.Some? then ExtendRowspan(rows, anchor.value) else rows, HiddenCell(anchor))
  }

  function ExtendBoth(rows: Rows): Rows
    requires rows != [] && Sound(rows)
  {
    var left, up := LeftOwner(rows), UpOwner(rows);
    if left.Some? && up.Some? then Push(rows, HiddenCell(up))
    else if left.Some? then Push(ExtendColspan(rows, left.value), HiddenCell(left))
    else if up.Some? then Push(ExtendRowspan(rows, up.value), HiddenCell(up))
    else Push(rows, HiddenCell(None))
  }

  // ---------------------------------------------------------------- the decoder's state

  /** The rows so far and the cell that takes the text up to the next token. */
  datatype State = State(rows: Rows, current: Option<Position>)

  ghost predicate Good(s: State) {
    s.rows != [] && Sound(s.rows) && (s.current.Some? ==> Visible(s.rows, s.current.value))
  }

  /** Text before a token: it goes to the current cell, or opens a cell in an empty row. */
  function TakeText(s: State, text: string): State
    requires s.rows != [] && (s.current.Some? ==> InRows(s.rows, s.current.value))
  {
    var before := Trim(text);
    if s.current.Some? then State(PushText(s.rows, s.current.value, before), None)
    else if before != "" && s.rows[|s.rows| - 1] == [] then State(Push(s.rows, NewCell(before)), None)
    else s
  }

  /** Text after the last token only goes to the current cell. */
  function TakeLastText(s: State, text: string): State
    requires s.current.Some? ==> InRows(s.rows, s.current.value)
  {
    if s.current.Some? then State(PushText(s.rows, s.current.value, Trim(text)), s.current) else s
  }

  function TakeToken(s: State, token: Token): State
    requires s.rows != [] && Sound(s.rows)
  {
    match token
    case Nl => State(s.rows + [[]], None)
    case Fcel => State(Push(s.rows, NewCell("")), Some((|s.rows| - 1, |s.rows[|s.rows| - 1]|)))
    case Ecel => State(Push(s.rows, NewCell("")), None)
    case Lcel => State(ExtendLeft(s.rows), None)
    case Ucel => State(ExtendUp(s.rows), None)
    case Xcel => State(ExtendBoth(s.rows), None)
  }

  lemma TakeTextGood(s: State, text: string)
    requires Good(s)
    ensures Good(TakeText(s, text)) && TakeText(s, text).current == None
  {
    var before := Trim(text);
    hide Trim, Sound;
    if s.current.Some? {
      var p := s.current.value;
      CurrentCell(s);
      SetCellSound(s.rows, p, s.rows[p.0][p.1].(text := s.rows[p.0][p.1].text + before));
    } else if before != "" && s.rows[|s.rows| - 1] == [] {
      PushSound(s.rows, NewCell(before));
    }
  }

  lemma CurrentCell(s: State)
    requires Good(s) && s.current.Some?
    ensures var p := s.current.value;
            !s.rows[p.0][p.1].hidden && s.rows[p.0][p.1].colspan >= 1 && s.rows[p.0][p.1].rowspan >= 1
  {
  }

  lemma TakeLastTextGood(s: State, text: string)
    requires Good(s)
    ensures Good(TakeLastText(s, text))
  {
    hide Trim, Sound;
    if s.current.Some? {
      var p := s.current.value;
      CurrentCell(s);
      SetCellSound(s.rows, p, s.rows[p.0][p.1].(text := s.rows[p.0][p.1].text + Trim(text)));
    }
  }

  lemma ExtendColspanSound(rows: Rows, p: Position)
    requires Sound(rows) && Visible(rows, p)
    ensures Sound(ExtendColspan(rows, p))
    ensures forall q: Position :: Visible(rows, q) <==> Visible(ExtendColspan(rows, p), q)
  {
    SetCellSound(rows, p, rows[p.0][p.1].(colspan := rows[p.0][p.1].colspan + 1));
  }

  lemma ExtendRowspanSound(rows: Rows, p: Position)
    requires Sound(rows) && Visible(rows, p)
    ensures Sound(ExtendRowspan(rows, p))
    ensures forall q: Position :: Visible(rows, q) <==> Visible(ExtendRowspan(rows, p), q)
  {
    SetCellSound(rows, p, rows[p.0][p.1].(rowspan := rows[p.0][p.1].rowspan + 1));
  }

  lemma OwnersVisible(rows: Rows)
    requires rows != [] && Sound(rows)
    ensures LeftOwner(rows).Some? ==> Visible(rows, LeftOwner(rows).value)
    ensures UpOwner(rows).Some? ==> Visible(rows, UpOwner(rows).value)
  {
  }

  /** Every token keeps the rows sound. */
  lemma TakeTokenGood(s: State, token: Token)
    requires Good(s)
    ensures Good(TakeToken(s, token))
  {
    hide Sound;
    var rows := s.rows;
    OwnersVisible(rows);
    var left, up := LeftOwner(rows), UpOwner(rows);
    hide LeftOwner, UpOwner;
    if left.Some? {
      ExtendColspanSound(rows, left.value);
    }
    if up.Some? {
      ExtendRowspanSound(rows, up.value);
    }
    match token
    case Nl => NewRowSound(rows);
    case Fcel => PushSound(rows, NewCell(""));
    case Ecel => PushSound(rows, NewCell(""));
    case Lcel => PushSound(if left.Some? then ExtendColspan(rows, left.value) else rows, HiddenCell(left));
    case Ucel => PushSound(if up.Some? then ExtendRowspan(rows, up.value) else rows, HiddenCell(up));
    case Xcel =>
      if left.Some? && up.Some? {
        PushSound(rows, HiddenCell(up));
      } else if left.Some? {
        PushSound(ExtendColspan(rows, left.value), HiddenCell(left));
      } else if up.Some? {
        PushSound(ExtendRowspan(rows, up.value), HiddenCell(up));
      } else {
        PushSound(rows, HiddenCell(None));
      }
  }

  lemma NewRowSound(rows: Rows)
    requires Sound(rows)
    ensures Sound(rows + [[]])
  {
    var more := rows + [[]];
    forall q: Position | Visible(rows, q) ensures Visible(more, q) {
    }
  }

  // ---------------------------------------------------------------- decoding

  /** The state before token `n`, its leading text already taken. */
  ghost function Ready(lead: string, items: seq<Item>, n: nat): (s: State)
    requires n <= |items|
    ensures Good(s) && s.current == None
  {
    if n == 0 then
      TakeTextGood(State([[]], None), lead);
      TakeText(State([[]], None), lead)
    else
      var s := Ready(lead, items, n - 1);
      TakeTokenGood(s, items[n - 1].token);
      TakeTextGood(TakeToken(s, items[n - 1].token), items[n - 1].text);
      TakeText(TakeToken(s, items[n - 1].token), items[n - 1].text)
  }

  /** The rows once every token and the text behind the last one are taken. */
  ghost function Finished(lead: string, items: seq<Item>): (rows: Rows)
    requires items != []
    ensures Sound(rows)
  {
    var last := items[|items| - 1];
    var s := Ready(lead, items, |items| - 1);
    TakeTokenGood(s, last.token);
    TakeLastTextGood(TakeToken(s, last.token), last.text);
    TakeLastText(TakeToken(s, last.token), last.text).rows
  }

  function DropEmpty(rows: Rows): Rows {
    if rows == [] then [] else DropEmpty(rows[..|rows| - 1]) + if rows[|rows| - 1] == [] then [] else [rows[|rows| - 1]]
  }

  /** The cells of a row that show. */
  function Shown(row: seq<Cell>): seq<Cell> {
    if row == [] then [] else Shown(row[..|row| - 1]) + if row[|row| - 1].hidden then [] else [row[|row| - 1]]
  }

  function ShownRows(rows: Rows): Rows {
    seq(|rows|, r requires 0 <= r < |rows| => Shown(rows[r]))
  }

  /** The table of a token stream, or nothing when the text has no tokens or no cells and stays as it is. */
  ghost function Table(lead: string, items: seq<Item>): Option<Rows> {
    if items == [] || DropEmpty(Finished(lead, items)) == [] then None
    else Some(ShownRows(DropEmpty(Finished(lead, items))))
  }

  /** Decodes a token stream; the rows hold, for any stream at all, only anchors that are visible cells. */
  method OtslTable(lead: string, items: seq<Item>) returns (table: Option<Rows>)
    ensures table == Table(lead, items)
  {
    if items == [] {
      return None;
    }
    var state := State([[]], None);
    hide Good;
    assert Good(state) by { FirstGood(); }
    var text := lead;
    for n := 0 to |items|
      invariant Good(state)
      invariant if n == 0 then state == State([[]], None) && text == lead
                else state == TakeToken(Ready(lead, items, n - 1), items[n - 1].token) && text == items[n - 1].text
    {
      TakeTextGood(state, text);
      GoodMeans(state);
      state := TakeText(state, text);
      GoodMeans(state);
      TakeTokenGood(state, items[n].token);
      state := TakeToken(state, items[n].token);
      text := items[n].text;
    }
    GoodMeans(state);
    var rows := DropEmpty(TakeLastText(state, text).rows);
    if rows == [] {
      return None;
    }
    table := Some(ShownRows(rows));
  }

  lemma FirstGood()
    ensures Good(State([[]], None))
  {
  }

  lemma GoodMeans(s: State)
    requires Good(s)
    ensures s.rows != [] && Sound(s.rows) && (s.current.Some? ==> InRows(s.rows, s.current.value))
  {
  }

  lemma {:induction false} ReadyPrefix(lead: string, a: seq<Item>, b: seq<Item>, n: nat)
    requires n <= |a|
    ensures Ready(lead, a + b, n) == Ready(lead, a, n)
  {
    hide Good, TakeText, TakeToken;
    if n > 0 {
      ReadyPrefix(lead, a, b, n - 1);
    }
  }
}
