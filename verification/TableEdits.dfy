/**
 Writing a table in one pass gives what editing its text in place gives, from the back to the front, where no edit
 moves the places of those still to come.
 */
module TableEdits {
  import opened TableSplice

  /** The text with the stretch between two places replaced. */
  function Overwrite(text: string, from: nat, upto: nat, content: string): string
    requires from <= upto <= |text|
  {
    text[..from] + content + text[upto..]
  }

  /** The text of a row; a deleted row has none. */
  function Content(row: TableRow): (text: string)
    ensures row == TableRow(text, false) || (row.deleted && |text| == 0)
  {
    if row.deleted then "" else row.raw
  }

  ghost predicate InOrder(ranges: seq<Range>) {
    && (forall k :: 0 <= k < |ranges| ==> ranges[k].0 < ranges[k].1)
    && (forall k, l :: 0 <= k < l < |ranges| ==> ranges[k].1 <= ranges[l].0)
  }

  /** The rows from `i` up to `j` overwritten one by one, the last first. */
  ghost function OverwriteRows(text: string, ranges: seq<Range>, rows: seq<TableRow>, i: nat, j: nat): string
    requires i <= j <= |ranges| <= |rows| && InOrder(ranges) && (i < j ==> ranges[j - 1].1 <= |text|)
    decreases j
  {
    if i == j then text else
    var edited := Overwrite(text, ranges[j - 1].0, ranges[j - 1].1, Content(rows[j - 1]));
    OverwriteRows(edited, ranges, rows, i, j - 1)
  }

  /** The rows from `i` up to `j` inserted one by one at the same place, the last first. */
  function InsertRows(text: string, at: nat, rows: seq<TableRow>, i: nat, j: nat): (longer: string)
    requires at <= |text| && i <= j <= |rows|
    ensures |longer| >= |text| && longer[..at] == text[..at]
    decreases j
  {
    if i == j then text else InsertRows(Overwrite(text, at, at, Content(rows[j - 1])), at, rows, i, j - 1)
  }

  lemma {:induction false} ReplacedLast(source: string, from: nat, upto: nat, ranges: seq<Range>, rows: seq<TableRow>,
                                        i: nat, j: nat)
    requires i < j <= |ranges| <= |rows|
    ensures var (start, end) := ranges[j - 1];
            Replaced(source, from, upto, ranges, rows, i, j) ==
            Replaced(source, from, start, ranges, rows, i, j - 1) + RowText(rows[j - 1]) + Slice(source, end, upto)
    decreases j - i
  {
    hide Slice, RowText, Replaced;
    ReplacedStep(source, from, upto, ranges, rows, i, j);
    if i + 1 == j {
      ReplacedNone(source, ranges[i].1, upto, ranges, rows, j);
      ReplacedNone(source, from, ranges[i].0, ranges, rows, i);
    } else {
      ReplacedLast(source, ranges[i].1, upto, ranges, rows, i + 1, j);
      ReplacedStep(source, from, ranges[j - 1].0, ranges, rows, i, j - 1);
      Rebracket(Slice(source, from, ranges[i].0), RowText(rows[i]),
                Replaced(source, ranges[i].1, ranges[j - 1].0, ranges, rows, i + 1, j - 1),
                RowText(rows[j - 1]), Slice(source, ranges[j - 1].1, upto));
    }
  }

  lemma Rebracket(a: string, b: string, c: string, d: string, e: string)
    ensures a + b + (c + d + e) == a + b + c + d + e
  {
  }

  lemma {:induction false} OverwritingReplaces(source: string, rest: string, from: nat, upto: nat, ranges: seq<Range>,
                                               rows: seq<TableRow>, i: nat, j: nat)
    requires InOrder(ranges) && i <= j <= |ranges| <= |rows| && from <= upto <= |source|
    requires i < j ==> from <= ranges[i].0 && ranges[j - 1].1 <= upto
    ensures OverwriteRows(source[..upto] + rest, ranges, rows, i, j) ==
            source[..from] + Replaced(source, from, upto, ranges, rows, i, j) + rest
    decreases j
  {
    hide Replaced, RowText, Slice;
    if i == j {
      ReplacedNone(source, from, upto, ranges, rows, i);
      PartSlice(source, from, upto);
      assert source[..upto] == source[..from] + source[from..upto];
    } else {
      var (start, end) := ranges[j - 1];
      var text, more := source[..upto] + rest, Content(rows[j - 1]) + source[end..upto] + rest;
      assert Overwrite(text, start, end, Content(rows[j - 1])) == source[..start] + more;
      OverwritingReplaces(source, more, from, start, ranges, rows, i, j - 1);
      ReplacedLast(source, from, upto, ranges, rows, i, j);
      PartSlice(source, end, upto);
      ContentIsText(rows[j - 1]);
      Regroup(source[..from], Replaced(source, from, start, ranges, rows, i, j - 1), Content(rows[j - 1]),
              source[end..upto], rest);
    }
  }

  lemma Regroup(a: string, b: string, c: string, d: string, e: string)
    ensures a + b + (c + d + e) == a + (b + c + d) + e
  {
  }

  lemma ContentIsText(row: TableRow)
    ensures Content(row) == RowText(row)
  {
  }

  lemma {:induction false} InsertingAppends(before: string, after: string, rows: seq<TableRow>, i: nat, j: nat)
    requires i <= j <= |rows|
    ensures InsertRows(before + (Appended(rows, j) + after), |before|, rows, i, j) ==
            before + Appended(rows, i) + after
    decreases j
  {
    hide RowText;
    if i == j {
      assert before + (Appended(rows, j) + after) == before + Appended(rows, j) + after;
    } else {
      var text, c := before + (Appended(rows, j) + after), Content(rows[j - 1]);
      ContentIsText(rows[j - 1]);
      assert Overwrite(text, |before|, |before|, c) == before + (c + Appended(rows, j) + after);
      InsertingAppends(before, after, rows, i, j - 1);
    }
  }

  lemma EditedBehind(source: string, ranges: seq<Range>, at: nat, rows: seq<TableRow>, m: nat)
    requires InOrder(ranges) && at <= |source| && m <= |ranges| <= |rows|
    requires m < |ranges| ==> at <= ranges[m].0 && ranges[|ranges| - 1].1 <= |source|
    ensures OverwriteRows(source, ranges, rows, m, |ranges|) ==
            source[..at] + Replaced(source, at, |source|, ranges, rows, m, |ranges|)
  {
    hide InOrder, OverwriteRows, Replaced;
    assert source[..|source|] + "" == source;
    OverwritingReplaces(source, "", at, |source|, ranges, rows, m, |ranges|);
    var edited := source[..at] + Replaced(source, at, |source|, ranges, rows, m, |ranges|);
    assert edited + "" == edited;
  }

  lemma EditedBefore(source: string, rest: string, ranges: seq<Range>, at: nat, rows: seq<TableRow>, m: nat)
    requires InOrder(ranges) && at <= |source| && m <= |ranges| <= |rows| && (m > 0 ==> ranges[m - 1].1 <= at)
    ensures OverwriteRows(source[..at] + rest, ranges, rows, 0, m) ==
            Replaced(source, 0, at, ranges, rows, 0, m) + rest
  {
    hide InOrder, OverwriteRows, Replaced;
    OverwritingReplaces(source, rest, 0, at, ranges, rows, 0, m);
    var edited := Replaced(source, 0, at, ranges, rows, 0, m);
    assert source[..0] + edited == edited;
  }

  lemma EditedAt(before: string, after: string, rows: seq<TableRow>, n: nat)
    requires n <= |rows|
    ensures InsertRows(before + after, |before|, rows, n, |rows|) == before + (Appended(rows, n) + after)
  {
    hide InsertRows, Appended;
    InsertingAppends(before, after, rows, n, |rows|);
    NothingAppended(rows);
    assert "" + after == after;
    Unbracket(before, Appended(rows, n), after);
  }

  lemma Unbracket(a: string, b: string, c: string)
    ensures a + (b + c) == a + b + c
  {
  }

  lemma Places(source: string, ranges: seq<Range>, at: nat, m: nat)
    requires InSequence(ranges, |source|) && m <= |ranges|
    requires (forall k :: 0 <= k < m ==> ranges[k].1 <= at) && (forall k :: m <= k < |ranges| ==> at <= ranges[k].0)
    ensures InOrder(ranges) && Before(ranges, at) == m
    ensures m < |ranges| ==> at <= ranges[m].0 && ranges[|ranges| - 1].1 <= |source|
    ensures m > 0 ==> ranges[m - 1].1 <= at
  {
  }

  /**
   The new text is the old one with the rows behind the insertion point overwritten from the back, then the new rows
   inserted there, then the rows before it overwritten.
   */
  lemma SplicingIsEditing(source: string, ranges: seq<Range>, at: nat, rows: seq<TableRow>, m: nat)
    requires InSequence(ranges, |source|) && at <= |source| && m <= |ranges| <= |rows|
    requires (forall k :: 0 <= k < m ==> ranges[k].1 <= at) && (forall k :: m <= k < |ranges| ==> at <= ranges[k].0)
    ensures InOrder(ranges) && (m < |ranges| ==> ranges[|ranges| - 1].1 <= |source|)
    ensures var behind := OverwriteRows(source, ranges, rows, m, |ranges|);
            && at <= |behind|
            && var inserted := InsertRows(behind, at, rows, |ranges|, |rows|);
               && (m > 0 ==> ranges[m - 1].1 <= |inserted|)
               && Spliced(source, ranges, at, rows) == OverwriteRows(inserted, ranges, rows, 0, m)
  {
    hide InSequence, InOrder, Before, Replaced, Appended, OverwriteRows, InsertRows;
    Places(source, ranges, at, m);
    var tail := Replaced(source, at, |source|, ranges, rows, m, |ranges|);
    EditedBehind(source, ranges, at, rows, m);
    EditedAt(source[..at], tail, rows, |ranges|);
    EditedBefore(source, Appended(rows, |ranges|) + tail, ranges, at, rows, m);
  }
}
