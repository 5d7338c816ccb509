/**
 A table as source text with its row ranges, and writing it back with rows replaced, removed and appended.

 The text is seen through its tags, given with their positions in increasing order.
 */
module TableSplice {
  import opened Sorting
  import opened TableTags
  import opened Wrappers

  function Start(e: Element): nat {
    e.0
  }

  // ---------------------------------------------------------------- parsing a table

  /** The rows in the order of the text, and the first `tbody` if there is one. */
  datatype TableDocument = TableDocument(rows: seq<Element>, tbody: Option<Element>, close: nat)

  ghost predicate IsElement(tags: seq<Tag>, e: Element, name: string) {
    e.0 < e.1 < |tags| && IsOpen(tags[e.0], name) && IsClose(tags[e.1], name)
  }

  ghost predicate StartsOne(elements: seq<Element>, k: nat) {
    exists e :: e in elements && e.0 == k
  }

  ghost predicate EndsOne(elements: seq<Element>, k: nat) {
    exists e :: e in elements && e.1 == k
  }

  /**
   What parsing establishes: the rows are all `tr` elements and the `tbody` is the first one of a properly nested
   table.
   */
  ghost predicate IsDocument(tags: seq<Tag>, doc: TableDocument) {
    && doc.close < |tags| && doc.rows != []
    && (forall i :: 0 <= i < |doc.rows| ==> IsElement(tags, doc.rows[i], "tr") && doc.rows[i].1 < doc.close)
    && (forall i, j :: 0 <= i < j < |doc.rows| ==> doc.rows[i].0 < doc.rows[j].0 && Nest(doc.rows[i], doc.rows[j]))
    && (doc.tbody.Some? ==>
          IsElement(tags, doc.tbody.value, "tbody") && doc.tbody.value.1 < doc.close
          && forall i :: 0 <= i < |doc.rows| ==> Nest(doc.rows[i], doc.tbody.value))
    && AllThere(tags, doc)
  }

  /** No `tr` of the table is missing among the rows, and no `tbody` comes before the one found. */
  ghost predicate AllThere(tags: seq<Tag>, doc: TableDocument)
    requires doc.close < |tags|
  {
    && (forall k :: 0 <= k < doc.close && Begins(tags[k], "tr") ==> StartsOne(doc.rows, k))
    && (forall k :: 0 <= k < doc.close && IsClose(tags[k], "tr") ==> EndsOne(doc.rows, k))
    && (forall k :: 0 <= k < doc.close && Begins(tags[k], "tbody") ==> doc.tbody.Some? && doc.tbody.value.0 <= k)
  }

  /** Closed elements, in the order of their closing tags. */
  ghost predicate Laminar(closed: seq<Element>) {
    && (forall p :: 0 <= p < |closed| ==> closed[p].0 < closed[p].1)
    && (forall p, q :: 0 <= p < q < |closed| ==>
          closed[p].1 < closed[q].1 && (closed[p].1 < closed[q].0 || closed[q].0 < closed[p].0))
  }

  /** No closed element contains an open one. */
  ghost predicate ClosedBetween(closed: seq<Element>, stack: seq<nat>) {
    && (forall s, t :: 0 <= s < t < |stack| ==> stack[s] < stack[t])
    && (forall p, s :: 0 <= p < |closed| && 0 <= s < |stack| ==> stack[s] < closed[p].0 || closed[p].1 < stack[s])
  }

  lemma CloseTop(closed: seq<Element>, stack: seq<nat>, i: nat)
    requires Laminar(closed) && ClosedBetween(closed, stack) && stack != [] && stack[|stack| - 1] < i
    requires forall p :: 0 <= p < |closed| ==> closed[p].1 < i
    ensures Laminar(closed + [(stack[|stack| - 1], i)])
    ensures ClosedBetween(closed + [(stack[|stack| - 1], i)], stack[..|stack| - 1])
  {
    var top := stack[|stack| - 1];
    assert forall p :: 0 <= p < |closed| ==> top < closed[p].0 || closed[p].1 < top;
  }

  lemma LaminarNests(closed: seq<Element>, x: Element, y: Element)
    requires Laminar(closed) && x in closed && y in closed && x != y
    ensures Nest(x, y) && x.0 != y.0
  {
  }

  ghost predicate IsRowList(tags: seq<Tag>, closed: seq<Element>, rows: seq<Element>) {
    && (forall k :: 0 <= k < |rows| ==> rows[k] in closed && IsElement(tags, rows[k], "tr"))
    && (forall k, l :: 0 <= k < l < |rows| ==> rows[k].1 < rows[l].1)
  }

  /** The open elements: their names and opening tags. */
  ghost predicate IsStack(tags: seq<Tag>, stack: seq<nat>, i: nat) {
    forall s :: 0 <= s < |stack| ==> stack[s] < i <= |tags| && tags[stack[s]].kind.Open?
  }

  /** Where the first `tbody` is while the tags before `i` are read: nowhere yet, open, or closed. */
  ghost predicate TbodyKnown(tags: seq<Tag>, first: Option<nat>, tbody: Option<Element>, stack: seq<nat>,
                             closed: seq<Element>) {
    && (first.None? ==> tbody.None?)
    && (first.Some? && tbody.None? ==>
        first.value in stack && first.value < |tags| && IsOpen(tags[first.value], "tbody"))
    && (tbody.Some? ==> first == Some(tbody.value.0) && tbody.value in closed && IsElement(tags, tbody.value, "tbody"))
  }

  /** Every tag before `i` that begins or ends an element is accounted for. */
  ghost predicate Complete(tags: seq<Tag>, stack: seq<nat>, closed: seq<Element>, rows: seq<Element>,
                           first: Option<nat>, i: nat) {
    && i <= |tags| && (first.Some? ==> first.value < i)
    && (forall k :: 0 <= k < i && Begins(tags[k], tags[k].name) ==> k in stack || StartsOne(closed, k))
    && (forall k :: 0 <= k < i && tags[k].kind.Close? ==> EndsOne(closed, k))
    && (forall e :: e in closed ==> e.0 < e.1 < |tags| && tags[e.0].name == tags[e.1].name)
    && (forall e :: e in closed && tags[e.0].name == "tr" ==> e in rows)
    && (forall k :: 0 <= k < i && Begins(tags[k], "tbody") ==> first.Some? && first.value <= k)
  }

  lemma CompleteStart(tags: seq<Tag>)
    ensures Complete(tags, [], [], [], None, 0)
  {
  }

  lemma CompleteSkip(tags: seq<Tag>, stack: seq<nat>, closed: seq<Element>, rows: seq<Element>, first: Option<nat>,
                     i: nat)
    requires Complete(tags, stack, closed, rows, first, i) && i < |tags|
    requires tags[i].kind.OtherKind? || (tags[i].kind.Open? && tags[i].selfClosing)
    ensures Complete(tags, stack, closed, rows, first, i + 1)
  {
  }

  lemma CompleteOpen(tags: seq<Tag>, stack: seq<nat>, closed: seq<Element>, rows: seq<Element>, first: Option<nat>,
                     i: nat)
    requires Complete(tags, stack, closed, rows, first, i) && i < |tags| && Begins(tags[i], tags[i].name)
    ensures Complete(tags, stack + [i], closed, rows,
                     if tags[i].name == "tbody" && first.None? then Some(i) else first, i + 1)
  {
  }

  lemma CompleteClose(tags: seq<Tag>, stack: seq<nat>, closed: seq<Element>, rows: seq<Element>, first: Option<nat>,
                      i: nat)
    requires Complete(tags, stack, closed, rows, first, i) && i < |tags| && tags[i].kind.Close? && stack != []
    requires stack[|stack| - 1] < i && tags[stack[|stack| - 1]].name == tags[i].name
    ensures var top := (stack[|stack| - 1], i);
            Complete(tags, stack[..|stack| - 1], closed + [top], if tags[i].name == "tr" then rows + [top] else rows,
                     first, i + 1)
  {
    var rest, top := stack[..|stack| - 1], (stack[|stack| - 1], i);
    var more := closed + [top];
    assert stack == rest + [top.0] && top in more;
    forall k | 0 <= k < i + 1 && Begins(tags[k], tags[k].name) ensures k in rest || StartsOne(more, k) {
      if k in stack && k !in rest {
        assert k == top.0;
      } else if k !in stack {
        var e :| e in closed && e.0 == k;
        assert e in more;
      }
    }
    forall k | 0 <= k < i + 1 && tags[k].kind.Close? ensures EndsOne(more, k) {
      if k < i {
        var e :| e in closed && e.1 == k;
        assert e in more;
      }
    }
  }

  lemma NothingMissing(tags: seq<Tag>, closed: seq<Element>, rows: seq<Element>, sorted: seq<Element>,
                       first: Option<nat>, tbody: Option<Element>, i: nat)
    requires i < |tags| && Complete(tags, [], closed, rows, first, i + 1) && SameElements(sorted, rows)
    requires TbodyKnown(tags, first, tbody, [], closed)
    ensures AllThere(tags, TableDocument(sorted, tbody, i))
  {
    forall k | 0 <= k < i && Begins(tags[k], "tr") ensures StartsOne(sorted, k) {
      var e :| e in closed && e.0 == k;
      assert e in rows && e in sorted;
    }
    forall k | 0 <= k < i && IsClose(tags[k], "tr") ensures EndsOne(sorted, k) {
      var e :| e in closed && e.1 == k;
      assert e in rows && e in sorted;
    }
  }

  lemma NoTableAtEnd(source: string, tags: seq<Tag>, blank: string -> bool, stack: seq<nat>, i: nat,
                     closed: seq<Element>, rows: seq<Element>, first: Option<nat>)
    requires TagsOf(source, tags) && StackForced(source, tags, blank, stack, i) && i < |tags|
    requires IsClose(tags[i], "table") && stack != []
    requires Complete(tags, stack[..|stack| - 1], closed, rows, first, i + 1)
    requires stack[..|stack| - 1] != [] || !blank(source[EndOf(source, tags, i)..]) || rows == []
    ensures NoTable(source, tags, blank)
  {
    hide Complete, TagsOf;
    forall mate ensures !IsTable(source, tags, blank, mate) {
      if IsTable(source, tags, blank, mate) {
        LastCloses(source, tags, blank, mate);
        TopForced(source, tags, blank, stack, i, mate);
        if stack[..|stack| - 1] != [] {
          assert stack[0] in stack;
          MateBack(tags, mate, stack[0]);
        } else {
          var k :| 0 <= k < |mate| && Begins(tags[k], "tr");
          RowThere(tags, closed, rows, first, i, k);
        }
      }
    }
  }

  lemma RowThere(tags: seq<Tag>, closed: seq<Element>, rows: seq<Element>, first: Option<nat>, i: nat, k: nat)
    requires Complete(tags, [], closed, rows, first, i + 1) && k < i + 1 && Begins(tags[k], "tr")
    ensures rows != []
  {
    var e :| e in closed && e.0 == k;
  }

  predicate IsPair(mate: seq<nat>, e: Element) {
    e.0 < |mate| && e.1 < |mate| && mate[e.0] == e.1 && mate[e.1] == e.0
  }

  /** The rows and the `tbody` of a table are elements of it. */
  ghost predicate RowsPair(doc: TableDocument, mate: seq<nat>) {
    && (forall row :: row in doc.rows ==> IsPair(mate, row))
    && (doc.tbody.Some? ==> IsPair(mate, doc.tbody.value))
  }

  ghost predicate ReadAs(source: string, tags: seq<Tag>, blank: string -> bool, doc: TableDocument)
    requires TagsOf(source, tags)
  {
    exists mate :: IsTable(source, tags, blank, mate) && |mate| == doc.close + 1 && RowsPair(doc, mate)
  }

  lemma IsTableRead(source: string, tags: seq<Tag>, blank: string -> bool, mate: seq<nat>, closed: seq<Element>,
                    rows: seq<Element>, i: nat)
    requires TagsOf(source, tags) && Paired(tags, mate, [], closed) && |mate| == i + 1 <= |tags|
    requires Begins(tags[0], "table") && IsClose(tags[i], "table") && mate[i] == 0 && i > 0
    requires forall k :: 0 < k <= i ==> !IsOpen(tags[k], "table")
    requires rows != [] && IsRowList(tags, closed, rows)
    requires blank(source[..FirstStart(source, tags)]) && blank(source[EndOf(source, tags, i)..])
    ensures IsTable(source, tags, blank, mate)
  {
    hide TagsOf;
    assert Partners(tags, mate, i);
    var row := rows[0];
    assert row in closed && Begins(tags[row.0], "tr");
  }

  lemma RowsPaired(tags: seq<Tag>, mate: seq<nat>, closed: seq<Element>, rows: seq<Element>, sorted: seq<Element>,
                   first: Option<nat>, tbody: Option<Element>, close: nat)
    requires Paired(tags, mate, [], closed) && IsRowList(tags, closed, rows) && SameElements(sorted, rows)
    requires TbodyKnown(tags, first, tbody, [], closed)
    ensures RowsPair(TableDocument(sorted, tbody, close), mate)
  {
    forall row | row in closed ensures IsPair(mate, row) {
      assert Partners(tags, mate, row.0);
    }
    forall row | row in sorted ensures row in closed {
      assert row in rows;
    }
  }

  lemma TableRead(source: string, tags: seq<Tag>, blank: string -> bool, mate: seq<nat>, before: seq<nat>,
                  closed: seq<Element>, rows: seq<Element>, sorted: seq<Element>, first: Option<nat>,
                  tbody: Option<Element>, i: nat)
    requires TagsOf(source, tags) && Paired(tags, mate, [], closed) && |mate| == i + 1 <= |tags|
    requires Begins(tags[0], "table") && IsClose(tags[i], "table") && OneTable(tags, before, i)
    requires |before| == 1 && mate[i] == before[0] < i
    requires rows != [] && IsRowList(tags, closed, rows) && SameElements(sorted, rows)
    requires TbodyKnown(tags, first, tbody, [], closed)
    requires blank(source[..FirstStart(source, tags)]) && blank(source[EndOf(source, tags, i)..])
    ensures ReadAs(source, tags, blank, TableDocument(sorted, tbody, i))
  {
    hide Paired, IsTable, TagsOf, IsRowList, TbodyKnown, RowsPair;
    IsTableRead(source, tags, blank, mate, closed, rows, i);
    RowsPaired(tags, mate, closed, rows, sorted, first, tbody, i);
  }

  /** No table but the one that the text starts with has begun, and that one is open. */
  ghost predicate OneTable(tags: seq<Tag>, stack: seq<nat>, i: nat)
    requires i <= |tags|
  {
    && (forall k :: 0 < k < i ==> !IsOpen(tags[k], "table"))
    && (if i == 0 then stack == [] else stack != [] && stack[0] == 0)
  }

  lemma NoTableAtStart(source: string, tags: seq<Tag>, blank: string -> bool)
    requires TagsOf(source, tags)
    requires tags == [] || !blank(source[..FirstStart(source, tags)]) || !Begins(tags[0], "table")
    ensures NoTable(source, tags, blank)
  {
  }

  /** Where the loop stands: `closed` and `mate` are what it has found out so far, all of it forced by the tags. */
  datatype Reader = Reader(stack: seq<nat>, rows: seq<Element>, first: Option<nat>, tbody: Option<Element>,
                           closed: seq<Element>, mate: seq<nat>)

  ghost predicate Structured(tags: seq<Tag>, r: Reader, i: nat) {
    && i <= |tags| && Laminar(r.closed) && ClosedBetween(r.closed, r.stack)
    && (forall p :: 0 <= p < |r.closed| ==> r.closed[p].1 < i)
    && IsStack(tags, r.stack, i) && IsRowList(tags, r.closed, r.rows)
    && TbodyKnown(tags, r.first, r.tbody, r.stack, r.closed)
    && Complete(tags, r.stack, r.closed, r.rows, r.first, i)
    && |r.mate| == i && Paired(tags, r.mate, r.stack, r.closed)
  }

  ghost predicate Reading(source: string, tags: seq<Tag>, blank: string -> bool, r: Reader, i: nat)
    requires TagsOf(source, tags)
  {
    Structured(tags, r, i) && StackForced(source, tags, blank, r.stack, i) && OneTable(tags, r.stack, i)
  }

  function Skipped(r: Reader): Reader {
    r.(mate := r.mate + [0])
  }

  function Opened(tags: seq<Tag>, r: Reader, i: nat): Reader
    requires i < |tags|
  {
    r.(stack := r.stack + [i], mate := r.mate + [|tags|],
       first := if tags[i].name == "tbody" && r.first.None? then Some(i) else r.first)
  }

  function Closed(tags: seq<Tag>, r: Reader, i: nat): Reader
    requires i < |tags| && r.stack != [] && r.stack[|r.stack| - 1] < |r.mate|
  {
    var top := (r.stack[|r.stack| - 1], i);
    Reader(r.stack[..|r.stack| - 1], if tags[i].name == "tr" then r.rows + [top] else r.rows, r.first,
           if tags[i].name == "tbody" && Some(top.0) == r.first then Some(top) else r.tbody,
           r.closed + [top], r.mate[top.0 := i] + [top.0])
  }

  lemma ReadNothing(source: string, tags: seq<Tag>, blank: string -> bool)
    requires TagsOf(source, tags)
    ensures Reading(source, tags, blank, Reader([], [], None, None, [], []), 0)
  {
    hide TagsOf, Laminar, ClosedBetween, IsRowList, IsStack, TbodyKnown, Complete, Paired, StackForced;
    NothingRead(tags);
    CompleteStart(tags);
    StackStart(source, tags, blank);
  }

  lemma ReadSkip(source: string, tags: seq<Tag>, blank: string -> bool, r: Reader, i: nat)
    requires TagsOf(source, tags) && Reading(source, tags, blank, r, i) && i < |tags| && Begins(tags[0], "table")
    requires tags[i].kind.OtherKind? || (tags[i].kind.Open? && tags[i].selfClosing)
    requires IsOpen(tags[i], "table") ==> r.stack == []
    ensures Reading(source, tags, blank, Skipped(r), i + 1)
  {
    hide TagsOf, Laminar, ClosedBetween, IsRowList, IsStack, TbodyKnown, Complete, Paired, StackForced;
    NextTag(tags, i, r.stack);
    CompleteSkip(tags, r.stack, r.closed, r.rows, r.first, i);
    PairedSkip(tags, r.mate, r.stack, r.closed);
    StackSkip(source, tags, blank, r.stack, i);
  }

  lemma ReadOpen(source: string, tags: seq<Tag>, blank: string -> bool, r: Reader, i: nat)
    requires TagsOf(source, tags) && Reading(source, tags, blank, r, i) && i < |tags| && Begins(tags[0], "table")
    requires Begins(tags[i], tags[i].name) && (tags[i].name == "table" ==> r.stack == [])
    ensures Reading(source, tags, blank, Opened(tags, r, i), i + 1)
  {
    hide TagsOf, Laminar, ClosedBetween, IsRowList, IsStack, TbodyKnown, Complete, Paired, StackForced;
    OpenStep(tags, i, r.stack, r.closed, r.first, r.tbody);
    CompleteOpen(tags, r.stack, r.closed, r.rows, r.first, i);
    PairedOpen(tags, r.mate, r.stack, r.closed);
    StackOpen(source, tags, blank, r.stack, i);
  }

  lemma ClosedStructure(tags: seq<Tag>, r: Reader, i: nat)
    requires Structured(tags, r, i) && i < |tags| && tags[i].kind.Close?
    requires r.stack != [] && r.stack[|r.stack| - 1] < |tags| && tags[r.stack[|r.stack| - 1]].name == tags[i].name
    ensures r.stack[|r.stack| - 1] < |r.mate| && Structured(tags, Closed(tags, r, i), i + 1)
  {
    hide Laminar, ClosedBetween, IsRowList, IsStack, TbodyKnown, Complete, Paired;
    TopIsOpen(tags, r.stack, i);
    CloseStep(tags, i, r.stack, r.closed, r.rows, r.first, r.tbody);
    CompleteClose(tags, r.stack, r.closed, r.rows, r.first, i);
    PairedClose(tags, r.mate, r.stack, r.closed, r.stack[|r.stack| - 1]);
  }

  lemma ReadClose(source: string, tags: seq<Tag>, blank: string -> bool, r: Reader, i: nat)
    requires TagsOf(source, tags) && Reading(source, tags, blank, r, i) && i < |tags| && Begins(tags[0], "table")
    requires tags[i].kind.Close? && tags[i].name != "table"
    requires r.stack != [] && r.stack[|r.stack| - 1] < |tags| && tags[r.stack[|r.stack| - 1]].name == tags[i].name
    ensures r.stack[|r.stack| - 1] < |r.mate| && Reading(source, tags, blank, Closed(tags, r, i), i + 1)
  {
    hide TagsOf, Structured, StackForced;
    ClosedStructure(tags, r, i);
    StackClose(source, tags, blank, r.stack, i);
  }

  /** At the end of the table: either there is a table, or whatever is wrong rules one out. */
  lemma ReadEnd(source: string, tags: seq<Tag>, blank: string -> bool, r: Reader, i: nat, sorted: seq<Element>)
    requires TagsOf(source, tags) && Reading(source, tags, blank, r, i) && i < |tags| && Begins(tags[0], "table")
    requires IsClose(tags[i], "table") && blank(source[..FirstStart(source, tags)])
    requires r.stack != [] && r.stack[|r.stack| - 1] < |tags| && tags[r.stack[|r.stack| - 1]].name == tags[i].name
    requires IsSorted(sorted, Start) && SameElements(sorted, r.rows)
    ensures var fine := |r.stack| == 1 && blank(source[EndOf(source, tags, i)..]) && r.rows != [];
            var doc := TableDocument(sorted, r.tbody, i);
            if fine then IsDocument(tags, doc) && ReadAs(source, tags, blank, doc) else NoTable(source, tags, blank)
  {
    hide TagsOf, Laminar, ClosedBetween, IsRowList, IsStack, TbodyKnown, Complete, Paired, StackForced, OneTable;
    hide IsDocument, ReadAs, NoTable, AllThere, IsSorted, SameElements;
    TopIsOpen(tags, r.stack, i);
    ClosedStructure(tags, r, i);
    var now := Closed(tags, r, i);
    if |r.stack| == 1 && blank(source[EndOf(source, tags, i)..]) && r.rows != [] {
      assert now.stack == [];
      NothingMissing(tags, now.closed, r.rows, sorted, r.first, r.tbody, i);
      DocumentRead(tags, i, now.closed, r.rows, sorted, r.first, r.tbody);
      TableRead(source, tags, blank, now.mate, r.stack, now.closed, r.rows, sorted, r.first, r.tbody, i);
    } else {
      NoTableAtEnd(source, tags, blank, r.stack, i, now.closed, r.rows, r.first);
    }
  }

  lemma RowStartsDiffer(source: string, tags: seq<Tag>, blank: string -> bool, r: Reader, i: nat)
    requires TagsOf(source, tags) && Reading(source, tags, blank, r, i)
    ensures KeysDiffer(r.rows, Start)
  {
    hide Laminar, IsRowList, StackForced, Paired, Complete;
    RowStarts(tags, r.closed, r.rows);
  }

  /** Whatever stops the reading rules out a table. */
  lemma ReadStops(source: string, tags: seq<Tag>, blank: string -> bool, r: Reader, i: nat)
    requires TagsOf(source, tags) && Reading(source, tags, blank, r, i)
    ensures i < |tags| && IsOpen(tags[i], "table") && r.stack != [] ==> NoTable(source, tags, blank)
    ensures i < |tags| && tags[i].kind.Close?
            && (r.stack == []
                || (r.stack[|r.stack| - 1] < |tags| && tags[r.stack[|r.stack| - 1]].name != tags[i].name)) ==>
              NoTable(source, tags, blank)
    ensures i == |tags| ==> NoTable(source, tags, blank)
    ensures r.stack != [] ==> r.stack[|r.stack| - 1] < |tags|
  {
    hide TagsOf, Laminar, ClosedBetween, IsRowList, IsStack, TbodyKnown, Complete, Paired, StackForced, NoTable;
    TopIsOpen(tags, r.stack, i);
    if i == |tags| {
      NoTableBehind(source, tags, blank, r.stack);
    } else if IsOpen(tags[i], "table") && r.stack != [] {
      NoTableAtOpen(source, tags, blank, r.stack, i);
    } else if tags[i].kind.Close? && (r.stack == [] || tags[r.stack[|r.stack| - 1]].name != tags[i].name) {
      NoTableAtClose(source, tags, blank, r.stack, i);
    }
  }

  /**
   Reads the tags up to the end of the table; `blank` says whether a text is only white space.  It reads exactly the
   tables: the tags pair up in one way, and the rows and the `tbody` are pairs.
   */
  method ParseTable(source: string, tags: seq<Tag>, blank: string -> bool) returns (r: Option<TableDocument>)
    requires TagsOf(source, tags)
    ensures r.Some? ==> IsDocument(tags, r.value)
    ensures if r.Some? then ReadAs(source, tags, blank, r.value) else NoTable(source, tags, blank)
  {
    hide IsDocument, TagsOf, Reading, ReadAs, NoTable;
    if tags == [] || !blank(source[..FirstStart(source, tags)]) || !IsOpen(tags[0], "table") || tags[0].selfClosing {
      NoTableAtStart(source, tags, blank);
      return None;
    }
    var stack: seq<nat>, rows: seq<Element>, first: Option<nat>, tbody: Option<Element> := [], [], None, None;
    ghost var reader := Reader([], [], None, None, [], []);
    ReadNothing(source, tags, blank);
    var i := 0;
    while i < |tags|
      invariant i <= |tags| && Reading(source, tags, blank, reader, i)
      invariant reader == Reader(stack, rows, first, tbody, reader.closed, reader.mate)
    {
      ReadStops(source, tags, blank, reader, i);
      var tag := tags[i];
      if tag.kind.Open? {
        if tag.name == "table" && stack != [] {
          return None;
        }
        if !tag.selfClosing {
          ReadOpen(source, tags, blank, reader, i);
          reader := Opened(tags, reader, i);
          if tag.name == "tbody" && first.None? {
            first := Some(i);
          }
          stack := stack + [i];
        } else {
          ReadSkip(source, tags, blank, reader, i);
          reader := Skipped(reader);
        }
      } else if tag.kind.Close? {
        if stack == [] || tags[stack[|stack| - 1]].name != tag.name {
          return None;
        }
        var top := stack[|stack| - 1];
        if tag.name == "table" {
          RowStartsDiffer(source, tags, blank, reader, i);
          var sorted := SortByKey(rows, Start);
          ReadEnd(source, tags, blank, reader, i, sorted);
          if |stack| != 1 || !blank(source[EndOf(source, tags, i)..]) || rows == [] {
            return None;
          }
          return Some(TableDocument(sorted, tbody, i));
        }
        ReadClose(source, tags, blank, reader, i);
        reader := Closed(tags, reader, i);
        stack := stack[..|stack| - 1];
        if tag.name == "tr" {
          rows := rows + [(top, i)];
        }
        if tag.name == "tbody" && Some(top) == first {
          tbody := Some((top, i));
        }
      } else {
        ReadSkip(source, tags, blank, reader, i);
        reader := Skipped(reader);
      }
      i := i + 1;
    }
    ReadStops(source, tags, blank, reader, i);
    r := None;
  }

  lemma NothingRead(tags: seq<Tag>)
    ensures Laminar([]) && ClosedBetween([], []) && IsStack(tags, [], 0) && IsRowList(tags, [], [])
    ensures TbodyKnown(tags, None, None, [], []) && Paired(tags, [], [], []) && OneTable(tags, [], 0)
  {
  }

  lemma NextTag(tags: seq<Tag>, i: nat, stack: seq<nat>)
    requires i < |tags| && IsStack(tags, stack, i)
    ensures IsStack(tags, stack, i + 1)
  {
  }

  lemma TopIsOpen(tags: seq<Tag>, stack: seq<nat>, i: nat)
    requires IsStack(tags, stack, i)
    ensures stack != [] ==> stack[|stack| - 1] < i <= |tags| && tags[stack[|stack| - 1]].kind.Open?
  {
  }

  lemma OpenStep(tags: seq<Tag>, i: nat, stack: seq<nat>, closed: seq<Element>, first: Option<nat>,
                 tbody: Option<Element>)
    requires i < |tags| && tags[i].kind.Open? && IsStack(tags, stack, i) && ClosedBetween(closed, stack)
    requires forall p :: 0 <= p < |closed| ==> closed[p].1 < i
    requires TbodyKnown(tags, first, tbody, stack, closed)
    ensures IsStack(tags, stack + [i], i + 1) && ClosedBetween(closed, stack + [i])
    ensures TbodyKnown(tags, if tags[i].name == "tbody" && first.None? then Some(i)
        else first, tbody, stack + [i], closed)
  {
  }

  lemma CloseStep(tags: seq<Tag>, i: nat, stack: seq<nat>, closed: seq<Element>, rows: seq<Element>,
                  first: Option<nat>, tbody: Option<Element>)
    requires i < |tags| && IsStack(tags, stack, i) && ClosedBetween(closed, stack) && Laminar(closed) && stack != []
    requires forall p :: 0 <= p < |closed| ==> closed[p].1 < i
    requires tags[i].kind.Close? && IsRowList(tags, closed, rows) && TbodyKnown(tags, first, tbody, stack, closed)
    requires stack[|stack| - 1] < |tags| && tags[stack[|stack| - 1]].name == tags[i].name
    ensures var top := (stack[|stack| - 1], i);
            && IsStack(tags, stack[..|stack| - 1], i + 1) && ClosedBetween(closed + [top], stack[..|stack| - 1])
                && Laminar(closed + [top])
            && IsRowList(tags, closed + [top], if tags[i].name == "tr" then rows + [top] else rows)
            && TbodyKnown(tags, first, if tags[i].name == "tbody" && Some(top.0) == first then Some(top) else tbody,
                          stack[..|stack| - 1], closed + [top])
  {
    CloseTop(closed, stack, i);
    CloseRow(tags, i, stack, closed, rows);
    CloseTbody(tags, i, stack, closed, first, tbody);
  }

  lemma CloseRow(tags: seq<Tag>, i: nat, stack: seq<nat>, closed: seq<Element>, rows: seq<Element>)
    requires i < |tags| && IsStack(tags, stack, i) && stack != []
    requires forall p :: 0 <= p < |closed| ==> closed[p].1 < i
    requires tags[i].kind.Close? && IsRowList(tags, closed, rows)
    requires stack[|stack| - 1] < |tags| && tags[stack[|stack| - 1]].name == tags[i].name
    ensures var top := (stack[|stack| - 1], i);
            IsRowList(tags, closed + [top], if tags[i].name == "tr" then rows + [top] else rows)
  {
    hide IsRowList;
    RowListGrows(tags, closed, rows, (stack[|stack| - 1], i), tags[i].name == "tr");
  }

  lemma RowListGrows(tags: seq<Tag>, closed: seq<Element>, rows: seq<Element>, top: Element, isRow: bool)
    requires IsRowList(tags, closed, rows) && (isRow ==> IsElement(tags, top, "tr"))
    requires forall p :: 0 <= p < |closed| ==> closed[p].1 < top.1
    ensures IsRowList(tags, closed + [top], if isRow then rows + [top] else rows)
  {
    hide IsElement;
    var more := closed + [top];
    forall k | 0 <= k < |rows| ensures rows[k] in more && rows[k].1 < top.1 {
      var p :| 0 <= p < |closed| && closed[p] == rows[k];
      assert more[p] == rows[k];
    }
    assert more[|closed|] == top;
  }

  lemma CloseTbody(tags: seq<Tag>, i: nat, stack: seq<nat>, closed: seq<Element>, first: Option<nat>,
                   tbody: Option<Element>)
    requires i < |tags| && IsStack(tags, stack, i) && ClosedBetween(closed, stack) && stack != []
    requires tags[i].kind.Close? && TbodyKnown(tags, first, tbody, stack, closed)
    requires stack[|stack| - 1] < |tags| && tags[stack[|stack| - 1]].name == tags[i].name
    requires tbody.Some? ==> tbody.value.0 !in stack
    ensures var top := (stack[|stack| - 1], i);
            TbodyKnown(tags, first, if tags[i].name == "tbody" && Some(top.0) == first then Some(top) else tbody,
                       stack[..|stack| - 1], closed + [top])
  {
    var rest, top := stack[..|stack| - 1], stack[|stack| - 1];
    assert stack == rest + [top];
  }

  lemma RowStarts(tags: seq<Tag>, closed: seq<Element>, rows: seq<Element>)
    requires Laminar(closed) && IsRowList(tags, closed, rows)
    ensures KeysDiffer(rows, Start)
  {
    forall k, l | 0 <= k < l < |rows| ensures rows[k].0 != rows[l].0 {
      LaminarNests(closed, rows[k], rows[l]);
    }
  }

  lemma DocumentRead(tags: seq<Tag>, i: nat, closed: seq<Element>, rows: seq<Element>, sorted: seq<Element>,
                     first: Option<nat>, tbody: Option<Element>)
    requires i < |tags| && Laminar(closed) && IsRowList(tags, closed, rows)
    requires TbodyKnown(tags, first, tbody, [], closed)
    requires closed != [] && closed[|closed| - 1].1 == i && IsClose(tags[i], "table") && rows != []
    requires IsSorted(sorted, Start) && SameElements(sorted, rows)
    requires AllThere(tags, TableDocument(sorted, tbody, i))
    ensures IsDocument(tags, TableDocument(sorted, tbody, i))
  {
    hide Laminar, Nest, AllThere;
    assert rows[0] in sorted;
    forall k | 0 <= k < |sorted| ensures sorted[k] in closed && IsElement(tags, sorted[k], "tr") && sorted[k].1 < i {
      RowBefore(tags, i, closed, rows, sorted[k]);
    }
    forall k, l | 0 <= k < l < |sorted| ensures Nest(sorted[k], sorted[l]) {
      LaminarNests(closed, sorted[k], sorted[l]);
    }
    if tbody.Some? {
      EndsBefore(tags, i, closed, tbody.value, "tbody");
      forall k | 0 <= k < |sorted| ensures Nest(sorted[k], tbody.value) {
        LaminarNests(closed, sorted[k], tbody.value);
      }
    }
  }

  lemma EndsBefore(tags: seq<Tag>, i: nat, closed: seq<Element>, e: Element, name: string)
    requires i < |tags| && Laminar(closed) && closed != [] && closed[|closed| - 1].1 == i && IsClose(tags[i], "table")
    requires e in closed && IsElement(tags, e, name) && name != "table"
    ensures e.1 < i
  {
  }

  lemma RowBefore(tags: seq<Tag>, i: nat, closed: seq<Element>, rows: seq<Element>, row: Element)
    requires i < |tags| && Laminar(closed) && closed != [] && closed[|closed| - 1].1 == i && IsClose(tags[i], "table")
    requires IsRowList(tags, closed, rows) && row in rows
    ensures row in closed && IsElement(tags, row, "tr") && row.1 < i
  {
    EndsBefore(tags, i, closed, row, "tr");
  }

  /** The tags determine what is read. */
  lemma DocumentIsUnique(source: string, tags: seq<Tag>, blank: string -> bool, a: TableDocument, b: TableDocument)
    requires TagsOf(source, tags) && IsDocument(tags, a) && IsDocument(tags, b)
    requires ReadAs(source, tags, blank, a) && ReadAs(source, tags, blank, b)
    ensures a == b
  {
    hide TagsOf, IsDocument, IsTable, Nest;
    var mate :| IsTable(source, tags, blank, mate) && |mate| == a.close + 1 && RowsPair(a, mate);
    var other :| IsTable(source, tags, blank, other) && |other| == b.close + 1 && RowsPair(b, other);
    SameLength(source, tags, blank, mate, other);
    forall e | e in a.rows ensures e in b.rows {
      RowIsThere(source, tags, blank, a, b, mate, other, e);
    }
    forall e | e in b.rows ensures e in a.rows {
      RowIsThere(source, tags, blank, b, a, other, mate, e);
    }
    RowsSorted(tags, a);
    RowsSorted(tags, b);
    SortedIsUnique(a.rows, b.rows, Start);
    SameTbody(source, tags, blank, a, b, mate, other);
  }

  lemma RowsSorted(tags: seq<Tag>, doc: TableDocument)
    requires IsDocument(tags, doc)
    ensures IsSorted(doc.rows, Start)
  {
    hide AllThere, Nest;
  }

  /** A row begins at a tag that begins a `tr`, as its closing tag has a partner. */
  lemma ElementBegins(source: string, tags: seq<Tag>, blank: string -> bool, mate: seq<nat>, e: Element, name: string)
    requires TagsOf(source, tags) && IsTable(source, tags, blank, mate) && IsElement(tags, e, name)
    requires e.1 < |mate| && mate[e.1] == e.0
    ensures Begins(tags[e.0], name)
  {
    hide TagsOf;
    assert Partners(tags, mate, e.1);
  }

  lemma RowIsThere(source: string, tags: seq<Tag>, blank: string -> bool, a: TableDocument, b: TableDocument,
                   mate: seq<nat>, other: seq<nat>, e: Element)
    requires TagsOf(source, tags) && IsDocument(tags, a) && IsDocument(tags, b) && a.close == b.close && e in a.rows
    requires IsTable(source, tags, blank, mate) && |mate| == a.close + 1 && RowsPair(a, mate)
    requires IsTable(source, tags, blank, other) && |other| == b.close + 1 && RowsPair(b, other)
    ensures e in b.rows
  {
    hide TagsOf, IsTable, Nest;
    assert EndsOne(b.rows, e.1);
    var f :| f in b.rows && f.1 == e.1;
    IsPaired(source, tags, blank, other);
    PairingIsUnique(source, tags, blank, mate, other, e.1);
  }

  lemma SameTbody(source: string, tags: seq<Tag>, blank: string -> bool, a: TableDocument, b: TableDocument,
                  mate: seq<nat>, other: seq<nat>)
    requires TagsOf(source, tags) && IsDocument(tags, a) && IsDocument(tags, b) && a.close == b.close
    requires IsTable(source, tags, blank, mate) && |mate| == a.close + 1 && RowsPair(a, mate)
    requires IsTable(source, tags, blank, other) && |other| == b.close + 1 && RowsPair(b, other)
    ensures a.tbody == b.tbody
  {
    hide TagsOf, IsTable, Nest;
    if a.tbody.Some? {
      ElementBegins(source, tags, blank, mate, a.tbody.value, "tbody");
    }
    if b.tbody.Some? {
      ElementBegins(source, tags, blank, other, b.tbody.value, "tbody");
    }
    if a.tbody.Some? && b.tbody.Some? {
      var x, y := a.tbody.value, b.tbody.value;
      assert x.0 == y.0;
      PairingIsUnique(source, tags, blank, mate, other, x.0);
      assert x == y;
    }
  }

  // ---------------------------------------------------------------- rows

  /** Whether the tags of a row from `i` on are read to the end; `spansOk` says whether a cell's spans are numbers. */
  predicate RowReads(tags: seq<Tag>, i: nat, stack: seq<string>, active: bool, spansOk: Tag -> bool)
    requires i <= |tags|
    decreases |tags| - i
  {
    if i == |tags| then false else
    var tag := tags[i];
    match tag.kind
    case OtherKind => RowReads(tags, i + 1, stack, active, spansOk)
    case Open =>
      if tag.selfClosing then RowReads(tags, i + 1, stack, active, spansOk)
      else if (tag.name == "td" || tag.name == "th") && |stack| == 1 then
        !active && spansOk(tag) && RowReads(tags, i + 1, stack + [tag.name], true, spansOk)
      else RowReads(tags, i + 1, stack + [tag.name], active, spansOk)
    case Close =>
      && stack != [] && stack[|stack| - 1] == tag.name
      && ((tag.name == "td" || tag.name == "th") ==> active)
      && if tag.name == "tr" then |stack| == 1 && i + 1 == |tags|
         else RowReads(tags, i + 1, stack[..|stack| - 1], active && tag.name != "td" && tag.name != "th", spansOk)
  }

  /** Whether the text of a row element can be read as a row. */
  predicate RowParses(tags: seq<Tag>, row: Element, spansOk: Tag -> bool)
    requires row.0 < row.1 < |tags|
  {
    IsOpen(tags[row.0], "tr") && !tags[row.0].selfClosing && RowReads(tags[row.0..row.1 + 1], 0, [], false, spansOk)
  }

  /** The loop over the tags of a row, with its stack of open elements and the cell being read. */
  method ParseRow(tags: seq<Tag>, row: Element, spansOk: Tag -> bool) returns (ok: bool)
    requires row.0 < row.1 < |tags|
    ensures ok == RowParses(tags, row, spansOk)
  {
    var rowTags := tags[row.0..row.1 + 1];
    if !IsOpen(rowTags[0], "tr") || rowTags[0].selfClosing {
      return false;
    }
    var stack: seq<string>, active, i := [], false, 0;
    while i < |rowTags|
      invariant i <= |rowTags|
      invariant RowReads(rowTags, i, stack, active, spansOk) == RowReads(rowTags, 0, [], false, spansOk)
    {
      var tag := rowTags[i];
      if tag.kind.Open? && !tag.selfClosing {
        if (tag.name == "td" || tag.name == "th") && |stack| == 1 {
          if active || !spansOk(tag) {
            return false;
          }
          active := true;
        }
        stack := stack + [tag.name];
      } else if tag.kind.Close? {
        if stack == [] || stack[|stack| - 1] != tag.name {
          return false;
        }
        stack := stack[..|stack| - 1];
        if tag.name == "td" || tag.name == "th" {
          if !active {
            return false;
          }
          active := false;
        }
        if tag.name == "tr" {
          return stack == [] && i + 1 == |rowTags|;
        }
      }
      i := i + 1;
    }
    ok := false;
  }

  /** A text that reads as a row closes no other row on the way. */
  lemma {:induction false} NoInnerRow(tags: seq<Tag>, i: nat, stack: seq<string>, active: bool, spansOk: Tag -> bool,
                                      k: nat)
    requires i <= k < |tags| - 1 && RowReads(tags, i, stack, active, spansOk)
    ensures !IsClose(tags[k], "tr")
    decreases k - i
  {
    if i < k {
      var tag := tags[i];
      match tag.kind
      case OtherKind => NoInnerRow(tags, i + 1, stack, active, spansOk, k);
      case Open =>
        if tag.selfClosing {
          NoInnerRow(tags, i + 1, stack, active, spansOk, k);
        } else {
          NoInnerRow(tags, i + 1, stack + [tag.name],
                     active || ((tag.name == "td" || tag.name == "th") && |stack| == 1), spansOk, k);
        }
      case Close =>
        NoInnerRow(tags, i + 1, stack[..|stack| - 1], active && tag.name != "td" && tag.name != "th", spansOk, k);
    }
  }

  ghost predicate RowsParse(tags: seq<Tag>, doc: TableDocument, spansOk: Tag -> bool)
    requires IsDocument(tags, doc)
  {
    forall i :: 0 <= i < |doc.rows| ==> RowParses(tags, doc.rows[i], spansOk)
  }

  /** So if all rows of a table can be read, they lie one behind the other. */
  lemma RowsApart(tags: seq<Tag>, doc: TableDocument, spansOk: Tag -> bool, i: nat, j: nat)
    requires IsDocument(tags, doc) && RowsParse(tags, doc, spansOk) && i < j < |doc.rows|
    ensures doc.rows[i].1 < doc.rows[j].0
  {
    hide AllThere;
    var outer, inner := doc.rows[i], doc.rows[j];
    if Inside(inner, outer) {
      var rowTags := tags[outer.0..outer.1 + 1];
      assert IsClose(rowTags[inner.1 - outer.0], "tr");
      NoInnerRow(rowTags, 0, [], false, spansOk, inner.1 - outer.0);
    }
  }

  // ---------------------------------------------------------------- writing a table back

  /** A row as it stands now. */
  datatype TableRow = TableRow(raw: string, deleted: bool)

  type Range = (nat, nat)

  function RangesOf(tags: seq<Tag>, doc: TableDocument): (ranges: seq<Range>)
    requires forall i :: 0 <= i < |doc.rows| ==> doc.rows[i].0 < |tags| && doc.rows[i].1 < |tags|
    ensures |ranges| == |doc.rows|
  {
    seq(|doc.rows|, i requires 0 <= i < |doc.rows| => (tags[doc.rows[i].0].start, tags[doc.rows[i].1].end))
  }

  /** New rows go right before the end of the first `tbody`, or of the table. */
  function Insertion(tags: seq<Tag>, doc: TableDocument): nat
    requires doc.close < |tags| && (doc.tbody.Some? ==> doc.tbody.value.1 < |tags|)
  {
    if doc.tbody.Some? then tags[doc.tbody.value.1].start else tags[doc.close].start
  }

  /** The place for new rows is where the end of the first `tbody` starts, or that of the table if there is none. */
  lemma InsertsBeforeEnd(source: string, tags: seq<Tag>, blank: string -> bool, doc: TableDocument, mate: seq<nat>)
    requires TagsOf(source, tags) && IsDocument(tags, doc) && IsTable(source, tags, blank, mate)
    requires |mate| == doc.close + 1 && RowsPair(doc, mate)
    ensures forall j: nat :: IsFirstTbody(tags, mate, j) ==> Insertion(tags, doc) == tags[mate[j]].start
    ensures (forall j :: 0 <= j < |mate| ==> !Begins(tags[j], "tbody")) ==>
              Insertion(tags, doc) == tags[|mate| - 1].start
  {
    hide TagsOf, Nest;
    if doc.tbody.Some? {
      ElementBegins(source, tags, blank, mate, doc.tbody.value, "tbody");
    }
    LastCloses(source, tags, blank, mate);
  }

  ghost predicate IsFirstTbody(tags: seq<Tag>, mate: seq<nat>, j: nat) {
    && j < |mate| <= |tags| && mate[j] < |tags| && Begins(tags[j], "tbody")
    && forall i :: 0 <= i < j ==> !Begins(tags[i], "tbody")
  }

  /** The text of a row is all of its element, from its opening tag to its closing tag. */
  lemma RowIsWhole(source: string, tags: seq<Tag>, doc: TableDocument, k: nat)
    requires TagsOf(source, tags) && IsDocument(tags, doc) && k < |doc.rows|
    ensures var raw := RowsOf(source, RangesOf(tags, doc))[k].raw;
            var open, close := tags[doc.rows[k].0], tags[doc.rows[k].1];
            && open.start < open.end <= close.start < close.end <= |source|
            && |raw| == close.end - open.start
            && raw[..open.end - open.start] == source[open.start..open.end]
            && raw[close.start - open.start..] == source[close.start..close.end]
            && !RowsOf(source, RangesOf(tags, doc))[k].deleted
  {
    hide AllThere, Nest;
  }

  /** Ranges one behind the other within a text. */
  ghost predicate InSequence(ranges: seq<Range>, length: nat) {
    && (forall i :: 0 <= i < |ranges| ==> ranges[i].0 < ranges[i].1 <= length)
    && (forall i, j :: 0 <= i < j < |ranges| ==> ranges[i].1 <= ranges[j].0)
  }

  predicate Splits(range: Range, at: nat) {
    range.0 < at < range.1
  }

  /** The row ranges of a table that can be read are disjoint and in order. */
  lemma RangesInSequence(source: string, tags: seq<Tag>, doc: TableDocument, spansOk: Tag -> bool)
    requires TagsOf(source, tags) && IsDocument(tags, doc) && RowsParse(tags, doc, spansOk)
    ensures InSequence(RangesOf(tags, doc), |source|) && Insertion(tags, doc) <= |source|
  {
    hide AllThere, RowsParse;
    var ranges := RangesOf(tags, doc);
    forall i, j | 0 <= i < j < |ranges| ensures ranges[i].1 <= ranges[j].0 {
      RowsApart(tags, doc, spansOk, i, j);
    }
  }

  ghost predicate TbodyInRow(doc: TableDocument) {
    doc.tbody.Some? && exists i :: 0 <= i < |doc.rows| && Inside(doc.tbody.value, doc.rows[i])
  }

  /** The place for new rows is inside a row exactly when the first `tbody` is. */
  lemma InsertionOutsideRows(source: string, tags: seq<Tag>, doc: TableDocument)
    requires TagsOf(source, tags) && IsDocument(tags, doc)
    ensures TbodyInRow(doc) <==> exists i :: 0 <= i < |doc.rows| && Splits(RangesOf(tags, doc)[i], Insertion(tags, doc))
  {
    hide AllThere;
    var ranges, at := RangesOf(tags, doc), Insertion(tags, doc);
    if TbodyInRow(doc) {
      var i :| 0 <= i < |doc.rows| && Inside(doc.tbody.value, doc.rows[i]);
      assert Splits(ranges[i], at);
    }
    forall i | 0 <= i < |doc.rows| && Splits(ranges[i], at) ensures TbodyInRow(doc) {
      var row := doc.rows[i];
      assert doc.tbody.Some? ==> Nest(row, doc.tbody.value);
    }
  }

  function RowText(row: TableRow): string {
    if row.deleted then "" else row.raw
  }

  /** The texts of the rows from `i` on, one behind the other. */
  function Appended(rows: seq<TableRow>, i: nat): string
    requires i <= |rows|
    decreases |rows| - i
  {
    if i == |rows| then "" else RowText(rows[i]) + Appended(rows, i + 1)
  }

  function Slice(source: string, from: nat, upto: nat): string {
    if from <= upto <= |source| then source[from..upto] else ""
  }

  /** The text between two places with the ranges `i` to `j` in it replaced by their rows. */
  function Replaced(source: string, from: nat, upto: nat, ranges: seq<Range>, rows: seq<TableRow>, i: nat,
                    j: nat): string
    requires i <= j <= |ranges| <= |rows|
    decreases j - i
  {
    if i == j then Slice(source, from, upto)
    else
      var rest := Replaced(source, ranges[i].1, upto, ranges, rows, i + 1, j);
      Slice(source, from, ranges[i].0) + RowText(rows[i]) + rest
  }

  /** How many ranges start before a place. */
  function Before(ranges: seq<Range>, at: nat): (m: nat)
    ensures m <= |ranges|
    ensures m > 0 ==> ranges[m - 1].0 < at
    ensures m < |ranges| ==> ranges[m].0 >= at
  {
    if ranges == [] then 0
    else if ranges[|ranges| - 1].0 < at then |ranges|
    else Before(ranges[..|ranges| - 1], at)
  }

  /**
   The table with each row replaced by what it is now, or removed, and the rows beyond the original ones put in
   once, in order, at the insertion point; everything else is kept.
   */
  function Spliced(source: string, ranges: seq<Range>, at: nat, rows: seq<TableRow>): string
    requires |ranges| <= |rows|
  {
    var m := Before(ranges, at);
    Replaced(source, 0, at, ranges, rows, 0, m) + Appended(rows, |ranges|)
        + Replaced(source, at, |source|, ranges, rows, m, |ranges|)
  }

  datatype SpliceError = TooFewRows | SliceOutOfOrder

  /**
   Writes the table in one pass.  It fails when rows are missing, and otherwise exactly when the insertion point
   lies inside a row, where a slice of the text would end before it starts.
   */
  method Serialize(source: string, ranges: seq<Range>, at: nat, rows: seq<TableRow>)
    returns (r: Result<string, SpliceError>)
    requires InSequence(ranges, |source|) && at <= |source|
    ensures r == Err(TooFewRows) <==> |rows| < |ranges|
    ensures r == Err(SliceOutOfOrder) <==> |rows| >= |ranges| && SomeSplit(ranges, at)
    ensures r.Ok? ==> r.value == Spliced(source, ranges, at, rows)
  {
    if |rows| < |ranges| {
      return Err(TooFewRows);
    }
    hide InSequence, Appended, SomeSplit, Spliced, Progress;
    var output, inserted := "", false;
    RestAtStart(source, ranges, at, rows);
    for index := 0 to |ranges|
      invariant Progress(source, ranges, at, rows, index, inserted, output)
    {
      var written := SpliceRow(source, ranges, at, rows, index, inserted, output);
      if written.None? {
        return Err(SliceOutOfOrder);
      }
      output, inserted := written.value.0, written.value.1;
    }
    r := SpliceEnd(source, ranges, at, rows, inserted, output);
  }

  /** What the loop keeps: the rows are put in after the ranges before their place, and the output can be completed. */
  ghost predicate Progress(source: string, ranges: seq<Range>, at: nat, rows: seq<TableRow>, index: nat,
                           inserted: bool, output: string) {
    && index <= |ranges| <= |rows|
    && (if inserted then Before(ranges, at) < index && !SomeSplit(ranges, at) else index <= Before(ranges, at))
    && (!SomeSplit(ranges, at) ==>
        Completes(output, Rest(source, ranges, at, rows, index, inserted), Spliced(source, ranges, at, rows)))
  }

  /** One turn of the loop: the text up to a row and the row, with the new rows before it if this is their place. */
  method SpliceRow(source: string, ranges: seq<Range>, at: nat, rows: seq<TableRow>, index: nat, inserted: bool,
                   output: string)
    returns (r: Option<(string, bool)>)
    requires InSequence(ranges, |source|) && at <= |source| && index < |ranges| <= |rows|
    requires Progress(source, ranges, at, rows, index, inserted, output)
    ensures r.None? ==> SomeSplit(ranges, at)
    ensures r.Some? ==> Progress(source, ranges, at, rows, index + 1, r.value.1, r.value.0)
  {
    hide InSequence, Appended, Replaced, Slice, Before, Splits, SomeSplit, Rest, Spliced, RowText, Completes;
    RangeAt(source, ranges, at, index);
    var (start, end) := ranges[index];
    var cursor := Cursor(ranges, index);
    if !inserted && at <= start {
      if cursor > at {
        return None;
      }
      var longer := InsertRows(output, source, cursor, at, rows, |ranges|);
      longer := WriteRow(longer + source[at..start], source, start, start, rows[index]);
      InsertingStep(source, ranges, at, rows, index, output, longer, Spliced(source, ranges, at, rows));
      r := Some((longer, true));
    } else {
      var longer := WriteRow(output, source, cursor, start, rows[index]);
      if !SomeSplit(ranges, at) {
        PlainStep(source, ranges, at, rows, index, inserted, output, longer, Spliced(source, ranges, at, rows));
      }
      r := Some((longer, inserted));
    }
  }

  /** What is left after the last row. */
  method SpliceEnd(source: string, ranges: seq<Range>, at: nat, rows: seq<TableRow>, inserted: bool, output: string)
    returns (r: Result<string, SpliceError>)
    requires InSequence(ranges, |source|) && at <= |source| && |ranges| <= |rows|
    requires Progress(source, ranges, at, rows, |ranges|, inserted, output)
    ensures if SomeSplit(ranges, at) then r == Err(SliceOutOfOrder) else r == Ok(Spliced(source, ranges, at, rows))
  {
    hide InSequence, Appended, Replaced, Slice, Before, Splits, SomeSplit, Rest, Spliced, RowText, Completes;
    SplitAtEnd(source, ranges, at);
    var cursor := Cursor(ranges, |ranges|);
    if inserted {
      PlainEnd(source, ranges, at, rows, output, Spliced(source, ranges, at, rows));
      return Ok(output + source[cursor..]);
    }
    if cursor > at {
      return Err(SliceOutOfOrder);
    }
    var longer := InsertRows(output, source, cursor, at, rows, |ranges|);
    InsertingEnd(source, ranges, at, rows, output, longer, Spliced(source, ranges, at, rows));
    r := Ok(longer + source[at..]);
  }

  /** `rest` is what is missing from `output`. */
  predicate Completes(output: string, rest: string, whole: string) {
    output + rest == whole
  }

  lemma RestAtStart(source: string, ranges: seq<Range>, at: nat, rows: seq<TableRow>)
    requires |ranges| <= |rows|
    ensures Progress(source, ranges, at, rows, 0, false, "")
  {
    hide Appended, Before, Replaced;
  }

  lemma PlainStep(source: string, ranges: seq<Range>, at: nat, rows: seq<TableRow>, index: nat, inserted: bool,
                  before: string, after: string, whole: string)
    requires InSequence(ranges, |source|) && index < |ranges| <= |rows|
    requires if inserted then Before(ranges, at) < index else index < Before(ranges, at)
    requires Completes(before, Rest(source, ranges, at, rows, index, inserted), whole)
    requires Cursor(ranges, index) <= ranges[index].0 <= |source|
    requires after == before + source[Cursor(ranges, index)..ranges[index].0] + RowText(rows[index])
    ensures Completes(after, Rest(source, ranges, at, rows, index + 1, inserted), whole)
  {
    hide InSequence, Rest, RowText, Before;
    RestStep(source, ranges, at, rows, index, inserted);
  }

  lemma InsertingStep(source: string, ranges: seq<Range>, at: nat, rows: seq<TableRow>, index: nat,
                      before: string, after: string, whole: string)
    requires InSequence(ranges, |source|) && index < |ranges| <= |rows| && index == Before(ranges, at)
    requires Completes(before, Rest(source, ranges, at, rows, index, false), whole)
    requires Cursor(ranges, index) <= at <= ranges[index].0 <= |source|
    requires var start := ranges[index].0;
             after == before + source[Cursor(ranges, index)..at] + Appended(rows, |ranges|) + source[at..start]
                 + source[start..start] + RowText(rows[index])
    ensures Completes(after, Rest(source, ranges, at, rows, index + 1, true), whole)
  {
    hide InSequence, Rest, RowText, Before, Appended, Slice;
    var cursor, start := Cursor(ranges, index), ranges[index].0;
    RestStep(source, ranges, at, rows, index, false);
    PartSlice(source, cursor, at);
    PartSlice(source, at, start);
    InsertedRest(before, source[cursor..at], Appended(rows, |ranges|), source[at..start], source[start..start],
        RowText(rows[index]),
                 Rest(source, ranges, at, rows, index + 1, true));
  }

  lemma InsertedRest(output: string, kept: string, appended: string, more: string, nothing: string, text: string,
                     rest: string)
    requires nothing == ""
    ensures output + (kept + appended + (more + text + rest)) == output + kept + appended + more + nothing + text + rest
  {
    assert more + nothing == more;
    KeptRest(output + kept + appended, more, text, rest);
  }

  lemma InsertingEnd(source: string, ranges: seq<Range>, at: nat, rows: seq<TableRow>, before: string, after: string,
                     whole: string)
    requires |ranges| <= |rows| && Before(ranges, at) == |ranges| && Cursor(ranges, |ranges|) <= at <= |source|
    requires Completes(before, Rest(source, ranges, at, rows, |ranges|, false), whole)
    requires after == before + source[Cursor(ranges, |ranges|)..at] + Appended(rows, |ranges|)
    ensures after + source[at..] == whole
  {
    hide Rest, Before, Appended, Slice;
    var cursor := Cursor(ranges, |ranges|);
    RestAtEnd(source, ranges, at, rows, false);
    WholeSlice(source, at);
    PartSlice(source, cursor, at);
    KeptRest(before, source[cursor..at], Appended(rows, |ranges|), source[at..]);
  }

  lemma KeptRest(output: string, kept: string, text: string, rest: string)
    ensures output + (kept + text + rest) == output + kept + text + rest
  {
  }

  lemma WholeSlice(source: string, from: nat)
    requires from <= |source|
    ensures Slice(source, from, |source|) == source[from..]
  {
  }

  lemma PartSlice(source: string, from: nat, upto: nat)
    requires from <= upto <= |source|
    ensures Slice(source, from, upto) == source[from..upto]
  {
  }

  lemma PlainEnd(source: string, ranges: seq<Range>, at: nat, rows: seq<TableRow>, output: string, whole: string)
    requires |ranges| <= |rows| && Cursor(ranges, |ranges|) <= |source|
    requires Completes(output, Rest(source, ranges, at, rows, |ranges|, true), whole)
    ensures output + source[Cursor(ranges, |ranges|)..] == whole
  {
    hide Rest, Before, Appended;
    RestAtEnd(source, ranges, at, rows, true);
  }

  method WriteRow(output: string, source: string, cursor: nat, start: nat, row: TableRow) returns (longer: string)
    requires cursor <= start <= |source|
    ensures longer == output + source[cursor..start] + RowText(row)
  {
    longer := output + source[cursor..start];
    if !row.deleted {
      longer := longer + row.raw;
    }
  }

  method InsertRows(output: string, source: string, cursor: nat, at: nat, rows: seq<TableRow>, from: nat)
    returns (longer: string)
    requires cursor <= at <= |source| && from <= |rows|
    ensures longer == output + source[cursor..at] + Appended(rows, from)
  {
    longer := output + source[cursor..at];
    longer := AppendRows(longer, rows, from);
  }

  function Cursor(ranges: seq<Range>, index: nat): nat
    requires index <= |ranges|
  {
    if index == 0 then 0 else ranges[index - 1].1
  }

  /** What is still to be written when the ranges before `index` are done. */
  ghost function Rest(source: string, ranges: seq<Range>, at: nat, rows: seq<TableRow>, index: nat,
                      inserted: bool): string
    requires index <= |ranges| <= |rows| && (!inserted ==> index <= Before(ranges, at))
  {
    var m, cursor := Before(ranges, at), Cursor(ranges, index);
    if inserted then Replaced(source, cursor, |source|, ranges, rows, index, |ranges|)
    else Replaced(source, cursor, at, ranges, rows, index, m) + Appended(rows, |ranges|)
         + Replaced(source, at, |source|, ranges, rows, m, |ranges|)
  }

  /** Only the last range that starts before a place can be split by it. */
  lemma OnlyLastSplits(source: string, ranges: seq<Range>, at: nat)
    requires InSequence(ranges, |source|)
    ensures var m := Before(ranges, at); SomeSplit(ranges, at) <==> at < Cursor(ranges, m)
  {
    var m := Before(ranges, at);
    if SomeSplit(ranges, at) {
      var k :| 0 <= k < |ranges| && Splits(ranges[k], at);
    } else if m > 0 {
      assert !Splits(ranges[m - 1], at);
    }
  }

  lemma RangeAt(source: string, ranges: seq<Range>, at: nat, index: nat)
    requires InSequence(ranges, |source|) && index < |ranges|
    ensures Cursor(ranges, index) <= ranges[index].0 < ranges[index].1 <= |source|
    ensures index <= Before(ranges, at) ==> (at <= ranges[index].0 <==> index == Before(ranges, at))
    ensures index == Before(ranges, at) ==> (SomeSplit(ranges, at) <==> at < Cursor(ranges, index))
  {
    OnlyLastSplits(source, ranges, at);
    hide SomeSplit;
    var m := Before(ranges, at);
    if index < m {
      assert ranges[index].0 <= ranges[m - 1].0;
    }
  }

  lemma SplitAtEnd(source: string, ranges: seq<Range>, at: nat)
    requires InSequence(ranges, |source|)
    ensures Cursor(ranges, |ranges|) <= |source|
    ensures Before(ranges, at) == |ranges| ==> (SomeSplit(ranges, at) <==> at < Cursor(ranges, |ranges|))
  {
    OnlyLastSplits(source, ranges, at);
  }

  lemma RestStep(source: string, ranges: seq<Range>, at: nat, rows: seq<TableRow>, index: nat, inserted: bool)
    requires InSequence(ranges, |source|) && index < |ranges| <= |rows|
    requires if inserted then Before(ranges, at) < index else index <= Before(ranges, at)
    ensures var (start, end) := ranges[index];
            var cursor, text := Cursor(ranges, index), RowText(rows[index]);
            cursor <= start <= |source| &&
            Rest(source, ranges, at, rows, index, inserted) ==
            if !inserted && index == Before(ranges, at)
            then Slice(source, cursor, at) + Appended(rows, |ranges|)
                + (Slice(source, at, start) + text + Rest(source, ranges, at, rows, index + 1, true))
            else source[cursor..start] + text + Rest(source, ranges, at, rows, index + 1, inserted)
  {
    hide Appended, Before, Replaced, Slice, RowText, InSequence;
    RangeAt(source, ranges, at, index);
    var m, n, cursor := Before(ranges, at), |ranges|, Cursor(ranges, index);
    PartSlice(source, cursor, ranges[index].0);
    if inserted {
      ReplacedStep(source, cursor, |source|, ranges, rows, index, n);
    } else if index < m {
      ReplacedStep(source, cursor, at, ranges, rows, index, m);
      MoreKept(source[cursor..ranges[index].0]
          + RowText(rows[index]), Replaced(source, ranges[index].1, at, ranges, rows, index + 1, m),
               Appended(rows, n), Replaced(source, at, |source|, ranges, rows, m, n));
    } else {
      ReplacedNone(source, cursor, at, ranges, rows, m);
      ReplacedStep(source, at, |source|, ranges, rows, m, n);
    }
  }

  lemma MoreKept(kept: string, replaced: string, appended: string, rest: string)
    ensures kept + replaced + appended + rest == kept + (replaced + appended + rest)
  {
  }

  lemma ReplacedStep(source: string, from: nat, upto: nat, ranges: seq<Range>, rows: seq<TableRow>, i: nat, j: nat)
    requires i < j <= |ranges| <= |rows|
    ensures Replaced(source, from, upto, ranges, rows, i, j) ==
            Slice(source, from, ranges[i].0) + RowText(rows[i])
                + Replaced(source, ranges[i].1, upto, ranges, rows, i + 1, j)
  {
    hide Slice, RowText;
  }

  lemma ReplacedNone(source: string, from: nat, upto: nat, ranges: seq<Range>, rows: seq<TableRow>, i: nat)
    requires i <= |ranges| <= |rows|
    ensures Replaced(source, from, upto, ranges, rows, i, i) == Slice(source, from, upto)
  {
  }

  lemma RestAtEnd(source: string, ranges: seq<Range>, at: nat, rows: seq<TableRow>, inserted: bool)
    requires |ranges| <= |rows| && (!inserted ==> Before(ranges, at) == |ranges|)
    ensures Rest(source, ranges, at, rows, |ranges|, inserted) ==
            if inserted then Slice(source, Cursor(ranges, |ranges|), |source|)
            else Slice(source, Cursor(ranges, |ranges|), at) + Appended(rows, |ranges|) + Slice(source, at, |source|)
  {
    hide Appended, Before;
  }

  ghost predicate SomeSplit(ranges: seq<Range>, at: nat) {
    exists k :: 0 <= k < |ranges| && Splits(ranges[k], at)
  }

  method AppendRows(output: string, rows: seq<TableRow>, from: nat) returns (longer: string)
    requires from <= |rows|
    ensures longer == output + Appended(rows, from)
  {
    longer := output;
    for i := from to |rows|
      invariant longer + Appended(rows, i) == output + Appended(rows, from)
    {
      if !rows[i].deleted {
        longer := longer + rows[i].raw;
      }
    }
  }

  // ---------------------------------------------------------------- reading and writing back

  function RowsOf(source: string, ranges: seq<Range>): (rows: seq<TableRow>)
    ensures |rows| == |ranges|
  {
    seq(|ranges|, k requires 0 <= k < |ranges| => TableRow(Slice(source, ranges[k].0, ranges[k].1), false))
  }

  lemma {:induction false} ReplacedByItself(source: string, from: nat, upto: nat, ranges: seq<Range>, i: nat, j: nat)
    requires InSequence(ranges, |source|) && i <= j <= |ranges| && from <= upto <= |source|
    requires i < j ==> from <= ranges[i].0 && ranges[j - 1].1 <= upto
    ensures Replaced(source, from, upto, ranges, RowsOf(source, ranges), i, j) == source[from..upto]
    decreases j - i
  {
    hide Replaced, Slice, RowsOf;
    var rows := RowsOf(source, ranges);
    if i == j {
      ReplacedNone(source, from, upto, ranges, rows, i);
      PartSlice(source, from, upto);
    } else {
      var (start, end) := ranges[i];
      RangeWithin(source, ranges, i, j);
      ReplacedByItself(source, end, upto, ranges, i + 1, j);
      ReplacedStep(source, from, upto, ranges, rows, i, j);
      RowUntouched(source, ranges, i);
      PartSlice(source, from, start);
      assert source[from..upto] == source[from..start] + source[start..end] + source[end..upto];
    }
  }

  lemma RangeWithin(source: string, ranges: seq<Range>, i: nat, j: nat)
    requires InSequence(ranges, |source|) && i < j <= |ranges|
    ensures ranges[i].0 < ranges[i].1 <= ranges[j - 1].1 <= |source|
    ensures i + 1 < j ==> ranges[i].1 <= ranges[i + 1].0
  {
  }

  lemma RowUntouched(source: string, ranges: seq<Range>, i: nat)
    requires InSequence(ranges, |source|) && i < |ranges|
    ensures RowText(RowsOf(source, ranges)[i]) == source[ranges[i].0..ranges[i].1]
  {
  }

  lemma NothingAppended(rows: seq<TableRow>)
    ensures Appended(rows, |rows|) == ""
  {
  }

  /** Rows that were not touched give back the source. */
  lemma UntouchedGivesSource(source: string, ranges: seq<Range>, at: nat)
    requires InSequence(ranges, |source|) && at <= |source| && !SomeSplit(ranges, at)
    ensures Spliced(source, ranges, at, RowsOf(source, ranges)) == source
  {
    hide Replaced, SomeSplit, Appended;
    var m := Before(ranges, at);
    NothingAppended(RowsOf(source, ranges));
    OnlyLastSplits(source, ranges, at);
    OrderedAround(source, ranges, m);
    ReplacedByItself(source, 0, at, ranges, 0, m);
    ReplacedByItself(source, at, |source|, ranges, m, |ranges|);
    assert source == source[..at] + "" + source[at..];
  }

  lemma OrderedAround(source: string, ranges: seq<Range>, m: nat)
    requires InSequence(ranges, |source|) && m <= |ranges|
    ensures m < |ranges| ==> ranges[|ranges| - 1].1 <= |source|
    ensures Cursor(ranges, m) <= |source|
  {
  }

  /** What is read is a table with a row that cannot be read. */
  ghost predicate HasBadRow(source: string, tags: seq<Tag>, blank: string -> bool, spansOk: Tag -> bool)
    requires TagsOf(source, tags)
  {
    exists doc :: IsDocument(tags, doc) && ReadAs(source, tags, blank, doc) && !RowsParse(tags, doc, spansOk)
  }

  /** Reads a table whose rows can all be read, and nothing else. */
  method BuildTableState(source: string, tags: seq<Tag>, blank: string -> bool, spansOk: Tag -> bool)
    returns (r: Option<(TableDocument, seq<TableRow>)>)
    requires TagsOf(source, tags)
    ensures r.Some? ==>
        IsDocument(tags, r.value.0) && RowsParse(tags, r.value.0, spansOk) && ReadAs(source, tags, blank, r.value.0)
    ensures r.Some? ==> r.value.1 == RowsOf(source, RangesOf(tags, r.value.0))
    ensures r.None? ==> NoTable(source, tags, blank) || HasBadRow(source, tags, blank, spansOk)
  {
    hide RowParses, TagsOf, AllThere, Nest, ReadAs, NoTable;
    var document := ParseTable(source, tags, blank);
    if document.None? {
      return None;
    }
    var rows := document.value.rows;
    for i := 0 to |rows|
      invariant forall k :: 0 <= k < i ==> RowParses(tags, rows[k], spansOk)
    {
      var ok := ParseRow(tags, rows[i], spansOk);
      if !ok {
        return None;
      }
    }
    r := Some((document.value, RowsOf(source, RangesOf(tags, document.value))));
  }

  /**
   For a table that was read, writing it back fails exactly when its first `tbody` is inside a row; otherwise
   untouched rows give the source back.
   */
  lemma TableRoundTrip(source: string, tags: seq<Tag>, doc: TableDocument, spansOk: Tag -> bool)
    requires TagsOf(source, tags) && IsDocument(tags, doc) && RowsParse(tags, doc, spansOk)
    ensures InSequence(RangesOf(tags, doc), |source|) && Insertion(tags, doc) <= |source|
    ensures SomeSplit(RangesOf(tags, doc), Insertion(tags, doc)) <==> TbodyInRow(doc)
    ensures !TbodyInRow(doc) ==>
              Spliced(source, RangesOf(tags, doc), Insertion(tags, doc), RowsOf(source, RangesOf(tags, doc))) == source
  {
    hide Spliced, RowsOf, RowsParse, InSequence, AllThere;
    RangesInSequence(source, tags, doc, spansOk);
    InsertionOutsideRows(source, tags, doc);
    if !TbodyInRow(doc) {
      UntouchedGivesSource(source, RangesOf(tags, doc), Insertion(tags, doc));
    }
  }

  /** Reading does not rule that out: a row may hold the first `tbody`, as a stray child without cells. */
  lemma TbodyMayBeInRow(source: string, spansOk: Tag -> bool) returns (tags: seq<Tag>, doc: TableDocument)
    requires |source| == 6
    ensures TagsOf(source, tags) && IsDocument(tags, doc) && RowsParse(tags, doc, spansOk) && TbodyInRow(doc)
  {
    hide AllThere, RowReads;
    var row := [Tag(1, 2, Open, "tr", false), Tag(2, 3, Open, "tbody", false), Tag(3, 4, Close, "tbody", false),
        Tag(4, 5, Close, "tr", false)];
    tags := [Tag(0, 1, Open, "table", false)] + row + [Tag(5, 6, Close, "table", false)];
    doc := TableDocument([(1, 4)], Some((2, 3)), 5);
    assert tags[1..5] == row;
    StrayTbodyReads(row, spansOk);
    OneRowThere(tags, doc);
    assert Inside(doc.tbody.value, doc.rows[0]);
  }

  lemma StrayTbodyReads(row: seq<Tag>, spansOk: Tag -> bool)
    requires row == [Tag(1, 2, Open, "tr", false), Tag(2, 3, Open, "tbody", false), Tag(3, 4, Close, "tbody", false),
        Tag(4, 5, Close, "tr", false)]
    ensures RowReads(row, 0, [], false, spansOk)
  {
    assert RowReads(row, 4 - 1, ["tr"], false, spansOk);
    assert ["tr", "tbody"][..1] == ["tr"];
    assert RowReads(row, 2, ["tr", "tbody"], false, spansOk);
    assert ["tr"] + ["tbody"] == ["tr", "tbody"];
    assert RowReads(row, 1, ["tr"], false, spansOk);
    assert [] + ["tr"] == ["tr"];
  }

  lemma OneRowThere(tags: seq<Tag>, doc: TableDocument)
    requires |tags| == 6 && doc == TableDocument([(1, 4)], Some((2, 3)), 5)
    requires Begins(tags[1], "tr") && Begins(tags[2], "tbody") && IsClose(tags[4], "tr")
    requires tags[0].name == "table" && tags[3].name == "tbody" && tags[3].kind.Close?
    ensures AllThere(tags, doc)
  {
    assert (1, 4) in doc.rows;
    assert StartsOne(doc.rows, 1) && EndsOne(doc.rows, 4);
  }
}
