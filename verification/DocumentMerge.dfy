/**
 The passes over a whole document that join what pages and columns have cut: paragraphs that go on behind a
 figure, and lists of references that go on in the next list or on the next page.
 */
module DocumentMerge {
  import opened Wrappers
  import opened PageNodes

  // ---------------------------------------------------------------- paragraphs

  /** Whether the geometry and the texts of two blocks let the first go on in the second. */
  type CanMerge = (Block, Block) -> bool

  predicate IsText(node: Node) {
    node.Leaf? && node.block.kind == Text
  }

  /** The text that ends nearest before `index`, with nothing but visuals between. */
  function TextBefore(nodes: seq<Node>, index: nat): (found: Option<nat>)
    requires index <= |nodes|
    ensures found.Some? ==> found.value < index && IsText(nodes[found.value])
    ensures found.Some? ==> forall k :: found.value < k < index ==> nodes[k].Visual?
  {
    if index == 0 then None
    else if nodes[index - 1].Visual? then TextBefore(nodes, index - 1)
    else if IsText(nodes[index - 1]) then Some(index - 1)
    else None
  }

  /** The text that `index` goes on from. */
  function MergeTarget(nodes: seq<Node>, index: nat, canMerge: CanMerge): (found: Option<nat>)
    requires index < |nodes|
  {
    if !IsText(nodes[index]) || !nodes[index].block.mergePrev then None else
    var previous := TextBefore(nodes, index);
    if previous.Some? && canMerge(nodes[index].block, nodes[previous.value].block) then previous else None
  }

  function WithLines(node: Node, lines: seq<Line>): Node
    requires node.Leaf?
  {
    Leaf(node.block.(lines := lines))
  }

  /** The nodes after the texts from `n` back have been joined to the texts they go on from, the last first. */
  function MergedFrom(nodes: seq<Node>, n: nat, canMerge: CanMerge): (merged: seq<Node>)
    requires n <= |nodes|
    ensures |merged| == |nodes|
    decreases n
  {
    if n == 0 then nodes else
    var target := MergeTarget(nodes, n - 1, canMerge);
    if target.None? then MergedFrom(nodes, n - 1, canMerge) else
    MergedFrom(JoinedTo(nodes, target.value, n - 1), n - 1, canMerge)
  }

  function JoinedTo(nodes: seq<Node>, previous: nat, current: nat): (joined: seq<Node>)
    requires previous < current < |nodes| && nodes[previous].Leaf? && nodes[current].Leaf?
    ensures |joined| == |nodes|
  {
    nodes[previous := WithLines(nodes[previous], nodes[previous].block.lines + nodes[current].block.lines)]
         [current := WithLines(nodes[current], [])]
  }

  /** Joins the paragraphs of a page in place. */
  method MergeParaText(nodes: array<Node>, canMerge: CanMerge)
    modifies nodes
    ensures nodes[..] == MergedFrom(old(nodes[..]), nodes.Length, canMerge)
  {
    for n := nodes.Length downto 0
      invariant MergedFrom(nodes[..], n, canMerge) == MergedFrom(old(nodes[..]), nodes.Length, canMerge)
    {
      if nodes[n].Leaf? && nodes[n].block.kind == Text && nodes[n].block.mergePrev {
        var k := n;
        while k > 0 && nodes[k - 1].Visual?
          invariant k <= n && TextBefore(nodes[..], k) == TextBefore(nodes[..], n)
        {
          k := k - 1;
        }
        if k > 0 && nodes[k - 1].Leaf? && nodes[k - 1].block.kind == Text
            && canMerge(nodes[n].block, nodes[k - 1].block) {
          ghost var before := nodes[..];
          nodes[k - 1] := WithLines(nodes[k - 1], nodes[k - 1].block.lines + nodes[n].block.lines);
          nodes[n] := WithLines(nodes[n], []);
          assert nodes[..] == JoinedTo(before, k - 1, n);
        }
      }
    }
  }

  /** The lines of all texts of a page, in order. */
  function TextLines(nodes: seq<Node>, n: nat): seq<Line>
    requires n <= |nodes|
  {
    if n == 0 then []
    else TextLines(nodes, n - 1) + if IsText(nodes[n - 1]) then nodes[n - 1].block.lines else []
  }

  /** From the changed text on, the lines of the current text have come earlier; behind it all is as before. */
  lemma {:induction false} JoiningKeepsLines(nodes: seq<Node>, previous: nat, current: nat, n: nat)
    requires previous < current < |nodes| && IsText(nodes[previous]) && IsText(nodes[current]) && n <= |nodes|
    requires forall k :: previous < k < current ==> nodes[k].Visual?
    ensures TextLines(JoinedTo(nodes, previous, current), n) ==
            TextLines(nodes, n) + if previous < n <= current then nodes[current].block.lines else []
  {
    if n > 0 {
      JoiningKeepsLines(nodes, previous, current, n - 1);
    }
  }

  lemma {:induction false} MergingKeepsLines(nodes: seq<Node>, n: nat, canMerge: CanMerge)
    requires n <= |nodes|
    ensures TextLines(MergedFrom(nodes, n, canMerge), |nodes|) == TextLines(nodes, |nodes|)
    decreases n
  {
    if n > 0 {
      var target := MergeTarget(nodes, n - 1, canMerge);
      if target.None? {
        MergingKeepsLines(nodes, n - 1, canMerge);
      } else {
        JoiningKeepsLines(nodes, target.value, n - 1, |nodes|);
        MergingKeepsLines(JoinedTo(nodes, target.value, n - 1), n - 1, canMerge);
      }
    }
  }

  /** Only the lines of texts move; every node stays where it is. */
  predicate SameButLines(a: Node, b: Node) {
    a == b || (IsText(a) && b.Leaf? && a.block.(lines := []) == b.block.(lines := []))
  }

  /** The text pass loses no line, repeats none and keeps their order; nothing but text lines moves. */
  lemma {:induction false} TextPassConserves(nodes: seq<Node>, n: nat, canMerge: CanMerge, k: nat)
    requires n <= |nodes| && k < |nodes|
    ensures TextLines(MergedFrom(nodes, n, canMerge), |nodes|) == TextLines(nodes, |nodes|)
    ensures SameButLines(nodes[k], MergedFrom(nodes, n, canMerge)[k])
    decreases n
  {
    MergingKeepsLines(nodes, n, canMerge);
    if n > 0 {
      var target := MergeTarget(nodes, n - 1, canMerge);
      TextPassConserves(if target.None? then nodes else JoinedTo(nodes, target.value, n - 1), n - 1, canMerge, k);
    }
  }

  // ---------------------------------------------------------------- lists of references

  type Document = seq<seq<Node>>

  predicate IsRefList(node: Node) {
    node.List? && node.items != [] && node.refText
  }

  predicate NodeIsEmpty(node: Node) {
    match node
    case Leaf(block) => forall k :: 0 <= k < |block.lines| ==> block.lines[k] == []
    case List(_, _, items) => items == []
    case Visual(_, _, _, _) => false
    case Tombstone(_) => true
  }

  /** The last node of a page that is not empty, among the first `n`. */
  function LastIn(nodes: seq<Node>, n: nat): (found: Option<nat>)
    requires n <= |nodes|
    ensures found.Some? ==> found.value < n && !NodeIsEmpty(nodes[found.value])
    ensures forall k :: (if found.Some? then found.value + 1 else 0) <= k < n ==> NodeIsEmpty(nodes[k])
  {
    if n == 0 then None else if !NodeIsEmpty(nodes[n - 1]) then Some(n - 1) else LastIn(nodes, n - 1)
  }

  /** The last node that is not empty on the pages before `page`. */
  function LastSurviving(doc: Document, page: nat): (found: Option<(nat, nat)>)
    requires page <= |doc|
    ensures found.Some? ==> found.value.0 < page && found.value.1 < |doc[found.value.0]|
  {
    if page == 0 then None else
    var last := LastIn(doc[page - 1], |doc[page - 1]|);
    if last.Some? then Some((page - 1, last.value)) else LastSurviving(doc, page - 1)
  }

  /** The node a list may go on from: the one before it, or for the first of a page the last one that survives. */
  function PreviousOf(doc: Document, page: nat, index: nat): (found: Option<(nat, nat)>)
    requires page < |doc| && index < |doc[page]|
    ensures found.Some? ==> found.value.0 <= page && found.value.1 < |doc[found.value.0]|
    ensures found.Some? && found.value.0 == page ==> found.value.1 + 1 == index
  {
    if index > 0 then Some((page, index - 1)) else LastSurviving(doc, page)
  }

  /** The list that the list at a position goes on from. */
  function ListBefore(doc: Document, page: nat, index: nat): (found: Option<(nat, nat)>)
    requires page < |doc| && index < |doc[page]|
    ensures found.Some? ==> found.value.0 <= page && found.value.1 < |doc[found.value.0]|
    ensures found.Some? && found.value.0 == page ==> found.value.1 + 1 == index
    ensures found.Some? ==> IsRefList(doc[page][index]) && IsRefList(doc[found.value.0][found.value.1])
  {
    if !IsRefList(doc[page][index]) then None else
    var previous := PreviousOf(doc, page, index);
    if previous.Some? && IsRefList(doc[previous.value.0][previous.value.1]) then previous else None
  }

  function Crossing(items: seq<Block>): (crossing: seq<Block>)
    ensures |crossing| == |items|
    ensures forall k :: 0 <= k < |items| ==> crossing[k] == items[k].(crossPage := true)
  {
    seq(|items|, k requires 0 <= k < |items| => items[k].(crossPage := true))
  }

  function Gain(node: Node, items: seq<Block>): Node
    requires node.List?
  {
    node.(items := node.items + items)
  }

  function Put(doc: Document, page: nat, index: nat, node: Node): (put: Document)
    requires page < |doc| && index < |doc[page]|
    ensures |put| == |doc|
  {
    doc[page := doc[page][index := node]]
  }

  /** Moves the items of one list to another and leaves a tombstone; items that change page are marked. */
  function Moved(doc: Document, target: (nat, nat), page: nat, index: nat): Document
    requires page < |doc| && index < |doc[page]| && doc[page][index].List?
    requires target.0 < |doc| && target.1 < |doc[target.0]| && doc[target.0][target.1].List?
  {
    var node := doc[page][index];
    var items := if target.0 == page then node.items else Crossing(node.items);
    var gained := Put(doc, target.0, target.1, Gain(doc[target.0][target.1], items));
    gained[page := gained[page][index := Tombstone(node.marker.index)]]
  }

  function Stepped(doc: Document, page: nat, index: nat): Document
    requires page < |doc| && index < |doc[page]|
  {
    var before := ListBefore(doc, page, index);
    if before.None? then doc else Moved(doc, before.value, page, index)
  }

  // ---------------------------------------------------------------- items in document order

  predicate Earlier(p: nat, i: nat, q: nat, j: nat) {
    p < q || (p == q && i < j)
  }

  function NodeItems(node: Node): seq<Block> {
    if node.List? then node.items else []
  }

  /** Items without the mark that they changed page. */
  function Unmarked(items: seq<Block>): (unmarked: seq<Block>)
    ensures |unmarked| == |items|
    ensures forall k :: 0 <= k < |items| ==> unmarked[k] == items[k].(crossPage := false)
  {
    seq(|items|, k requires 0 <= k < |items| => items[k].(crossPage := false))
  }

  /** All list items before a position, in document order. */
  ghost function ItemsBefore(doc: Document, p: nat, i: nat): seq<Block>
    requires p <= |doc| && i <= (if p < |doc| then |doc[p]| else 0)
    decreases p, i
  {
    if i > 0 then ItemsBefore(doc, p, i - 1) + Unmarked(NodeItems(doc[p][i - 1]))
    else if p == 0 then [] else ItemsBefore(doc, p - 1, |doc[p - 1]|)
  }

  lemma {:induction false} EmptyAfterSurviving(doc: Document, page: nat, p: nat, k: nat)
    requires p < page <= |doc| && k < |doc[p]|
    requires var last := LastSurviving(doc, page); last.Some? ==> Earlier(last.value.0, last.value.1, p, k)
    ensures NodeItems(doc[p][k]) == []
    decreases page
  {
    if p < page - 1 {
      EmptyAfterSurviving(doc, page - 1, p, k);
    } else {
      assert NodeIsEmpty(doc[p][k]);
    }
  }

  /** Between a list and the one it goes on from there are no items. */
  lemma NoItemsBetween(doc: Document, page: nat, index: nat, p: nat, k: nat)
    requires page < |doc| && index < |doc[page]| && p < |doc| && k < |doc[p]|
    requires var before := ListBefore(doc, page, index); before.Some? && Earlier(before.value.0, before.value.1, p, k)
    requires Earlier(p, k, page, index)
    ensures NodeItems(doc[p][k]) == []
  {
    if index == 0 {
      EmptyAfterSurviving(doc, page, p, k);
    }
  }

  /** What `Moved` does at each position. */
  lemma MovedAt(doc: Document, target: (nat, nat), page: nat, index: nat, p: nat, i: nat)
    requires page < |doc| && index < |doc[page]| && doc[page][index].List?
    requires target.0 < |doc| && target.1 < |doc[target.0]| && doc[target.0][target.1].List? && target != (page, index)
    requires p < |doc| && i < |doc[p]|
    ensures var moved, node := Moved(doc, target, page, index), doc[page][index];
            && |moved| == |doc| && |moved[p]| == |doc[p]|
            && moved[p][i] == if (p, i) == (page, index) then Tombstone(node.marker.index)
                              else if (p, i) == target
                                  then Gain(doc[p][i], if p == page then node.items else Crossing(node.items))
                              else doc[p][i]
  {
  }

  lemma MovedShape(doc: Document, target: (nat, nat), page: nat, index: nat)
    requires page < |doc| && index < |doc[page]| && doc[page][index].List?
    requires target.0 < |doc| && target.1 < |doc[target.0]| && doc[target.0][target.1].List?
    ensures |Moved(doc, target, page, index)| == |doc|
    ensures forall p :: 0 <= p < |doc| ==> |Moved(doc, target, page, index)[p]| == |doc[p]|
  {
  }

  lemma UnmarkedGain(a: seq<Block>, b: seq<Block>)
    ensures Unmarked(a + b) == Unmarked(a) + Unmarked(b) && Unmarked(a + Crossing(b)) == Unmarked(a) + Unmarked(b)
  {
  }

  /** The moved items, where they come early: between the two lists. */
  ghost function Early(doc: Document, page: nat, index: nat, p: nat, i: nat): seq<Block>
    requires page < |doc| && index < |doc[page]| && ListBefore(doc, page, index).Some?
  {
    var target := ListBefore(doc, page, index).value;
    if Earlier(target.0, target.1, p, i) && !Earlier(page, index, p, i) then Unmarked(doc[page][index].items) else []
  }

  /** The items of one node before and after the move, without their marks. */
  lemma MovedNodeItems(doc: Document, page: nat, index: nat, p: nat, i: nat)
    requires page < |doc| && index < |doc[page]| && ListBefore(doc, page, index).Some?
    requires p < |doc| && i < |doc[p]|
    ensures var target := ListBefore(doc, page, index).value; var moved := Moved(doc, target, page, index);
            && |moved| == |doc| && |moved[p]| == |doc[p]|
            && var items, now := Unmarked(NodeItems(doc[p][i])), Unmarked(NodeItems(moved[p][i]));
               Early(doc, page, index, p, i) + now == items + Early(doc, page, index, p, i + 1)
  {
    hide LastSurviving, LastIn, Moved;
    var target := ListBefore(doc, page, index).value;
    MovedAt(doc, target, page, index, p, i);
    if (p, i) == target {
      UnmarkedGain(doc[p][i].items, doc[page][index].items);
    } else if Earlier(target.0, target.1, p, i) && Earlier(p, i, page, index) {
      NoItemsBetween(doc, page, index, p, i);
    }
  }

  lemma Regroup(before: seq<Block>, early: seq<Block>, now: seq<Block>, items: seq<Block>, next: seq<Block>)
    requires early + now == items + next
    ensures before + early + now == before + items + next
  {
    assert before + early + now == before + (early + now);
  }

  lemma EarlyWraps(doc: Document, page: nat, index: nat, p: nat)
    requires page < |doc| && index < |doc[page]| && ListBefore(doc, page, index).Some? && 0 < p <= |doc|
    ensures Early(doc, page, index, p - 1, |doc[p - 1]|) == Early(doc, page, index, p, 0)
  {
    hide ListBefore;
  }

  lemma EarlyStart(doc: Document, page: nat, index: nat)
    requires page < |doc| && index < |doc[page]| && ListBefore(doc, page, index).Some?
    ensures Early(doc, page, index, 0, 0) == []
  {
  }

  /** Between the two lists the moved items come early; everywhere else the items before a position are the same. */
  lemma {:induction false} MovingKeepsItems(doc: Document, page: nat, index: nat, p: nat, i: nat)
    requires page < |doc| && index < |doc[page]| && ListBefore(doc, page, index).Some?
    requires p <= |doc| && i <= (if p < |doc| then |doc[p]| else 0)
    ensures var target := ListBefore(doc, page, index).value; var moved := Moved(doc, target, page, index);
            && |moved| == |doc| && (p < |doc| ==> |moved[p]| == |doc[p]|)
            && ItemsBefore(moved, p, i) == ItemsBefore(doc, p, i) + Early(doc, page, index, p, i)
    decreases p, i
  {
    hide LastSurviving, LastIn, Moved, Unmarked, ListBefore, NodeItems, Early;
    var target := ListBefore(doc, page, index).value;
    MovedShape(doc, target, page, index);
    if i > 0 {
      MovingKeepsItems(doc, page, index, p, i - 1);
      MovedNodeItems(doc, page, index, p, i - 1);
      var items := Unmarked(NodeItems(doc[p][i - 1]));
      var now := Unmarked(NodeItems(Moved(doc, target, page, index)[p][i - 1]));
      Regroup(ItemsBefore(doc, p, i - 1), Early(doc, page, index, p, i - 1), now, items, Early(doc, page, index, p, i));
    } else if p > 0 {
      MovingKeepsItems(doc, page, index, p - 1, |doc[p - 1]|);
      EarlyWraps(doc, page, index, p);
    } else {
      EarlyStart(doc, page, index);
    }
  }

  // ---------------------------------------------------------------- what the pass keeps

  ghost predicate SameShape(was: Document, now: Document) {
    |now| == |was| && forall p :: 0 <= p < |was| ==> |now[p]| == |was[p]|
  }

  /** A list of references has gained items at its end, or has given its items away; anything else is as it was. */
  predicate Changed(was: Node, now: Node) {
    || now == was
    || (IsRefList(was) && now == Tombstone(was.marker.index))
    || (IsRefList(was) && now.List? && was.items <= now.items && now == was.(items := now.items))
  }

  ghost predicate NodesChanged(was: Document, now: Document, page: nat, index: nat) {
    SameShape(was, now) &&
    forall p, i :: 0 <= p < |was| && 0 <= i < |was[p]| ==>
      Changed(was[p][i], now[p][i]) && (!Earlier(p, i, page, index) ==> now[p][i] == was[p][i])
  }

  /** No list of references before the position goes on from another. */
  ghost predicate Settled(now: Document, page: nat, index: nat) {
    forall p, i :: 0 <= p < |now| && 0 <= i < |now[p]| && Earlier(p, i, page, index) ==> ListBefore(now, p, i).None?
  }

  ghost predicate OnPage(doc: Document, p: nat, item: Block) {
    p < |doc| && exists i :: 0 <= i < |doc[p]| && item in NodeItems(doc[p][i])
  }

  /** The item was on the page before, or on a later page and is marked for it. */
  ghost predicate ComesFrom(was: Document, p: nat, item: Block) {
    OnPage(was, p, item) || exists q, before :: p < q && OnPage(was, q, before) && item == before.(crossPage := true)
  }

  ghost predicate Marked(was: Document, now: Document) {
    forall p, i, item :: 0 <= p < |now| && 0 <= i < |now[p]| && item in NodeItems(now[p][i]) ==> ComesFrom(was, p, item)
  }

  // ---------------------------------------------------------------- which lists are joined

  /**
   Which lists go on from another, told from the document as it was: the node before is a list of references that
   does not go on from another itself.  Before the first node of a page is the last one left standing.
   */
  ghost predicate Joins(doc: Document, p: nat, i: nat)
    requires p < |doc| && i < |doc[p]|
    decreases p, i, 1
  {
    && IsRefList(doc[p][i])
    && if i > 0 then IsRefList(doc[p][i - 1]) && !Joins(doc, p, i - 1)
       else
         var last := StandingBefore(doc, p);
         last.Some? && IsRefList(doc[last.value.0][last.value.1])
  }

  /** The last node on an earlier page that is neither empty nor joined to another. */
  ghost function StandingBefore(doc: Document, page: nat): (found: Option<(nat, nat)>)
    requires page <= |doc|
    ensures found.Some? ==> found.value.0 < page && found.value.1 < |doc[found.value.0]|
    decreases page, 0, 0
  {
    if page == 0 then None else
    var last := StandingIn(doc, page - 1, |doc[page - 1]|);
    if last.Some? then Some((page - 1, last.value)) else StandingBefore(doc, page - 1)
  }

  ghost function StandingIn(doc: Document, p: nat, n: nat): (found: Option<nat>)
    requires p < |doc| && n <= |doc[p]|
    ensures found.Some? ==> found.value < n && !Joins(doc, p, found.value)
    decreases p, n, 0
  {
    if n == 0 then None
    else if !NodeIsEmpty(doc[p][n - 1]) && !Joins(doc, p, n - 1) then Some(n - 1)
    else StandingIn(doc, p, n - 1)
  }

  /** What a list gains from the first lists of later pages, up to a page. */
  ghost function Across(doc: Document, q: nat, k: nat, page: nat): seq<Block>
    requires q < |doc| && k < |doc[q]| && page <= |doc|
    decreases page
  {
    if page <= q + 1 then [] else
    var first := page - 1;
    Across(doc, q, k, first) +
    if doc[first] != [] && Joins(doc, first, 0) && StandingBefore(doc, first) == Some((q, k))
    then Crossing(doc[first][0].items) else []
  }

  /** A node once all lists before a position have been looked at. */
  ghost function ExpectedNode(doc: Document, q: nat, k: nat, page: nat, index: nat): Node
    requires q < |doc| && k < |doc[q]| && page <= |doc| && (index > 0 ==> page < |doc|)
  {
    var node := doc[q][k];
    if !IsRefList(node) then node
    else if Joins(doc, q, k) && Earlier(q, k, page, index) then Tombstone(node.marker.index)
    else
      var next := if k + 1 < |doc[q]| && Joins(doc, q, k + 1) && Earlier(q, k + 1, page, index)
                  then doc[q][k + 1].items else [];
      Gain(node, next + Across(doc, q, k, if index > 0 then page + 1 else page))
  }

  ghost predicate AsExpected(was: Document, now: Document, page: nat, index: nat)
    requires page <= |was| && (index > 0 ==> page < |was|)
  {
    SameShape(was, now) &&
    forall q, k :: 0 <= q < |was| && 0 <= k < |was[q]| ==> now[q][k] == ExpectedNode(was, q, k, page, index)
  }

  lemma ExpectedAt(was: Document, now: Document, page: nat, index: nat, q: nat, k: nat)
    requires page <= |was| && (index > 0 ==> page < |was|) && AsExpected(was, now, page, index)
    requires q < |was| && k < |was[q]|
    ensures |now| == |was| && |now[q]| == |was[q]| && now[q][k] == ExpectedNode(was, q, k, page, index)
  {
  }

  /** A node that has not been looked at is as it was. */
  lemma NotYet(doc: Document, q: nat, k: nat, page: nat, index: nat)
    requires q < |doc| && k < |doc[q]| && page <= |doc| && (index > 0 ==> page < |doc|)
    requires !Earlier(q, k, page, index)
    ensures ExpectedNode(doc, q, k, page, index) == doc[q][k]
  {
    hide Joins, StandingBefore;
    if IsRefList(doc[q][k]) {
      assert doc[q][k].items + ([] + []) == doc[q][k].items;
    }
  }

  /** Nodes of earlier pages are empty by now if they were, or have been joined. */
  lemma EmptyByNow(was: Document, now: Document, page: nat, q: nat, k: nat)
    requires page <= |was| && AsExpected(was, now, page, 0) && q < page && k < |was[q]|
    ensures |now| == |was| && |now[q]| == |was[q]|
    ensures NodeIsEmpty(now[q][k]) <==> NodeIsEmpty(was[q][k]) || Joins(was, q, k)
    ensures IsRefList(now[q][k]) <==> IsRefList(was[q][k]) && !Joins(was, q, k)
  {
    hide StandingBefore, Across, AsExpected;
    ExpectedAt(was, now, page, 0, q, k);
  }

  lemma {:induction false} StandingInNow(was: Document, now: Document, page: nat, q: nat, n: nat)
    requires page < |was| && AsExpected(was, now, page, 0) && q < page && n <= |was[q]|
    ensures |now| == |was| && |now[q]| == |was[q]| && LastIn(now[q], n) == StandingIn(was, q, n)
  {
    hide AsExpected, Joins, NodeIsEmpty;
    SameShapeOf(was, now, page, 0, q);
    if n > 0 {
      EmptyByNow(was, now, page, q, n - 1);
      StandingInNow(was, now, page, q, n - 1);
    }
  }

  lemma SameShapeOf(was: Document, now: Document, page: nat, index: nat, q: nat)
    requires page <= |was| && (index > 0 ==> page < |was|) && AsExpected(was, now, page, index) && q < |was|
    ensures |now| == |was| && |now[q]| == |was[q]|
  {
  }

  lemma {:induction false} StandingNow(was: Document, now: Document, page: nat, q: nat)
    requires page < |was| && AsExpected(was, now, page, 0) && q <= page
    ensures |now| == |was| && LastSurviving(now, q) == StandingBefore(was, q)
  {
    hide AsExpected, Joins, NodeIsEmpty, LastIn, StandingIn;
    SameShapeOf(was, now, page, 0, page);
    if q > 0 {
      SameShapeOf(was, now, page, 0, q - 1);
      StandingInNow(was, now, page, q - 1, |was[q - 1]|);
      StandingNow(was, now, page, q - 1);
    }
  }

  /** The list the code finds to go on from is there exactly when the document as it was says so. */
  lemma FindsAsExpected(was: Document, now: Document, page: nat, index: nat)
    requires page < |was| && index < |was[page]| && AsExpected(was, now, page, index)
    ensures |now| == |was| && |now[page]| == |was[page]| && now[page][index] == was[page][index]
    ensures ListBefore(now, page, index).Some? <==> Joins(was, page, index)
    ensures Joins(was, page, index) ==>
        ListBefore(now, page, index) == if index > 0 then Some((page, index - 1)) else StandingBefore(was, page)
  {
    hide AsExpected, Across, StandingBefore, LastSurviving, NodeIsEmpty;
    ExpectedAt(was, now, page, index, page, index);
    NotYet(was, page, index, page, index);
    if index > 0 {
      ExpectedAt(was, now, page, index, page, index - 1);
    } else {
      StandingNow(was, now, page, page);
      var last := StandingBefore(was, page);
      if last.Some? {
        EmptyByNow(was, now, page, last.value.0, last.value.1);
        StandingNotJoined(was, page);
      }
    }
  }

  lemma {:induction false} StandingNotJoined(doc: Document, page: nat)
    requires page <= |doc| && StandingBefore(doc, page).Some?
    ensures var last := StandingBefore(doc, page).value; !Joins(doc, last.0, last.1)
  {
    hide Joins;
    if StandingIn(doc, page - 1, |doc[page - 1]|).None? {
      StandingNotJoined(doc, page - 1);
    }
  }

  lemma NoneAcross(doc: Document, q: nat, k: nat, page: nat)
    requires q < |doc| && k < |doc[q]| && page <= q + 1 && page <= |doc|
    ensures Across(doc, q, k, page) == []
  {
  }

  lemma AcrossNext(doc: Document, q: nat, k: nat, page: nat)
    requires q < page < |doc| && k < |doc[q]| && doc[page] != []
    ensures Across(doc, q, k, page + 1) == Across(doc, q, k, page) +
              if Joins(doc, page, 0) && StandingBefore(doc, page) == Some((q, k)) then Crossing(doc[page][0].items)
              else []
  {
  }

  lemma GainMore(node: Node, next: seq<Block>, across: seq<Block>, more: seq<Block>)
    requires node.List?
    ensures Gain(node, next + (across + more)) == Gain(Gain(node, next + across), more)
  {
    assert node.items + (next + (across + more)) == (node.items + (next + across)) + more;
  }

  /** A list on an earlier page gains what the first list of this page gives. */
  lemma FirstMoves(doc: Document, q: nat, k: nat, page: nat)
    requires q < page < |doc| && k < |doc[q]| && doc[page] != []
    ensures var before, after := ExpectedNode(doc, q, k, page, 0), ExpectedNode(doc, q, k, page, 1);
            if Joins(doc, page, 0) && StandingBefore(doc, page) == Some((q, k))
            then before.List? && after == Gain(before, Crossing(doc[page][0].items)) else after == before
  {
    hide Across, Joins, StandingBefore, NodeIsEmpty, Crossing, Gain;
    AcrossNext(doc, q, k, page);
    JoinsIsList(doc, page, 0);
    if k + 1 < |doc[q]| {
      JoinsIsList(doc, q, k + 1);
    }
    var more := if Joins(doc, page, 0) && StandingBefore(doc, page) == Some((q, k)) then Crossing(doc[page][0].items)
                else [];
    assert Across(doc, q, k, page) + [] == Across(doc, q, k, page);
    if Joins(doc, page, 0) && StandingBefore(doc, page) == Some((q, k)) {
      StandingNotJoined(doc, page);
      JoinsToList(doc, page);
    }
    if IsRefList(doc[q][k]) && !Joins(doc, q, k) {
      var next := if k + 1 < |doc[q]| && Joins(doc, q, k + 1) then doc[q][k + 1].items else [];
      GainMore(doc[q][k], next, Across(doc, q, k, page), more);
      GainList(doc[q][k], next + Across(doc, q, k, page));
    }
  }

  lemma GainList(node: Node, items: seq<Block>)
    requires node.List?
    ensures Gain(node, items).List?
  {
  }

  lemma JoinsToList(doc: Document, page: nat)
    requires page < |doc| && doc[page] != [] && Joins(doc, page, 0)
    ensures var last := StandingBefore(doc, page); last.Some? && IsRefList(doc[last.value.0][last.value.1])
  {
  }

  /** A list gains what the next one on its page gives. */
  lemma NextMoves(doc: Document, page: nat, index: nat)
    requires page < |doc| && 0 < index < |doc[page]|
    ensures var before, after := ExpectedNode(doc, page, index - 1, page, index),
                                 ExpectedNode(doc, page, index - 1, page, index + 1);
            if Joins(doc, page, index) then before.List? && after == Gain(before, doc[page][index].items)
            else after == before
  {
    hide Across, StandingBefore, NodeIsEmpty;
    NoneAcross(doc, page, index - 1, page + 1);
    var node := doc[page][index - 1];
    if Joins(doc, page, index) {
      assert (node.items + ([] + [])) + doc[page][index].items == node.items + (doc[page][index].items + []);
    }
  }

  /** A list that goes on from another is gone; one that does not is as it was. */
  lemma SelfMoves(doc: Document, page: nat, index: nat)
    requires page < |doc| && index < |doc[page]|
    ensures var after := ExpectedNode(doc, page, index, page, index + 1);
            after == if Joins(doc, page, index) then Tombstone(doc[page][index].marker.index)
                     else ExpectedNode(doc, page, index, page, index)
  {
    hide Across, StandingBefore, NodeIsEmpty;
    NoneAcross(doc, page, index, page + 1);
    NoneAcross(doc, page, index, page);
    JoinsIsList(doc, page, index);
  }

  lemma JoinsIsList(doc: Document, p: nat, i: nat)
    requires p < |doc| && i < |doc[p]|
    ensures Joins(doc, p, i) ==> IsRefList(doc[p][i])
  {
  }

  lemma OthersStay(doc: Document, q: nat, k: nat, page: nat, index: nat)
    requires q < |doc| && k < |doc[q]| && page < |doc| && index < |doc[page]|
    requires (q, k) != (page, index) && (q, k + 1) != (page, index) && !(index == 0 && q < page)
    ensures ExpectedNode(doc, q, k, page, index) == ExpectedNode(doc, q, k, page, index + 1)
  {
    hide Across, StandingBefore, NodeIsEmpty, Joins;
    if index == 0 {
      NoneAcross(doc, q, k, page + 1);
      NoneAcross(doc, q, k, page);
    }
  }

  /** What looking at one more list changes at a node. */
  lemma ExpectedMoves(doc: Document, q: nat, k: nat, page: nat, index: nat)
    requires q < |doc| && k < |doc[q]| && page < |doc| && index < |doc[page]|
    ensures var before, after := ExpectedNode(doc, q, k, page, index), ExpectedNode(doc, q, k, page, index + 1);
            var target := if index > 0 then Some((page, index - 1)) else StandingBefore(doc, page);
            if !Joins(doc, page, index) then after == before
            else if (q, k) == (page, index) then after == Tombstone(doc[page][index].marker.index)
            else if target == Some((q, k)) then
              before.List? && after == Gain(before, if q == page then doc[page][index].items
                                                    else Crossing(doc[page][index].items))
            else after == before
  {
    hide ExpectedNode, Joins, StandingBefore, Crossing, Gain, IsRefList;
    JoinsIsList(doc, page, index);
    if (q, k) == (page, index) {
      SelfMoves(doc, page, index);
    } else if (q, k + 1) == (page, index) {
      NextMoves(doc, page, index);
    } else if index == 0 && q < page {
      FirstMoves(doc, q, k, page);
    } else {
      OthersStay(doc, q, k, page, index);
    }
  }

  lemma StepExpected(was: Document, now: Document, page: nat, index: nat)
    requires page < |was| && index < |was[page]| && AsExpected(was, now, page, index)
    ensures |now| == |was| && |now[page]| == |was[page]|
    ensures AsExpected(was, Stepped(now, page, index), page, index + 1)
  {
    hide Moved, ListBefore, Joins, StandingBefore, ExpectedNode, Across;
    FindsAsExpected(was, now, page, index);
    var before, after := ListBefore(now, page, index), Stepped(now, page, index);
    if before.Some? {
      MovedShape(now, before.value, page, index);
    }
    forall q, k | 0 <= q < |was| && 0 <= k < |was[q]|
      ensures after[q][k] == ExpectedNode(was, q, k, page, index + 1)
    {
      ExpectedMoves(was, q, k, page, index);
      if before.Some? {
        MovedAt(now, before.value, page, index, q, k);
      }
    }
  }

  lemma NextPageExpected(was: Document, now: Document, page: nat)
    requires page < |was| && AsExpected(was, now, page, |was[page]|)
    ensures AsExpected(was, now, page + 1, 0)
  {
    hide Joins, StandingBefore, Crossing;
    forall q, k | 0 <= q < |was| && 0 <= k < |was[q]|
      ensures ExpectedNode(was, q, k, page + 1, 0) == ExpectedNode(was, q, k, page, |was[page]|)
    {
      if was[page] == [] && page > q {
        assert Across(was, q, k, page + 1) == Across(was, q, k, page) + [];
      }
    }
  }

  lemma StartExpected(doc: Document)
    ensures AsExpected(doc, doc, 0, 0)
  {
    hide Joins, StandingBefore, ExpectedNode;
    forall q, k | 0 <= q < |doc| && 0 <= k < |doc[q]| ensures ExpectedNode(doc, q, k, 0, 0) == doc[q][k] {
      NotYet(doc, q, k, 0, 0);
    }
  }

  ghost predicate Progress(was: Document, now: Document, page: nat, index: nat)
    requires page <= |was| && (index > 0 ==> page < |was|)
  {
    && AsExpected(was, now, page, index)
    && NodesChanged(was, now, page, index)
    && Settled(now, page, index)
    && ItemsBefore(now, |now|, 0) == ItemsBefore(was, |was|, 0)
    && Marked(was, now)
  }

  lemma StepNodes(was: Document, now: Document, page: nat, index: nat)
    requires NodesChanged(was, now, page, index) && page < |now| && index < |now[page]|
    ensures NodesChanged(was, Stepped(now, page, index), page, index + 1)
  {
    hide Moved, ListBefore;
    var before := ListBefore(now, page, index);
    if before.Some? {
      MovedShape(now, before.value, page, index);
      forall p, i | 0 <= p < |was| && 0 <= i < |was[p]|
        ensures Changed(was[p][i], Stepped(now, page, index)[p][i])
        ensures !Earlier(p, i, page, index + 1) ==> Stepped(now, page, index)[p][i] == was[p][i]
      {
        MovedAt(now, before.value, page, index, p, i);
        assert Changed(was[p][i], now[p][i]);
      }
    }
  }

  /**
   Emptiness of the pages before decides which node is the last; a list that gains items is not empty before or
   after.
   */
  lemma {:induction false} SurvivingStays(a: Document, b: Document, page: nat)
    requires SameShape(a, b) && page <= |a|
    requires forall p, i :: 0 <= p < page && 0 <= i < |a[p]| ==> NodeIsEmpty(a[p][i]) == NodeIsEmpty(b[p][i])
    ensures LastSurviving(a, page) == LastSurviving(b, page)
  {
    if page > 0 {
      SurvivingStays(a, b, page - 1);
      LastInStays(a[page - 1], b[page - 1], |a[page - 1]|);
    }
  }

  lemma {:induction false} LastInStays(a: seq<Node>, b: seq<Node>, n: nat)
    requires |a| == |b| && n <= |a| && forall i :: 0 <= i < n ==> NodeIsEmpty(a[i]) == NodeIsEmpty(b[i])
    ensures LastIn(a, n) == LastIn(b, n)
  {
    if n > 0 {
      LastInStays(a, b, n - 1);
    }
  }

  lemma StepSettled(now: Document, page: nat, index: nat)
    requires Settled(now, page, index) && page < |now| && index < |now[page]|
    ensures Settled(Stepped(now, page, index), page, index + 1)
  {
    var before, after := ListBefore(now, page, index), Stepped(now, page, index);
    if before.None? {
      assert forall p, i :: 0 <= p < |now| && 0 <= i < |now[p]| && Earlier(p, i, page, index + 1) ==>
        Earlier(p, i, page, index) || (p, i) == (page, index);
    } else {
      hide LastSurviving, LastIn, Moved;
      MovedShape(now, before.value, page, index);
      forall p, i | 0 <= p < |now| && 0 <= i < |now[p]|
        ensures |after| == |now| && |after[p]| == |now[p]|
        ensures (p, i) != (page, index) ==>
            NodeIsEmpty(after[p][i]) == NodeIsEmpty(now[p][i]) && IsRefList(after[p][i]) == IsRefList(now[p][i])
        ensures (p, i) == (page, index) ==> !IsRefList(after[p][i])
      {
        MovedAt(now, before.value, page, index, p, i);
      }
      forall p, i | 0 <= p < |after| && 0 <= i < |after[p]| && Earlier(p, i, page, index + 1)
          ensures ListBefore(after, p, i).None? {
        if Earlier(p, i, page, index) {
          SurvivingStays(now, after, p);
          assert ListBefore(now, p, i).None?;
        }
      }
    }
  }

  lemma StepItems(now: Document, page: nat, index: nat)
    requires page < |now| && index < |now[page]|
    ensures var after := Stepped(now, page, index); ItemsBefore(after, |after|, 0) == ItemsBefore(now, |now|, 0)
  {
    if ListBefore(now, page, index).Some? {
      MovingKeepsItems(now, page, index, |now|, 0);
    }
  }

  lemma StepMarked(was: Document, now: Document, page: nat, index: nat)
    requires NodesChanged(was, now, page, index) && Marked(was, now) && page < |now| && index < |now[page]|
    ensures Marked(was, Stepped(now, page, index))
  {
    hide Moved, ListBefore;
    var before, after := ListBefore(now, page, index), Stepped(now, page, index);
    if before.Some? {
      MovedShape(now, before.value, page, index);
      forall p, i, item | 0 <= p < |after| && 0 <= i < |after[p]| && item in NodeItems(after[p][i])
          ensures ComesFrom(was, p, item) {
        MovedAt(now, before.value, page, index, p, i);
        if item !in NodeItems(now[p][i]) {
          ItemMoves(was, now, page, index, p, item);
        }
      }
    }
  }

  lemma ItemMoves(was: Document, now: Document, page: nat, index: nat, p: nat, item: Block)
    requires NodesChanged(was, now, page, index) && page < |now| && index < |now[page]| && now[page][index].List?
    requires p <= page && item in (if p == page then now[page][index].items else Crossing(now[page][index].items))
    ensures ComesFrom(was, p, item)
  {
    assert now[page][index] == was[page][index];
    if p < page {
      var k :| 0 <= k < |now[page][index].items| && Crossing(now[page][index].items)[k] == item;
      var original := was[page][index].items[k];
      assert original in NodeItems(was[page][index]) && OnPage(was, page, original);
    } else {
      assert item in NodeItems(was[page][index]);
    }
  }

  lemma StepKeepsProgress(was: Document, now: Document, page: nat, index: nat)
    requires page < |was| && Progress(was, now, page, index) && page < |now| && index < |now[page]|
    ensures Progress(was, Stepped(now, page, index), page, index + 1)
  {
    hide AsExpected, NodesChanged, Settled, Marked, Stepped, ItemsBefore;
    SameShapeOf(was, now, page, index, page);
    StepExpected(was, now, page, index);
    StepNodes(was, now, page, index);
    StepSettled(now, page, index);
    StepItems(now, page, index);
    StepMarked(was, now, page, index);
  }

  lemma NextPage(was: Document, now: Document, page: nat)
    requires page < |was| == |now| && Progress(was, now, page, |now[page]|)
    ensures Progress(was, now, page + 1, 0)
  {
    hide ListBefore, ItemsBefore, ComesFrom, AsExpected;
    SameShapeOf(was, now, page, |now[page]|, page);
    NextPageExpected(was, now, page);
  }

  lemma NothingMergedYet(doc: Document)
    ensures Progress(doc, doc, 0, 0)
  {
    hide ListBefore, ItemsBefore, AsExpected;
    StartExpected(doc);
    forall p, i, item | 0 <= p < |doc| && 0 <= i < |doc[p]| && item in NodeItems(doc[p][i])
        ensures ComesFrom(doc, p, item) {
      assert OnPage(doc, p, item);
    }
  }

  /**
   The result of the pass: exactly the lists that go on have been joined, and no item is lost, repeated or out of
   order.
   */
  ghost predicate Joined(was: Document, now: Document) {
    Progress(was, now, |was|, 0)
  }

  /** Joins the lists of references of a document in place, page by page. */
  method MergeRefLists(paras: array<seq<Node>>)
    modifies paras
    ensures Joined(old(paras[..]), paras[..])
  {
    hide Progress, ListBefore, NodeIsEmpty;
    ghost var was := paras[..];
    NothingMergedYet(was);
    for page := 0 to paras.Length
      invariant Progress(was, paras[..], page, 0)
    {
      var index := 0;
      while index < |paras[page]|
        invariant index <= |paras[page]|
        invariant Progress(was, paras[..], page, index)
      {
        StepKeepsProgress(was, paras[..], page, index);
        MergeOne(paras, page, index);
        index := index + 1;
      }
      NextPage(was, paras[..], page);
    }
  }

  method MergeOne(paras: array<seq<Node>>, page: nat, index: nat)
    requires page < paras.Length && index < |paras[page]|
    modifies paras
    ensures paras[..] == Stepped(old(paras[..]), page, index)
    ensures |paras[page]| == |old(paras[page])|
  {
    hide NodeIsEmpty, LastIn, LastSurviving, Crossing;
    ghost var was := paras[..];
    if !IsRefList(paras[page][index]) {
      return;
    }
    var previous: Option<(nat, nat)> := if index > 0 then Some((page, index - 1)) else LastSurviving(paras[..], page);
    if previous.None? || !IsRefList(paras[previous.value.0][previous.value.1]) {
      return;
    }
    var (previousPage, previousIndex) := previous.value;
    var marker, moved := paras[page][index].marker, paras[page][index].items;
    if previousPage != page {
      moved := Crossing(moved);
    }
    paras[previousPage] := paras[previousPage][previousIndex := Gain(paras[previousPage][previousIndex], moved)];
    paras[page] := paras[page][index := Tombstone(marker.index)];
    assert paras[..] == Moved(was, (previousPage, previousIndex), page, index);
  }

  /** The lists that are gone afterwards are those that go on from another in the document as it was. */
  lemma JoinedExactly(was: Document, now: Document, p: nat, i: nat)
    requires Joined(was, now) && p < |was| && i < |was[p]|
    ensures |now| == |was| && |now[p]| == |was[p]|
    ensures Joins(was, p, i) <==> IsRefList(was[p][i]) && now[p][i] == Tombstone(was[p][i].marker.index)
    ensures IsRefList(was[p][i]) && !Joins(was, p, i) ==> IsRefList(now[p][i])
  {
    hide AsExpected, Across, StandingBefore;
    ExpectedAt(was, now, |was|, 0, p, i);
  }

  /** The document as it was determines the result. */
  lemma JoinedIsUnique(was: Document, a: Document, b: Document)
    requires Joined(was, a) && Joined(was, b)
    ensures a == b
  {
    hide ExpectedNode, NodesChanged, Settled, Marked, ItemsBefore;
    forall p | 0 <= p < |was| ensures a[p] == b[p] {
      SameShapeOf(was, a, |was|, 0, p);
      SameShapeOf(was, b, |was|, 0, p);
      forall i | 0 <= i < |was[p]| ensures a[p][i] == b[p][i] {
        ExpectedAt(was, a, |was|, 0, p, i);
        ExpectedAt(was, b, |was|, 0, p, i);
      }
    }
  }

  /**
   In a run of lists, joined and standing ones alternate: a list is joined when an odd number of places behind one
   that is not.
   */
  lemma {:induction false} RunAlternates(doc: Document, p: nat, first: nat, places: nat)
    requires p < |doc| && first + places < |doc[p]|
    requires forall i :: first <= i <= first + places ==> IsRefList(doc[p][i])
    ensures Joins(doc, p, first + places) <==> (Joins(doc, p, first) <==> places % 2 == 0)
  {
    if places > 0 {
      RunAlternates(doc, p, first, places - 1);
    }
  }
}
