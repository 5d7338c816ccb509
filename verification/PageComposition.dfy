/**
 Composing the blocks of a page into nodes: lists with their items, figures and tables with their captions and
 footnotes, and everything else as leaves.

 What each block becomes is first defined block by block; the passes over the page, with their sets of consumed
 blocks, are proved to do just that, and the definition is proved to place every block exactly once.
 */
module PageComposition {
  import opened Wrappers
  import opened PageNodes
  import opened Sorting

  predicate IsVisualBody(kind: Kind) {
    kind == ImageBody || kind == ImageBlockBody || kind == TableBody || kind == ChartBody || kind == CodeBody
  }

  predicate IsCandidate(kind: Kind) {
    kind == Text || kind == RefText
  }

  predicate IsMember(kind: Kind) {
    kind == ImageBody || kind == ChartBody
  }

  predicate IsChild(kind: Kind) {
    kind == Caption || kind == Footnote
  }

  /**
   What the boxes on the page decide: whether a text lies on a list marker, which container a picture lies in, and
   which figure a caption belongs to among those that are left, given all blocks that may stand between.
   */
  datatype Geometry = Geometry(
    covers: (Block, Block) -> bool,
    container: (Block, seq<Block>) -> Option<nat>,
    parent: (Block, seq<Block>, seq<Block>) -> Option<nat>)

  ghost predicate Indexed(blocks: seq<Block>) {
    forall k :: 0 <= k < |blocks| ==> blocks[k].index == k
  }

  /** The chosen ones among the first `n` blocks, in order. */
  function Select(blocks: seq<Block>, chosen: set<nat>, n: nat): seq<Block>
    requires n <= |blocks|
  {
    if n == 0 then [] else if n - 1 in chosen then Select(blocks, chosen, n - 1) + [blocks[n - 1]]
        else Select(blocks, chosen, n - 1)
  }

  function SelectAll(blocks: seq<Block>, chosen: set<nat>): seq<Block> {
    Select(blocks, chosen, |blocks|)
  }

  // ---------------------------------------------------------------- what each block becomes

  /** The first list marker that a block lies on. */
  function FirstMarker(blocks: seq<Block>, g: Geometry, k: nat, n: nat): (m: Option<nat>)
    requires k < |blocks| && n <= |blocks|
    ensures m.Some? ==> m.value < n && blocks[m.value].kind == ListMarker && g.covers(blocks[k], blocks[m.value])
    ensures forall x :: 0 <= x < (if m.Some? then m.value else n) ==>
        blocks[x].kind != ListMarker || !g.covers(blocks[k], blocks[x])
  {
    if n == 0 then None else
    var earlier := FirstMarker(blocks, g, k, n - 1);
    if earlier.Some? then earlier
    else if blocks[n - 1].kind == ListMarker && g.covers(blocks[k], blocks[n - 1]) then Some(n - 1) else None
  }

  function MarkerOf(blocks: seq<Block>, g: Geometry, k: nat): (m: Option<nat>)
    requires k < |blocks|
    ensures m.Some? ==> m.value < |blocks| && blocks[m.value].kind == ListMarker && IsCandidate(blocks[k].kind)
  {
    if IsCandidate(blocks[k].kind) then FirstMarker(blocks, g, k, |blocks|) else None
  }

  function ItemSet(blocks: seq<Block>, g: Geometry, m: nat): set<nat> {
    set k: nat | k < |blocks| && MarkerOf(blocks, g, k) == Some(m)
  }

  function Picked(choice: Option<nat>, among: seq<Block>): Option<nat> {
    if choice.Some? && choice.value < |among| then Some(among[choice.value].index) else None
  }

  function ContainerSet(blocks: seq<Block>): set<nat> {
    set k: nat | k < |blocks| && blocks[k].kind == ImageBlockBody
  }

  /** The container that a picture is absorbed by. */
  function ContainerOf(blocks: seq<Block>, g: Geometry, k: nat): Option<nat>
    requires k < |blocks|
  {
    if !IsMember(blocks[k].kind) then None else
    var containers := SelectAll(blocks, ContainerSet(blocks));
    Picked(g.container(blocks[k], containers), containers)
  }

  function MemberSet(blocks: seq<Block>, g: Geometry, c: nat): set<nat> {
    set k: nat | k < |blocks| && ContainerOf(blocks, g, k) == Some(c)
  }

  /** The figures and tables that are left. */
  function ParentSet(blocks: seq<Block>, g: Geometry): set<nat> {
    set k: nat | k < |blocks| && IsVisualBody(blocks[k].kind) && ContainerOf(blocks, g, k).None?
  }

  /** The blocks that may stand between a caption and its figure. */
  function RelationSet(blocks: seq<Block>, g: Geometry): set<nat> {
    set k: nat | k < |blocks| && blocks[k].kind != ListMarker && MarkerOf(blocks, g, k).None?
        && ContainerOf(blocks, g, k).None?
  }

  function ParentOf(blocks: seq<Block>, g: Geometry, k: nat): Option<nat>
    requires k < |blocks|
  {
    if !IsChild(blocks[k].kind) then None else
    var parents := SelectAll(blocks, ParentSet(blocks, g));
    Picked(g.parent(blocks[k], parents, SelectAll(blocks, RelationSet(blocks, g))), parents)
  }

  function ChildSet(blocks: seq<Block>, g: Geometry, p: nat, kind: Kind): set<nat> {
    set k: nat | k < |blocks| && blocks[k].kind == kind && ParentOf(blocks, g, k) == Some(p)
  }

  function Indices(blocks: seq<Block>): (indices: seq<nat>)
    ensures |indices| == |blocks|
  {
    seq(|blocks|, i requires 0 <= i < |blocks| => blocks[i].index)
  }

  function CountRefs(items: seq<Block>): nat {
    if items == [] then 0 else CountRefs(items[..|items| - 1]) + if items[|items| - 1].kind == RefText then 1 else 0
  }

  /** A list is one of references when most of its items are. */
  function ListNode(marker: Block, items: seq<Block>): Node {
    List(marker, 2 * CountRefs(items) > |items|, items)
  }

  /** A caption or footnote without a figure becomes text. */
  function LeafNode(block: Block): Node {
    Leaf(if IsChild(block.kind) then block.(kind := Text, mergePrev := false) else block)
  }

  function VisualNode(blocks: seq<Block>, g: Geometry, k: nat): Node
    requires k < |blocks|
  {
    Visual(blocks[k], SelectAll(blocks, ChildSet(blocks, g, k, Caption)),
        SelectAll(blocks, ChildSet(blocks, g, k, Footnote)),
           Indices(SelectAll(blocks, MemberSet(blocks, g, k))))
  }

  /** The node whose root a block is, if it is one. */
  function NodeAt(blocks: seq<Block>, g: Geometry, k: nat): Option<Node>
    requires k < |blocks|
  {
    var block := blocks[k];
    if block.kind == Chrome || MarkerOf(blocks, g, k).Some? || ContainerOf(blocks, g, k).Some?
        || ParentOf(blocks, g, k).Some? then None
    else if block.kind == ListMarker then
      var items := SelectAll(blocks, ItemSet(blocks, g, k));
      if items == [] then None else Some(ListNode(block, items))
    else if IsVisualBody(block.kind) then Some(VisualNode(blocks, g, k))
    else Some(LeafNode(block))
  }

  /** The nodes of the page in the order of their roots. */
  function Composed(blocks: seq<Block>, g: Geometry, n: nat): seq<Node>
    requires n <= |blocks|
  {
    if n == 0 then [] else
    var node := NodeAt(blocks, g, n - 1);
    if node.None? then Composed(blocks, g, n - 1) else Composed(blocks, g, n - 1) + [node.value]
  }

  function ChromeSet(blocks: seq<Block>): set<nat> {
    set k: nat | k < |blocks| && blocks[k].kind == Chrome
  }

  // ---------------------------------------------------------------- every block is placed once

  /** The indices of all blocks in a node. */
  function Places(node: Node): seq<nat> {
    match node
    case Leaf(block) => [block.index]
    case List(marker, _, items) => [marker.index] + Indices(items)
    case Visual(body, captions, footnotes, subImages) => [body.index] + Indices(captions) + Indices(footnotes)
        + subImages
    case Tombstone(_) => []
  }

  function AllPlaces(nodes: seq<Node>): multiset<nat> {
    if nodes == [] then multiset{} else AllPlaces(nodes[..|nodes| - 1]) + multiset(Places(nodes[|nodes| - 1]))
  }

  /** The block whose node a block is part of. */
  function HolderOf(blocks: seq<Block>, g: Geometry, k: nat): Option<nat>
    requires k < |blocks|
  {
    if MarkerOf(blocks, g, k).Some? then MarkerOf(blocks, g, k)
    else if ContainerOf(blocks, g, k).Some? then ContainerOf(blocks, g, k)
    else if ParentOf(blocks, g, k).Some? then ParentOf(blocks, g, k)
    else if NodeAt(blocks, g, k).Some? then Some(k) else None
  }

  lemma {:induction false} SelectCounts(blocks: seq<Block>, chosen: set<nat>, n: nat, k: nat)
    requires Indexed(blocks) && n <= |blocks|
    ensures multiset(Indices(Select(blocks, chosen, n)))[k] == if k in chosen && k < n then 1 else 0
  {
    if n > 0 {
      SelectCounts(blocks, chosen, n - 1, k);
      if n - 1 in chosen {
        var rest := Select(blocks, chosen, n - 1);
        assert Indices(rest + [blocks[n - 1]]) == Indices(rest) + [n - 1];
      }
    } else {
      assert Indices(Select(blocks, chosen, 0)) == [];
    }
  }

  lemma {:induction false} SelectedIsChosen(blocks: seq<Block>, chosen: set<nat>, n: nat, i: nat)
    requires Indexed(blocks) && n <= |blocks| && i < |Select(blocks, chosen, n)|
    ensures var x := Select(blocks, chosen, n)[i]; x.index < n && x.index in chosen && x == blocks[x.index]
  {
    if i < |Select(blocks, chosen, n - 1)| {
      SelectedIsChosen(blocks, chosen, n - 1, i);
    }
  }

  /** A block that is absorbed or claimed belongs to a figure that is left. */
  lemma HolderIsVisual(blocks: seq<Block>, g: Geometry, k: nat)
    requires Indexed(blocks) && k < |blocks|
    ensures var c := ContainerOf(blocks, g, k); c.Some? ==> c.value < |blocks| && blocks[c.value].kind == ImageBlockBody
    ensures var p := ParentOf(blocks, g, k); p.Some? ==> p.value in ParentSet(blocks, g)
  {
    if ContainerOf(blocks, g, k).Some? {
      var containers := SelectAll(blocks, ContainerSet(blocks));
      SelectedIsChosen(blocks, ContainerSet(blocks), |blocks|, g.container(blocks[k], containers).value);
    }
    if ParentOf(blocks, g, k).Some? {
      var parents := SelectAll(blocks, ParentSet(blocks, g));
      SelectedIsChosen(blocks, ParentSet(blocks, g), |blocks|,
                       g.parent(blocks[k], parents, SelectAll(blocks, RelationSet(blocks, g))).value);
    }
  }

  lemma PlacesOfVisual(blocks: seq<Block>, g: Geometry, j: nat, k: nat)
    requires Indexed(blocks) && j < |blocks| && k < |blocks| && IsVisualBody(blocks[j].kind)
    requires NodeAt(blocks, g, j).Some?
    ensures multiset(Places(NodeAt(blocks, g, j).value))[k] == if HolderOf(blocks, g, k) == Some(j) then 1 else 0
  {
    hide Select, Indices, FirstMarker, MarkerOf, ContainerOf, ParentOf, ChildSet, MemberSet;
    var captions, footnotes := ChildSet(blocks, g, j, Caption), ChildSet(blocks, g, j, Footnote);
    var members := MemberSet(blocks, g, j);
    SelectCounts(blocks, captions, |blocks|, k);
    SelectCounts(blocks, footnotes, |blocks|, k);
    SelectCounts(blocks, members, |blocks|, k);
    CountInVisual(j, Indices(SelectAll(blocks, captions)), Indices(SelectAll(blocks, footnotes)),
                  Indices(SelectAll(blocks, members)), k);
    InVisual(blocks, g, j, k);
  }

  lemma CountInVisual(body: nat, captions: seq<nat>, footnotes: seq<nat>, members: seq<nat>, k: nat)
    ensures multiset([body] + captions + footnotes + members)[k] ==
            (if body == k then 1 else 0) + multiset(captions)[k] + multiset(footnotes)[k] + multiset(members)[k]
  {
  }

  /** At most one of the ways to be part of a figure applies, and then the figure is the holder. */
  lemma InVisual(blocks: seq<Block>, g: Geometry, j: nat, k: nat)
    requires Indexed(blocks) && j < |blocks| && k < |blocks| && IsVisualBody(blocks[j].kind)
    requires NodeAt(blocks, g, j).Some?
    ensures (if j == k then 1 else 0) + (if k in ChildSet(blocks, g, j, Caption) then 1 else 0)
            + (if k in ChildSet(blocks, g, j, Footnote) then 1 else 0) + (if k in MemberSet(blocks, g, j) then 1 else 0)
            == if HolderOf(blocks, g, k) == Some(j) then 1 else 0
  {
    hide Select, Indices, FirstMarker;
    HolderIsVisual(blocks, g, k);
  }

  lemma PlacesOfList(blocks: seq<Block>, g: Geometry, j: nat, k: nat)
    requires Indexed(blocks) && j < |blocks| && k < |blocks| && blocks[j].kind == ListMarker
    requires NodeAt(blocks, g, j).Some?
    ensures multiset(Places(NodeAt(blocks, g, j).value))[k] == if HolderOf(blocks, g, k) == Some(j) then 1 else 0
  {
    SelectCounts(blocks, ItemSet(blocks, g, j), |blocks|, k);
    HolderIsVisual(blocks, g, k);
    hide Select, Indices, FirstMarker;
  }

  /** A node holds exactly the blocks that have it as their holder, each once. */
  lemma PlacesOfNode(blocks: seq<Block>, g: Geometry, j: nat, k: nat)
    requires Indexed(blocks) && j < |blocks| && k < |blocks| && NodeAt(blocks, g, j).Some?
    ensures multiset(Places(NodeAt(blocks, g, j).value))[k] == if HolderOf(blocks, g, k) == Some(j) then 1 else 0
  {
    if blocks[j].kind == ListMarker {
      PlacesOfList(blocks, g, j, k);
    } else if IsVisualBody(blocks[j].kind) {
      PlacesOfVisual(blocks, g, j, k);
    } else {
      HolderIsVisual(blocks, g, k);
    }
  }

  /** A block that is part of another's node is part of one that is there. */
  lemma HolderHasNode(blocks: seq<Block>, g: Geometry, k: nat)
    requires Indexed(blocks) && k < |blocks|
    ensures var h := HolderOf(blocks, g, k); h.Some? ==> h.value < |blocks| && NodeAt(blocks, g, h.value).Some?
    ensures HolderOf(blocks, g, k).None? <==>
        blocks[k].kind == Chrome || (blocks[k].kind == ListMarker && ItemSet(blocks, g, k) == {})
  {
    HolderIsVisual(blocks, g, k);
    var m := MarkerOf(blocks, g, k);
    if m.Some? {
      assert k in ItemSet(blocks, g, m.value);
      SelectedSome(blocks, ItemSet(blocks, g, m.value), k);
    }
    if blocks[k].kind == ListMarker && ItemSet(blocks, g, k) != {} {
      var item :| item in ItemSet(blocks, g, k);
      SelectedSome(blocks, ItemSet(blocks, g, k), item);
    } else if blocks[k].kind == ListMarker {
      SelectedNone(blocks, |blocks|);
    }
  }

  lemma SelectedSome(blocks: seq<Block>, chosen: set<nat>, k: nat)
    requires Indexed(blocks) && k in chosen && k < |blocks|
    ensures SelectAll(blocks, chosen) != []
  {
    SelectCounts(blocks, chosen, |blocks|, k);
  }

  lemma {:induction false} SelectedNone(blocks: seq<Block>, n: nat)
    requires n <= |blocks|
    ensures Select(blocks, {}, n) == []
  {
    if n > 0 {
      SelectedNone(blocks, n - 1);
    }
  }

  lemma {:induction false} PlacesOfComposed(blocks: seq<Block>, g: Geometry, n: nat, k: nat)
    requires Indexed(blocks) && n <= |blocks| && k < |blocks|
    ensures AllPlaces(Composed(blocks, g, n))[k] ==
            var h := HolderOf(blocks, g, k); if h.Some? && h.value < n then 1 else 0
  {
    hide NodeAt, Places, HolderOf, AllPlaces;
    if n == 0 {
      NoPlaces();
    } else {
      PlacesOfComposed(blocks, g, n - 1, k);
      HolderHasNode(blocks, g, k);
      var node := NodeAt(blocks, g, n - 1);
      if node.Some? {
        PlacesOfNode(blocks, g, n - 1, k);
        PlacesAppend(Composed(blocks, g, n - 1), node.value);
      }
    }
  }

  lemma NoPlaces()
    ensures AllPlaces([]) == multiset{}
  {
  }

  lemma PlacesAppend(nodes: seq<Node>, node: Node)
    ensures AllPlaces(nodes + [node]) == AllPlaces(nodes) + multiset(Places(node))
  {
    hide Places;
    assert (nodes + [node])[..|nodes|] == nodes;
  }

  /**
   Every block of the page is in exactly one place: in a node once, among the discarded page chrome, or it is a
   list marker without items.
   */
  lemma EveryBlockPlacedOnce(blocks: seq<Block>, g: Geometry, k: nat)
    requires Indexed(blocks) && k < |blocks|
    ensures AllPlaces(Composed(blocks, g, |blocks|))[k] + multiset(Indices(SelectAll(blocks, ChromeSet(blocks))))[k]
            + (if blocks[k].kind == ListMarker && ItemSet(blocks, g, k) == {} then 1 else 0) == 1
  {
    hide NodeAt, HolderOf, ItemSet, Select;
    PlacesOfComposed(blocks, g, |blocks|, k);
    HolderHasNode(blocks, g, k);
    SelectCounts(blocks, ChromeSet(blocks), |blocks|, k);
  }

  lemma RootIndex(blocks: seq<Block>, g: Geometry, k: nat)
    requires Indexed(blocks) && k < |blocks| && NodeAt(blocks, g, k).Some?
    ensures NodeIndex(NodeAt(blocks, g, k).value) == k
  {
    hide Select, FirstMarker;
  }

  /** The roots come in strictly increasing order. */
  lemma {:induction false} RootsIncrease(blocks: seq<Block>, g: Geometry, n: nat)
    requires Indexed(blocks) && n <= |blocks|
    ensures IsSorted(Composed(blocks, g, n), NodeIndex)
    ensures forall i :: 0 <= i < |Composed(blocks, g, n)| ==> NodeIndex(Composed(blocks, g, n)[i]) < n
  {
    hide NodeAt;
    if n > 0 {
      RootsIncrease(blocks, g, n - 1);
      if NodeAt(blocks, g, n - 1).Some? {
        RootIndex(blocks, g, n - 1);
      }
    }
  }

  // ---------------------------------------------------------------- the passes over the page

  /** `nodes` are the nodes of the given roots, in some order. */
  ghost predicate Built(blocks: seq<Block>, g: Geometry, nodes: seq<Node>, roots: set<nat>) {
    && (forall k :: k in roots ==> k < |blocks| && NodeAt(blocks, g, k).Some? && NodeAt(blocks, g, k).value in nodes)
    && (forall i :: 0 <= i < |nodes| ==> IsNodeOf(blocks, g, nodes[i], roots))
    && KeysDiffer(nodes, NodeIndex)
  }

  ghost predicate IsNodeOf(blocks: seq<Block>, g: Geometry, node: Node, roots: set<nat>) {
    var k := NodeIndex(node);
    k in roots && k < |blocks| && NodeAt(blocks, g, k) == Some(node)
  }

  lemma BuiltOneMore(blocks: seq<Block>, g: Geometry, nodes: seq<Node>, roots: set<nat>, k: nat)
    requires Indexed(blocks) && Built(blocks, g, nodes, roots) && k < |blocks| && k !in roots
    ensures NodeAt(blocks, g, k).Some? ==> Built(blocks, g, nodes + [NodeAt(blocks, g, k).value], roots + {k})
  {
    hide NodeAt;
    if NodeAt(blocks, g, k).Some? {
      RootIndex(blocks, g, k);
      assert forall i :: 0 <= i < |nodes| ==> IsNodeOf(blocks, g, nodes[i], roots);
    }
  }

  lemma GreatestIsLast(nodes: seq<Node>, i: nat, n: nat)
    requires IsSorted(nodes, NodeIndex) && i < |nodes| && NodeIndex(nodes[i]) == n - 1
    requires forall j :: 0 <= j < |nodes| ==> NodeIndex(nodes[j]) < n
    ensures i == |nodes| - 1
  {
    var end := nodes[|nodes| - 1];
    assert NodeIndex(end) < n;
  }

  /** `nodes` are all the nodes with roots before `n`. */
  ghost predicate AllBefore(blocks: seq<Block>, g: Geometry, nodes: seq<Node>, n: nat)
    requires n <= |blocks|
  {
    && (forall i :: 0 <= i < |nodes| ==>
        NodeIndex(nodes[i]) < n && NodeAt(blocks, g, NodeIndex(nodes[i])) == Some(nodes[i]))
    && (forall k :: 0 <= k < n && NodeAt(blocks, g, k).Some? ==> NodeAt(blocks, g, k).value in nodes)
  }

  lemma LastRoot(blocks: seq<Block>, g: Geometry, nodes: seq<Node>, n: nat)
    requires Indexed(blocks) && 0 < n <= |blocks| && IsSorted(nodes, NodeIndex) && AllBefore(blocks, g, nodes, n)
    requires NodeAt(blocks, g, n - 1).Some?
    ensures nodes != [] && nodes[|nodes| - 1] == NodeAt(blocks, g, n - 1).value
    ensures IsSorted(nodes[..|nodes| - 1], NodeIndex)
    ensures AllBefore(blocks, g, nodes[..|nodes| - 1], n - 1)
  {
    hide NodeAt;
    RootIndex(blocks, g, n - 1);
    var i :| 0 <= i < |nodes| && nodes[i] == NodeAt(blocks, g, n - 1).value;
    GreatestIsLast(nodes, i, n);
    RestIsBefore(blocks, g, nodes, n);
  }

  lemma RestIsBefore(blocks: seq<Block>, g: Geometry, nodes: seq<Node>, n: nat)
    requires Indexed(blocks) && 0 < n <= |blocks| && IsSorted(nodes, NodeIndex) && AllBefore(blocks, g, nodes, n)
    requires nodes != [] && NodeIndex(nodes[|nodes| - 1]) == n - 1
    ensures AllBefore(blocks, g, nodes[..|nodes| - 1], n - 1)
  {
    hide NodeAt;
    var rest := nodes[..|nodes| - 1];
    forall k: nat | k < n - 1 && NodeAt(blocks, g, k).Some? ensures NodeAt(blocks, g, k).value in rest {
      RootIndex(blocks, g, k);
      var j :| 0 <= j < |nodes| && nodes[j] == NodeAt(blocks, g, k).value;
      assert rest[j] == nodes[j];
    }
  }

  lemma NoRoot(blocks: seq<Block>, g: Geometry, nodes: seq<Node>, n: nat)
    requires 0 < n <= |blocks| && AllBefore(blocks, g, nodes, n) && NodeAt(blocks, g, n - 1).None?
    ensures AllBefore(blocks, g, nodes, n - 1)
  {
    hide NodeAt;
  }

  lemma NoneBefore(blocks: seq<Block>, g: Geometry, nodes: seq<Node>)
    requires AllBefore(blocks, g, nodes, 0)
    ensures nodes == []
  {
    assert FirstIndex(nodes) == -1;
  }

  function FirstIndex(nodes: seq<Node>): int {
    if nodes == [] then -1 else NodeIndex(nodes[0])
  }

  /** Sorted by their roots, all nodes of the page are the page composed. */
  lemma {:induction false} SortedIsComposed(blocks: seq<Block>, g: Geometry, nodes: seq<Node>, n: nat)
    requires Indexed(blocks) && n <= |blocks| && IsSorted(nodes, NodeIndex) && AllBefore(blocks, g, nodes, n)
    ensures nodes == Composed(blocks, g, n)
  {
    hide NodeAt, AllBefore, IsSorted;
    if n == 0 {
      NoneBefore(blocks, g, nodes);
    } else {
      if NodeAt(blocks, g, n - 1).Some? {
        LastRoot(blocks, g, nodes, n);
        SortedIsComposed(blocks, g, nodes[..|nodes| - 1], n - 1);
        assert nodes == nodes[..|nodes| - 1] + [nodes[|nodes| - 1]];
      } else {
        NoRoot(blocks, g, nodes, n);
        SortedIsComposed(blocks, g, nodes, n - 1);
      }
    }
  }

  /** The blocks that the passes over lists consume before marker `m`, and of its own items those before `n`. */
  ghost predicate ListsConsumed(blocks: seq<Block>, g: Geometry, consumed: set<nat>, m: nat, n: nat) {
    forall x: nat :: x in consumed <==> ByLists(blocks, g, x, m, n)
  }

  ghost predicate ByLists(blocks: seq<Block>, g: Geometry, x: nat, m: nat, n: nat) {
    && x < |blocks|
    && var marker := MarkerOf(blocks, g, x);
       (blocks[x].kind == ListMarker && x < m) || (marker.Some? && (marker.value < m || (marker.value == m && x < n)))
  }

  /** A candidate not consumed that lies on the marker is one whose first marker this is. */
  lemma NextItem(blocks: seq<Block>, g: Geometry, consumed: set<nat>, m: nat, k: nat)
    requires m < |blocks| && k < |blocks| && blocks[m].kind == ListMarker && ListsConsumed(blocks, g, consumed, m, k)
    ensures k in ItemSet(blocks, g, m) <==>
        IsCandidate(blocks[k].kind) && k !in consumed && g.covers(blocks[k], blocks[m])
    ensures ListsConsumed(blocks, g, if k in ItemSet(blocks, g, m) then consumed + {k} else consumed, m, k + 1)
  {
    hide FirstMarker;
  }

  lemma ItemsDone(blocks: seq<Block>, g: Geometry, consumed: set<nat>, m: nat)
    requires m < |blocks| && ListsConsumed(blocks, g, consumed, m, |blocks|)
    ensures ListsConsumed(blocks, g, if blocks[m].kind == ListMarker then consumed + {m} else consumed, m + 1, 0)
  {
    hide FirstMarker;
  }

  lemma NoItems(blocks: seq<Block>, g: Geometry, consumed: set<nat>, m: nat)
    requires m < |blocks| && blocks[m].kind != ListMarker && ListsConsumed(blocks, g, consumed, m, 0)
    ensures ListsConsumed(blocks, g, consumed, m + 1, 0)
  {
    hide FirstMarker;
  }

  ghost function ListRoots(blocks: seq<Block>, g: Geometry, n: nat): set<nat>
    requires n <= |blocks|
  {
    set m: nat | m < n && blocks[m].kind == ListMarker && NodeAt(blocks, g, m).Some?
  }

  lemma ListAt(blocks: seq<Block>, g: Geometry, m: nat)
    requires Indexed(blocks) && m < |blocks| && blocks[m].kind == ListMarker
    ensures var items := SelectAll(blocks, ItemSet(blocks, g, m));
            NodeAt(blocks, g, m) == if items == [] then None else Some(ListNode(blocks[m], items))
  {
    hide Select, FirstMarker;
  }

  /** Builds the lists: each text goes to the first marker it lies on. */
  method ComposeLists(blocks: seq<Block>, g: Geometry) returns (nodes: seq<Node>, consumed: set<nat>)
    requires Indexed(blocks)
    ensures Built(blocks, g, nodes, ListRoots(blocks, g, |blocks|)) && ListsConsumed(blocks, g, consumed, |blocks|, 0)
  {
    hide MarkerOf, ItemSet, NodeAt, Built, ListsConsumed;
    nodes, consumed := [], {};
    NothingBuilt(blocks, g);
    for m := 0 to |blocks|
      invariant Built(blocks, g, nodes, ListRoots(blocks, g, m)) && ListsConsumed(blocks, g, consumed, m, 0)
    {
      ListRootsStep(blocks, g, m);
      if blocks[m].kind == ListMarker {
        var items := [];
        for k := 0 to |blocks|
          invariant ListsConsumed(blocks, g, consumed, m, k) && items == Select(blocks, ItemSet(blocks, g, m), k)
        {
          NextItem(blocks, g, consumed, m, k);
          if IsCandidate(blocks[k].kind) && k !in consumed && g.covers(blocks[k], blocks[m]) {
            consumed := consumed + {k};
            items := items + [blocks[k]];
          }
        }
        ListAt(blocks, g, m);
        BuiltOneMore(blocks, g, nodes, ListRoots(blocks, g, m), m);
        ItemsDone(blocks, g, consumed, m);
        consumed := consumed + {m};
        if items != [] {
          nodes := nodes + [ListNode(blocks[m], items)];
        }
      } else {
        NoItems(blocks, g, consumed, m);
      }
    }
  }

  lemma NothingBuilt(blocks: seq<Block>, g: Geometry)
    ensures Built(blocks, g, [], {}) && ListRoots(blocks, g, 0) == {} && ListsConsumed(blocks, g, {}, 0, 0)
  {
    hide MarkerOf, NodeAt;
  }

  lemma ListRootsStep(blocks: seq<Block>, g: Geometry, m: nat)
    requires m < |blocks|
    ensures ListRoots(blocks, g, m + 1) ==
            if blocks[m].kind == ListMarker && NodeAt(blocks, g, m).Some? then ListRoots(blocks, g, m) + {m}
                else ListRoots(blocks, g, m)
    ensures m !in ListRoots(blocks, g, m)
  {
    hide NodeAt;
  }

  function At<T>(groups: map<nat, seq<T>>, k: nat): seq<T> {
    if k in groups then groups[k] else []
  }

  /** The members absorbed among the first `n` blocks, by their containers. */
  ghost predicate MembersGrouped(blocks: seq<Block>, g: Geometry, groups: map<nat, seq<nat>>, n: nat)
    requires n <= |blocks|
  {
    forall c: nat :: At(groups, c) == Indices(Select(blocks, MemberSet(blocks, g, c), n))
  }

  ghost predicate ChildrenGrouped(blocks: seq<Block>, g: Geometry, groups: map<nat, seq<Block>>, kind: Kind, n: nat)
    requires n <= |blocks|
  {
    forall p: nat :: At(groups, p) == Select(blocks, ChildSet(blocks, g, p, kind), n)
  }

  /** The blocks absorbed among the first `n`. */
  ghost function Absorbed(blocks: seq<Block>, g: Geometry, n: nat): set<nat>
    requires n <= |blocks|
  {
    set k: nat | k < n && ContainerOf(blocks, g, k).Some?
  }

  ghost function Claimed(blocks: seq<Block>, g: Geometry, n: nat): set<nat>
    requires n <= |blocks|
  {
    set k: nat | k < n && ParentOf(blocks, g, k).Some?
  }

  method AbsorbMembers(blocks: seq<Block>, g: Geometry) returns (absorbed: set<nat>, subImages: map<nat, seq<nat>>)
    requires Indexed(blocks)
    ensures absorbed == Absorbed(blocks, g, |blocks|) && MembersGrouped(blocks, g, subImages, |blocks|)
  {
    hide Indices, MembersGrouped;
    var containers := SelectAll(blocks, ContainerSet(blocks));
    absorbed, subImages := {}, map[];
    NoMembers(blocks, g);
    for k := 0 to |blocks|
      invariant absorbed == Absorbed(blocks, g, k) && MembersGrouped(blocks, g, subImages, k)
    {
      MemberStep(blocks, g, subImages, k);
      if IsMember(blocks[k].kind) {
        var container := Picked(g.container(blocks[k], containers), containers);
        if container.Some? {
          absorbed := absorbed + {k};
          subImages := subImages[container.value := At(subImages, container.value) + [k]];
        }
      }
    }
  }

  lemma NoMembers(blocks: seq<Block>, g: Geometry)
    ensures MembersGrouped(blocks, g, map[], 0)
  {
    assert Indices([]) == [];
  }

  lemma MemberStep(blocks: seq<Block>, g: Geometry, groups: map<nat, seq<nat>>, k: nat)
    requires Indexed(blocks) && k < |blocks| && MembersGrouped(blocks, g, groups, k)
    ensures var c := ContainerOf(blocks, g, k);
            MembersGrouped(blocks, g, if c.Some? then groups[c.value := At(groups, c.value) + [k]] else groups, k + 1)
  {
    hide ContainerOf, Indices;
    var c := ContainerOf(blocks, g, k);
    var after := if c.Some? then groups[c.value := At(groups, c.value) + [k]] else groups;
    forall x: nat ensures At(after, x) == Indices(Select(blocks, MemberSet(blocks, g, x), k + 1)) {
      assert At(groups, x) == Indices(Select(blocks, MemberSet(blocks, g, x), k));
      IndicesAppend(Select(blocks, MemberSet(blocks, g, x), k), blocks[k]);
    }
  }

  lemma IndicesAppend(blocks: seq<Block>, block: Block)
    ensures Indices(blocks + [block]) == Indices(blocks) + [block.index]
  {
  }

  /** Gives captions and footnotes to their figures, in the order of the page. */
  method GroupChildren(blocks: seq<Block>, g: Geometry, parents: seq<Block>, relation: seq<Block>)
    returns (claimed: set<nat>, captions: map<nat, seq<Block>>, footnotes: map<nat, seq<Block>>)
    requires Indexed(blocks)
    requires parents == SelectAll(blocks, ParentSet(blocks, g)) && relation == SelectAll(blocks, RelationSet(blocks, g))
    ensures claimed == Claimed(blocks, g, |blocks|)
    ensures ChildrenGrouped(blocks, g, captions, Caption, |blocks|)
    ensures ChildrenGrouped(blocks, g, footnotes, Footnote, |blocks|)
  {
    hide ChildrenGrouped, ParentSet, RelationSet;
    claimed, captions, footnotes := {}, map[], map[];
    NoChildren(blocks, g);
    for k := 0 to |blocks|
      invariant claimed == Claimed(blocks, g, k)
      invariant ChildrenGrouped(blocks, g, captions, Caption, k) && ChildrenGrouped(blocks, g, footnotes, Footnote, k)
    {
      ChildStep(blocks, g, captions, Caption, k);
      ChildStep(blocks, g, footnotes, Footnote, k);
      if IsChild(blocks[k].kind) {
        var parent := Picked(g.parent(blocks[k], parents, relation), parents);
        if parent.Some? {
          claimed := claimed + {k};
          if blocks[k].kind == Caption {
            captions := captions[parent.value := At(captions, parent.value) + [blocks[k]]];
          } else {
            footnotes := footnotes[parent.value := At(footnotes, parent.value) + [blocks[k]]];
          }
        }
      }
    }
  }

  lemma NoChildren(blocks: seq<Block>, g: Geometry)
    ensures ChildrenGrouped(blocks, g, map[], Caption, 0) && ChildrenGrouped(blocks, g, map[], Footnote, 0)
  {
  }

  /** The groups with a block added to those of its figure, if it is a child of the kind that has one. */
  function WithChild(groups: map<nat, seq<Block>>, block: Block, parent: Option<nat>,
                     kind: Kind): map<nat, seq<Block>> {
    if parent.Some? && block.kind == kind then groups[parent.value := At(groups, parent.value) + [block]] else groups
  }

  lemma ChildStep(blocks: seq<Block>, g: Geometry, groups: map<nat, seq<Block>>, kind: Kind, k: nat)
    requires k < |blocks| && ChildrenGrouped(blocks, g, groups, kind, k)
    ensures ChildrenGrouped(blocks, g, WithChild(groups, blocks[k], ParentOf(blocks, g, k), kind), kind, k + 1)
  {
    hide ParentOf;
    var after := WithChild(groups, blocks[k], ParentOf(blocks, g, k), kind);
    forall x: nat ensures At(after, x) == Select(blocks, ChildSet(blocks, g, x, kind), k + 1) {
      assert At(groups, x) == Select(blocks, ChildSet(blocks, g, x, kind), k);
    }
  }

  /** What all passes before the leaves consume. */
  ghost predicate AllConsumed(blocks: seq<Block>, g: Geometry, consumed: set<nat>) {
    forall x: nat :: x in consumed <==> IsConsumed(blocks, g, x)
  }

  ghost predicate IsConsumed(blocks: seq<Block>, g: Geometry, x: nat) {
    && x < |blocks|
    && (blocks[x].kind == ListMarker || IsVisualBody(blocks[x].kind) || MarkerOf(blocks, g, x).Some?
        || ParentOf(blocks, g, x).Some?)
  }

  ghost function VisualRoots(blocks: seq<Block>, g: Geometry, n: nat): set<nat>
    requires n <= |blocks|
  {
    set k: nat | k < n && k in ParentSet(blocks, g)
  }

  lemma VisualAt(blocks: seq<Block>, g: Geometry, k: nat)
    requires Indexed(blocks) && k in ParentSet(blocks, g)
    ensures NodeAt(blocks, g, k) == Some(VisualNode(blocks, g, k))
  {
    hide Select, FirstMarker, VisualNode;
  }

  /** The sets the passes filter by are those of the definition. */
  lemma LeftAfterLists(blocks: seq<Block>, g: Geometry, consumed: set<nat>, absorbed: set<nat>)
    requires ListsConsumed(blocks, g, consumed, |blocks|, 0) && absorbed == Absorbed(blocks, g, |blocks|)
    ensures (set k: nat | k < |blocks| && IsVisualBody(blocks[k].kind) && k !in consumed + absorbed) ==
        ParentSet(blocks, g)
    ensures (set k: nat | k < |blocks| && k !in absorbed && k !in consumed + absorbed) == RelationSet(blocks, g)
  {
    hide ContainerOf, FirstMarker;
    assert forall k: nat :: k < |blocks| ==> (k in consumed <==> ByLists(blocks, g, k, |blocks|, 0));
  }

  lemma ConsumedByAll(blocks: seq<Block>, g: Geometry, consumed: set<nat>)
    requires Indexed(blocks) && ListsConsumed(blocks, g, consumed, |blocks|, 0)
    ensures AllConsumed(blocks, g, consumed + Absorbed(blocks, g, |blocks|) + Claimed(blocks, g, |blocks|)
        + VisualRoots(blocks, g, |blocks|))
  {
    hide ParentOf, FirstMarker;
    var all := consumed + Absorbed(blocks, g, |blocks|) + Claimed(blocks, g, |blocks|)
        + VisualRoots(blocks, g, |blocks|);
    forall x: nat ensures x in all <==> IsConsumed(blocks, g, x) {
      assert x in consumed <==> ByLists(blocks, g, x, |blocks|, 0);
    }
  }

  /** Builds the figures and tables. */
  method ComposeVisuals(blocks: seq<Block>, g: Geometry, listed: set<nat>)
    returns (nodes: seq<Node>, consumed: set<nat>)
    requires Indexed(blocks) && ListsConsumed(blocks, g, listed, |blocks|, 0)
    ensures Built(blocks, g, nodes, VisualRoots(blocks, g, |blocks|)) && AllConsumed(blocks, g, consumed)
  {
    hide Built, ListsConsumed, AllConsumed, MembersGrouped, ChildrenGrouped, NodeAt, ContainerOf, ParentOf, Select;
    var absorbed, subImages := AbsorbMembers(blocks, g);
    consumed := listed + absorbed;
    LeftAfterLists(blocks, g, listed, absorbed);
    var parentSet := set k: nat | k < |blocks| && IsVisualBody(blocks[k].kind) && k !in consumed;
    var relationSet := set k: nat | k < |blocks| && k !in absorbed && k !in consumed;
    var claimed, captions, footnotes := GroupChildren(blocks, g, SelectAll(blocks, parentSet),
                                                      SelectAll(blocks, relationSet));
    nodes := PushVisuals(blocks, g, parentSet, captions, footnotes, subImages);
    ConsumedByAll(blocks, g, listed);
    consumed := consumed + claimed + parentSet;
    assert parentSet == VisualRoots(blocks, g, |blocks|);
  }

  method PushVisuals(blocks: seq<Block>, g: Geometry, parentSet: set<nat>, captions: map<nat, seq<Block>>,
                     footnotes: map<nat, seq<Block>>,
                     subImages: map<nat, seq<nat>>) returns (nodes: seq<Node>)
    requires Indexed(blocks) && parentSet == ParentSet(blocks, g) && MembersGrouped(blocks, g, subImages, |blocks|)
    requires ChildrenGrouped(blocks, g, captions, Caption, |blocks|)
    requires ChildrenGrouped(blocks, g, footnotes, Footnote, |blocks|)
    ensures Built(blocks, g, nodes, VisualRoots(blocks, g, |blocks|))
  {
    hide Built, NodeAt, ContainerOf, ParentOf, Select, ParentSet, ChildSet, MemberSet, Indices;
    nodes := [];
    NothingBuilt(blocks, g);
    assert VisualRoots(blocks, g, 0) == {};
    for k := 0 to |blocks|
      invariant Built(blocks, g, nodes, VisualRoots(blocks, g, k))
    {
      assert VisualRoots(blocks, g, k + 1) == if k in parentSet then VisualRoots(blocks, g, k) + {k}
          else VisualRoots(blocks, g, k);
      if k in parentSet {
        VisualAt(blocks, g, k);
        BuiltOneMore(blocks, g, nodes, VisualRoots(blocks, g, k), k);
        nodes := nodes + [Visual(blocks[k], At(captions, k), At(footnotes, k), At(subImages, k))];
      }
    }
  }

  ghost function LeafRoots(blocks: seq<Block>, g: Geometry, n: nat): set<nat>
    requires n <= |blocks|
  {
    set k: nat | k < n && !IsConsumed(blocks, g, k) && blocks[k].kind != Chrome
  }

  lemma LeafAt(blocks: seq<Block>, g: Geometry, k: nat)
    requires Indexed(blocks) && k < |blocks| && !IsConsumed(blocks, g, k) && blocks[k].kind != Chrome
    ensures NodeAt(blocks, g, k) == Some(LeafNode(blocks[k]))
  {
    hide Select, FirstMarker;
  }

  /** Everything that is left becomes a leaf. */
  method ComposeLeaves(blocks: seq<Block>, g: Geometry, consumed: set<nat>) returns (nodes: seq<Node>)
    requires Indexed(blocks) && AllConsumed(blocks, g, consumed)
    ensures Built(blocks, g, nodes, LeafRoots(blocks, g, |blocks|))
  {
    hide Built, NodeAt, IsConsumed;
    nodes := [];
    NothingBuilt(blocks, g);
    assert LeafRoots(blocks, g, 0) == {};
    for k := 0 to |blocks|
      invariant Built(blocks, g, nodes, LeafRoots(blocks, g, k))
    {
      var skipped := k in consumed || blocks[k].kind == Chrome;
      assert LeafRoots(blocks, g, k + 1) == if skipped then LeafRoots(blocks, g, k) else LeafRoots(blocks, g, k) + {k};
      if !skipped {
        LeafAt(blocks, g, k);
        BuiltOneMore(blocks, g, nodes, LeafRoots(blocks, g, k), k);
        nodes := nodes + [LeafNode(blocks[k])];
      }
    }
  }

  lemma RootsCoverNodes(blocks: seq<Block>, g: Geometry, k: nat)
    requires Indexed(blocks) && k < |blocks|
    ensures var n := |blocks|;
            NodeAt(blocks, g, k).Some? <==>
                k in ListRoots(blocks, g, n) || k in VisualRoots(blocks, g, n) || k in LeafRoots(blocks, g, n)
    ensures !(k in ListRoots(blocks, g, |blocks|) && k in VisualRoots(blocks, g, |blocks|))
    ensures k in LeafRoots(blocks, g, |blocks|) ==>
        k !in ListRoots(blocks, g, |blocks|) && k !in VisualRoots(blocks, g, |blocks|)
  {
    hide Select, FirstMarker;
  }

  lemma BuiltTogether(blocks: seq<Block>, g: Geometry, a: seq<Node>, r: set<nat>, b: seq<Node>, t: set<nat>)
    requires Built(blocks, g, a, r) && Built(blocks, g, b, t) && r !! t
    ensures Built(blocks, g, a + b, r + t)
  {
    hide NodeAt;
    assert forall i :: 0 <= i < |a| ==> IsNodeOf(blocks, g, a[i], r);
    assert forall i :: 0 <= i < |b| ==> IsNodeOf(blocks, g, b[i], t);
  }

  /** Composes a page: its nodes in the order of their roots, and the page chrome apart. */
  method ComposePage(blocks: seq<Block>, g: Geometry) returns (nodes: seq<Node>, discarded: seq<Block>)
    requires Indexed(blocks)
    ensures nodes == Composed(blocks, g, |blocks|) && discarded == SelectAll(blocks, ChromeSet(blocks))
  {
    hide Built, ListsConsumed, AllConsumed, NodeAt, ListRoots, VisualRoots, LeafRoots, Select, Composed;
    discarded := SelectAll(blocks, ChromeSet(blocks));
    var lists, listed := ComposeLists(blocks, g);
    var visuals, consumed := ComposeVisuals(blocks, g, listed);
    var leaves := ComposeLeaves(blocks, g, consumed);
    BuildAll(blocks, g, lists, visuals, leaves);
    nodes := SortByKey(lists + visuals + leaves, NodeIndex);
    AllSorted(blocks, g, lists + visuals + leaves, nodes);
  }

  lemma BuildAll(blocks: seq<Block>, g: Geometry, lists: seq<Node>, visuals: seq<Node>, leaves: seq<Node>)
    requires Indexed(blocks) && Built(blocks, g, lists, ListRoots(blocks, g, |blocks|))
    requires Built(blocks, g, visuals, VisualRoots(blocks, g, |blocks|))
    requires Built(blocks, g, leaves, LeafRoots(blocks, g, |blocks|))
    ensures KeysDiffer(lists + visuals + leaves, NodeIndex) && AllBefore(blocks, g, lists + visuals + leaves, |blocks|)
  {
    var l, v, r := ListRoots(blocks, g, |blocks|), VisualRoots(blocks, g, |blocks|), LeafRoots(blocks, g, |blocks|);
    forall k: nat | k < |blocks| ensures NodeAt(blocks, g, k).Some? <==> k in l + v + r
        ensures !(k in l && k in v) && !(k in l + v && k in r) {
      RootsCoverNodes(blocks, g, k);
    }
    hide NodeAt, ListRoots, VisualRoots, LeafRoots;
    BuiltTogether(blocks, g, lists, l, visuals, v);
    BuiltTogether(blocks, g, lists + visuals, l + v, leaves, r);
    var nodes := lists + visuals + leaves;
    assert forall i :: 0 <= i < |nodes| ==> IsNodeOf(blocks, g, nodes[i], l + v + r);
  }

  lemma AllSorted(blocks: seq<Block>, g: Geometry, nodes: seq<Node>, sorted: seq<Node>)
    requires Indexed(blocks) && AllBefore(blocks, g, nodes, |blocks|) && IsSorted(sorted, NodeIndex)
    requires SameElements(sorted, nodes)
    ensures sorted == Composed(blocks, g, |blocks|)
  {
    hide NodeAt;
    forall i | 0 <= i < |sorted|
      ensures NodeIndex(sorted[i]) < |blocks| && NodeAt(blocks, g, NodeIndex(sorted[i])) == Some(sorted[i])
    {
      assert sorted[i] in nodes;
    }
    SortedIsComposed(blocks, g, sorted, |blocks|);
  }
}
