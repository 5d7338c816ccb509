/**
 What the nodes of a composed page hold, said of the page's blocks alone: which block stands where in a node, in
 which order, and unchanged but for captions and footnotes that have become text.
 */
module PageContents {
  import opened Wrappers
  import opened PageNodes
  import opened Sorting
  import opened PageComposition

  const FIGURES: set<Kind> := {ImageBody, ImageBlockBody, TableBody, ChartBody, CodeBody}

  // ---------------------------------------------------------------- what belongs to what

  /** `s` are the blocks of the page at the positions `chosen`, in the order of the page. */
  ghost predicate AreThose(blocks: seq<Block>, s: seq<Block>, chosen: set<nat>) {
    && (forall i :: 0 <= i < |s| ==> s[i].index in chosen && s[i].index < |blocks| && s[i] == blocks[s[i].index])
    && (forall i, j :: 0 <= i < j < |s| ==> s[i].index < s[j].index)
    && (forall k :: k in chosen ==> k < |blocks| && blocks[k] in s)
  }

  /** The text at `k` lies on the list marker at `m` and on none before it. */
  ghost predicate Listed(blocks: seq<Block>, g: Geometry, k: nat, m: nat) {
    && k < |blocks| && m < |blocks| && blocks[k].kind in {Text, RefText} && blocks[m].kind == ListMarker
    && g.covers(blocks[k], blocks[m])
    && forall x :: 0 <= x < m && blocks[x].kind == ListMarker ==> !g.covers(blocks[k], blocks[x])
  }

  ghost function Containers(blocks: seq<Block>): set<nat> {
    set k: nat | k < |blocks| && blocks[k].kind == ImageBlockBody
  }

  /** The picture or chart at `k` lies in the container at `c`. */
  ghost predicate LiesIn(blocks: seq<Block>, g: Geometry, k: nat, c: nat) {
    && k < |blocks| && blocks[k].kind in {ImageBody, ChartBody}
    && exists containers: seq<Block>, i: nat :: AreThose(blocks, containers, Containers(blocks)) && i < |containers| &&
         g.container(blocks[k], containers) == Some(i) && containers[i].index == c
  }

  ghost predicate LiesInSome(blocks: seq<Block>, g: Geometry, k: nat) {
    exists c :: LiesIn(blocks, g, k, c)
  }

  ghost predicate ListedSome(blocks: seq<Block>, g: Geometry, k: nat) {
    exists m :: Listed(blocks, g, k, m)
  }

  /** The figures and tables that stand on their own. */
  ghost function Standing(blocks: seq<Block>, g: Geometry): set<nat> {
    set k: nat | k < |blocks| && blocks[k].kind in FIGURES && !LiesInSome(blocks, g, k)
  }

  /** What may stand between a caption and its figure: everything but lists and what lies in a container. */
  ghost function Between(blocks: seq<Block>, g: Geometry): set<nat> {
    set k: nat | k < |blocks| && blocks[k].kind != ListMarker && !ListedSome(blocks, g, k) && !LiesInSome(blocks, g, k)
  }

  /** The caption or footnote at `k` belongs to the figure at `p`. */
  ghost predicate BelongsTo(blocks: seq<Block>, g: Geometry, k: nat, p: nat) {
    && k < |blocks| && blocks[k].kind in {Caption, Footnote}
    && exists figures: seq<Block>, between: seq<Block>, i: nat ::
         AreThose(blocks, figures, Standing(blocks, g)) && AreThose(blocks, between, Between(blocks, g)) &&
         i < |figures| && g.parent(blocks[k], figures, between) == Some(i) && figures[i].index == p
  }

  // ---------------------------------------------------------------- nodes

  ghost function Positions(items: seq<Block>, kind: Kind): set<nat> {
    set i: nat | i < |items| && items[i].kind == kind
  }

  /** A caption or footnote that belongs to no figure has become text; any other block is as it was. */
  ghost predicate IsLeaf(blocks: seq<Block>, g: Geometry, block: Block) {
    && block.index < |blocks|
    && var original := blocks[block.index];
       && original.kind !in FIGURES + {Chrome, ListMarker} && !ListedSome(blocks, g, block.index)
       && (forall p :: !BelongsTo(blocks, g, block.index, p))
       && block == if original.kind in {Caption, Footnote} then original.(kind := Text, mergePrev := false)
                   else original
  }

  /** The items are the texts listed under the marker; the list is one of references if most of them are. */
  ghost predicate IsList(blocks: seq<Block>, g: Geometry, marker: Block, refText: bool, items: seq<Block>) {
    && marker.index < |blocks| && marker == blocks[marker.index] && marker.kind == ListMarker && items != []
    && AreThose(blocks, items, set k: nat | k < |blocks| && Listed(blocks, g, k, marker.index))
    && (refText <==> |Positions(items, RefText)| > |Positions(items, Text)|)
  }

  ghost predicate IsVisual(blocks: seq<Block>, g: Geometry, body: Block, captions: seq<Block>, footnotes: seq<Block>,
                           subImages: seq<nat>) {
    var k := body.index;
    && k < |blocks| && body == blocks[k] && body.kind in FIGURES && !LiesInSome(blocks, g, k)
    && AreThose(blocks, captions, set x: nat | x < |blocks| && blocks[x].kind == Caption && BelongsTo(blocks, g, x, k))
    && AreThose(blocks, footnotes,
                set x: nat | x < |blocks| && blocks[x].kind == Footnote && BelongsTo(blocks, g, x, k))
    && (forall i, j :: 0 <= i < j < |subImages| ==> subImages[i] < subImages[j])
    && forall x: nat :: x in subImages <==> x < |blocks| && LiesIn(blocks, g, x, k)
  }

  ghost predicate IsNode(blocks: seq<Block>, g: Geometry, node: Node) {
    match node
    case Leaf(block) => IsLeaf(blocks, g, block)
    case List(marker, refText, items) => IsList(blocks, g, marker, refText, items)
    case Visual(body, captions, footnotes, subImages) => IsVisual(blocks, g, body, captions, footnotes, subImages)
    case Tombstone(_) => false
  }

  // ---------------------------------------------------------------- selections

  lemma {:induction false} SelectedAre(blocks: seq<Block>, chosen: set<nat>, n: nat)
    requires Indexed(blocks) && n <= |blocks|
    ensures AreThose(blocks, Select(blocks, chosen, n), set k: nat | k < n && k in chosen)
  {
    if n > 0 {
      SelectedAre(blocks, chosen, n - 1);
      var rest, all := Select(blocks, chosen, n - 1), Select(blocks, chosen, n);
      forall k: nat | k < n && k in chosen ensures blocks[k] in all {
        if k < n - 1 {
          assert k in set x: nat | x < n - 1 && x in chosen;
          assert blocks[k] in rest;
        }
      }
    }
  }

  lemma AllSelectedAre(blocks: seq<Block>, chosen: set<nat>)
    requires Indexed(blocks) && forall k :: k in chosen ==> k < |blocks|
    ensures AreThose(blocks, SelectAll(blocks, chosen), chosen)
  {
    hide Select;
    SelectedAre(blocks, chosen, |blocks|);
    assert chosen == set k: nat | k < |blocks| && k in chosen;
  }

  lemma {:induction false} ThoseAreUnique(blocks: seq<Block>, a: seq<Block>, b: seq<Block>, chosen: set<nat>)
    requires Indexed(blocks) && AreThose(blocks, a, chosen) && AreThose(blocks, b, chosen)
    ensures a == b
    decreases |a|
  {
    NoneLeft(blocks, a, b, chosen);
    NoneLeft(blocks, b, a, chosen);
    if a != [] {
      var x, y := a[|a| - 1], b[|b| - 1];
      LastIsGreatest(blocks, a, b, chosen);
      LastIsGreatest(blocks, b, a, chosen);
      WithoutLast(blocks, a, chosen);
      WithoutLast(blocks, b, chosen);
      ThoseAreUnique(blocks, a[..|a| - 1], b[..|b| - 1], chosen - {x.index});
    }
  }

  lemma NoneLeft(blocks: seq<Block>, a: seq<Block>, b: seq<Block>, chosen: set<nat>)
    requires AreThose(blocks, a, chosen) && AreThose(blocks, b, chosen)
    ensures a != [] ==> b != []
  {
    if a != [] {
      assert a[0].index in chosen && blocks[a[0].index] in b;
    }
  }

  lemma LastIsGreatest(blocks: seq<Block>, a: seq<Block>, b: seq<Block>, chosen: set<nat>)
    requires AreThose(blocks, a, chosen) && AreThose(blocks, b, chosen) && a != [] && b != []
    ensures a[|a| - 1].index <= b[|b| - 1].index
  {
    var x := a[|a| - 1];
    assert blocks[x.index] in b;
    var j :| 0 <= j < |b| && b[j] == x;
  }

  lemma WithoutLast(blocks: seq<Block>, a: seq<Block>, chosen: set<nat>)
    requires Indexed(blocks) && AreThose(blocks, a, chosen) && a != []
    ensures AreThose(blocks, a[..|a| - 1], chosen - {a[|a| - 1].index})
  {
    var rest, last := a[..|a| - 1], a[|a| - 1];
    forall k | k in chosen - {last.index} ensures blocks[k] in rest {
      var j :| 0 <= j < |a| && a[j] == blocks[k];
      assert blocks[k].index == k && j < |a| - 1;
      assert rest[j] == blocks[k];
    }
  }

  // ---------------------------------------------------------------- the composition's own terms

  lemma MarkerIsListed(blocks: seq<Block>, g: Geometry, k: nat, m: nat)
    requires k < |blocks|
    ensures MarkerOf(blocks, g, k) == Some(m) <==> Listed(blocks, g, k, m)
  {
    hide FirstMarker;
    var found := FirstMarker(blocks, g, k, |blocks|);
    if Listed(blocks, g, k, m) {
      if found.Some? {
        assert !(found.value < m) && !(m < found.value);
      }
    }
  }

  lemma MarkerSomewhere(blocks: seq<Block>, g: Geometry, k: nat)
    requires k < |blocks|
    ensures MarkerOf(blocks, g, k).Some? <==> ListedSome(blocks, g, k)
  {
    hide MarkerOf, Listed;
    if MarkerOf(blocks, g, k).Some? {
      MarkerIsListed(blocks, g, k, MarkerOf(blocks, g, k).value);
    }
    if ListedSome(blocks, g, k) {
      var m :| Listed(blocks, g, k, m);
      MarkerIsListed(blocks, g, k, m);
    }
  }

  lemma ContainerIs(blocks: seq<Block>, g: Geometry, k: nat, c: nat)
    requires Indexed(blocks) && k < |blocks|
    ensures ContainerOf(blocks, g, k) == Some(c) <==> LiesIn(blocks, g, k, c)
  {
    hide Select, AreThose;
    var containers := SelectAll(blocks, ContainerSet(blocks));
    AllSelectedAre(blocks, ContainerSet(blocks));
    if LiesIn(blocks, g, k, c) {
      var others: seq<Block>, i: nat :| AreThose(blocks, others, Containers(blocks)) && i < |others| &&
          g.container(blocks[k], others) == Some(i) && others[i].index == c;
      ThoseAreUnique(blocks, others, containers, Containers(blocks));
    }
  }

  lemma ContainerSomewhere(blocks: seq<Block>, g: Geometry, k: nat)
    requires Indexed(blocks) && k < |blocks|
    ensures ContainerOf(blocks, g, k).Some? <==> LiesInSome(blocks, g, k)
  {
    hide ContainerOf, LiesIn;
    if ContainerOf(blocks, g, k).Some? {
      ContainerIs(blocks, g, k, ContainerOf(blocks, g, k).value);
    }
    if LiesInSome(blocks, g, k) {
      var c :| LiesIn(blocks, g, k, c);
      ContainerIs(blocks, g, k, c);
    }
  }

  lemma SetsAgree(blocks: seq<Block>, g: Geometry)
    requires Indexed(blocks)
    ensures ParentSet(blocks, g) == Standing(blocks, g) && RelationSet(blocks, g) == Between(blocks, g)
  {
    hide MarkerOf, ContainerOf, LiesInSome, ListedSome;
    forall k: nat | k < |blocks|
      ensures ContainerOf(blocks, g, k).Some? <==> LiesInSome(blocks, g, k)
      ensures MarkerOf(blocks, g, k).Some? <==> ListedSome(blocks, g, k)
      ensures IsVisualBody(blocks[k].kind) <==> blocks[k].kind in FIGURES
    {
      ContainerSomewhere(blocks, g, k);
      MarkerSomewhere(blocks, g, k);
    }
    hide IsVisualBody;
  }

  lemma ParentIs(blocks: seq<Block>, g: Geometry, k: nat, p: nat)
    requires Indexed(blocks) && k < |blocks|
    ensures ParentOf(blocks, g, k) == Some(p) <==> BelongsTo(blocks, g, k, p)
  {
    hide Select, AreThose, ParentSet, RelationSet, Standing, Between;
    SetsAgree(blocks, g);
    InRange(blocks, g);
    var figures, between := SelectAll(blocks, Standing(blocks, g)), SelectAll(blocks, Between(blocks, g));
    AllSelectedAre(blocks, Standing(blocks, g));
    AllSelectedAre(blocks, Between(blocks, g));
    if BelongsTo(blocks, g, k, p) {
      var others: seq<Block>, rest: seq<Block>, i: nat :| AreThose(blocks, others, Standing(blocks, g)) &&
          AreThose(blocks, rest, Between(blocks, g)) && i < |others| &&
          g.parent(blocks[k], others, rest) == Some(i) && others[i].index == p;
      ThoseAreUnique(blocks, others, figures, Standing(blocks, g));
      ThoseAreUnique(blocks, rest, between, Between(blocks, g));
    }
  }

  lemma InRange(blocks: seq<Block>, g: Geometry)
    ensures forall k :: k in Standing(blocks, g) ==> k < |blocks|
    ensures forall k :: k in Between(blocks, g) ==> k < |blocks|
  {
    hide LiesInSome, ListedSome;
  }

  lemma ParentSomewhere(blocks: seq<Block>, g: Geometry, k: nat, p: nat)
    requires Indexed(blocks) && k < |blocks|
    ensures ParentOf(blocks, g, k).None? ==> !BelongsTo(blocks, g, k, p)
  {
    hide ParentOf, BelongsTo;
    ParentIs(blocks, g, k, p);
  }

  // ---------------------------------------------------------------- the nodes of a page

  lemma {:induction false} CountedRefs(items: seq<Block>)
    requires forall i :: 0 <= i < |items| ==> items[i].kind in {Text, RefText}
    ensures CountRefs(items) == |Positions(items, RefText)|
    ensures |Positions(items, RefText)| + |Positions(items, Text)| == |items|
  {
    if items != [] {
      var rest, n := items[..|items| - 1], |items| - 1;
      CountedRefs(rest);
      PositionsGrow(items, RefText);
      PositionsGrow(items, Text);
    }
  }

  lemma PositionsGrow(items: seq<Block>, kind: Kind)
    requires items != []
    ensures var n := |items| - 1; var before := Positions(items[..n], kind);
            && n !in before
            && Positions(items, kind) == if items[n].kind == kind then before + {n} else before
  {
  }

  lemma {:induction false} LeafIs(blocks: seq<Block>, g: Geometry, k: nat)
    requires Indexed(blocks) && k < |blocks| && NodeAt(blocks, g, k).Some? && NodeAt(blocks, g, k).value.Leaf?
    ensures IsLeaf(blocks, g, NodeAt(blocks, g, k).value.block)
  {
    hide MarkerOf, ContainerOf, ParentOf, ListedSome, BelongsTo, SelectAll;
    MarkerSomewhere(blocks, g, k);
    forall p: nat ensures !BelongsTo(blocks, g, k, p) {
      ParentSomewhere(blocks, g, k, p);
    }
  }

  lemma {:induction false} ListIs(blocks: seq<Block>, g: Geometry, k: nat)
    requires Indexed(blocks) && k < |blocks| && NodeAt(blocks, g, k).Some? && NodeAt(blocks, g, k).value.List?
    ensures var node := NodeAt(blocks, g, k).value; IsList(blocks, g, node.marker, node.refText, node.items)
  {
    hide MarkerOf, ContainerOf, ParentOf, Select, CountRefs, Positions, Listed, AreThose;
    var chosen := set x: nat | x < |blocks| && Listed(blocks, g, x, k);
    forall x: nat | x < |blocks| ensures MarkerOf(blocks, g, x) == Some(k) <==> Listed(blocks, g, x, k) {
      MarkerIsListed(blocks, g, x, k);
    }
    assert ItemSet(blocks, g, k) == chosen;
    AllSelectedAre(blocks, chosen);
    var items := SelectAll(blocks, chosen);
    ItemKinds(blocks, g, k, items);
    CountedRefs(items);
  }

  lemma ItemKinds(blocks: seq<Block>, g: Geometry, m: nat, items: seq<Block>)
    requires AreThose(blocks, items, set x: nat | x < |blocks| && Listed(blocks, g, x, m))
    ensures forall i :: 0 <= i < |items| ==> items[i].kind in {Text, RefText}
  {
  }

  lemma {:induction false} VisualIs(blocks: seq<Block>, g: Geometry, k: nat)
    requires Indexed(blocks) && k < |blocks| && NodeAt(blocks, g, k).Some? && NodeAt(blocks, g, k).value.Visual?
    ensures var node := NodeAt(blocks, g, k).value;
            IsVisual(blocks, g, node.body, node.captions, node.footnotes, node.subImages)
  {
    hide MarkerOf, ContainerOf, ParentOf, Select, AreThose, LiesInSome, LiesIn, BelongsTo, Indices;
    ContainerSomewhere(blocks, g, k);
    ChildrenAre(blocks, g, k, Caption);
    ChildrenAre(blocks, g, k, Footnote);
    MembersAre(blocks, g, k);
  }

  lemma ChildrenAre(blocks: seq<Block>, g: Geometry, p: nat, kind: Kind)
    requires Indexed(blocks)
    ensures AreThose(blocks, SelectAll(blocks, ChildSet(blocks, g, p, kind)),
                     set x: nat | x < |blocks| && blocks[x].kind == kind && BelongsTo(blocks, g, x, p))
  {
    hide ParentOf, Select, AreThose, BelongsTo;
    forall x: nat | x < |blocks| ensures ParentOf(blocks, g, x) == Some(p) <==> BelongsTo(blocks, g, x, p) {
      ParentIs(blocks, g, x, p);
    }
    var chosen := set x: nat | x < |blocks| && blocks[x].kind == kind && BelongsTo(blocks, g, x, p);
    assert ChildSet(blocks, g, p, kind) == chosen;
    AllSelectedAre(blocks, chosen);
  }

  lemma MembersAre(blocks: seq<Block>, g: Geometry, c: nat)
    requires Indexed(blocks)
    ensures var members := Indices(SelectAll(blocks, MemberSet(blocks, g, c)));
            && (forall i, j :: 0 <= i < j < |members| ==> members[i] < members[j])
            && forall x: nat :: x in members <==> x < |blocks| && LiesIn(blocks, g, x, c)
  {
    hide ContainerOf, Select, LiesIn;
    var chosen := MemberSet(blocks, g, c);
    forall x: nat | x < |blocks| ensures x in chosen <==> LiesIn(blocks, g, x, c) {
      ContainerIs(blocks, g, x, c);
    }
    AllSelectedAre(blocks, chosen);
    var members := SelectAll(blocks, chosen);
    forall x: nat ensures x in Indices(members) <==> x < |blocks| && LiesIn(blocks, g, x, c) {
      if x in chosen {
        var i :| 0 <= i < |members| && members[i] == blocks[x];
        assert Indices(members)[i] == x;
      }
      if x in Indices(members) {
        var i :| 0 <= i < |members| && Indices(members)[i] == x;
      }
      if x >= |blocks| {
        NotBeyond(blocks, g, x, c);
      }
    }
  }

  lemma NotBeyond(blocks: seq<Block>, g: Geometry, x: nat, c: nat)
    requires x >= |blocks|
    ensures !LiesIn(blocks, g, x, c)
  {
  }

  lemma {:induction false} ComposedNode(blocks: seq<Block>, g: Geometry, n: nat, i: nat) returns (k: nat)
    requires n <= |blocks| && i < |Composed(blocks, g, n)|
    ensures k < n && NodeAt(blocks, g, k) == Some(Composed(blocks, g, n)[i])
  {
    hide NodeAt;
    if i < |Composed(blocks, g, n - 1)| {
      k := ComposedNode(blocks, g, n - 1, i);
    } else {
      k := n - 1;
    }
  }

  /** Every node of a composed page holds what the page says: the right blocks, in order, as they were. */
  lemma NodesHoldTheirBlocks(blocks: seq<Block>, g: Geometry, i: nat)
    requires Indexed(blocks) && i < |Composed(blocks, g, |blocks|)|
    ensures IsNode(blocks, g, Composed(blocks, g, |blocks|)[i])
  {
    var k := ComposedNode(blocks, g, |blocks|, i);
    hide Composed, NodeAt, IsLeaf, IsList, IsVisual;
    NoTombstone(blocks, g, k);
    match NodeAt(blocks, g, k).value
    case Leaf(_) => LeafIs(blocks, g, k);
    case List(_, _, _) => ListIs(blocks, g, k);
    case Visual(_, _, _, _) => VisualIs(blocks, g, k);
    case Tombstone(_) => assert false;
  }

  lemma NoTombstone(blocks: seq<Block>, g: Geometry, k: nat)
    requires k < |blocks| && NodeAt(blocks, g, k).Some?
    ensures !NodeAt(blocks, g, k).value.Tombstone?
  {
    hide MarkerOf, ContainerOf, ParentOf, Select;
  }

  /** What a page discards is its chrome, in order and as it was. */
  lemma ChromeIsApart(blocks: seq<Block>)
    requires Indexed(blocks)
    ensures AreThose(blocks, SelectAll(blocks, ChromeSet(blocks)),
                     set k: nat | k < |blocks| && blocks[k].kind == Chrome)
  {
    hide Select, AreThose;
    AllSelectedAre(blocks, ChromeSet(blocks));
  }
}
