/**
 Which lists of references are gone after the pass, told from the document before and after alone.
 */
module ListJoins {
  import opened DocumentMerge
  import opened PageNodes
  import opened Wrappers

  /** A list of references with at least one item. */
  predicate HasReferences(node: Node) {
    node.List? && node.refText && |node.items| > 0
  }

  /** A node that shows nothing: empty lines only, no items, or what a list leaves behind. */
  predicate ShowsNothing(node: Node) {
    match node
    case Leaf(block) => forall line :: line in block.lines ==> |line| == 0
    case List(_, _, items) => |items| == 0
    case Visual(_, _, _, _) => false
    case Tombstone(_) => true
  }

  /** Every node behind the one at `q`, `k` on the pages before `p` shows nothing. */
  ghost predicate NothingBehind(now: Document, q: nat, k: nat, p: nat) {
    forall r, l :: 0 <= r < p && r < |now| && 0 <= l < |now[r]| && (q < r || (q == r && k < l)) ==>
      ShowsNothing(now[r][l])
  }

  /** The list was one of references and still is. */
  ghost predicate StillStands(was: Document, now: Document, q: nat, k: nat) {
    q < |was| == |now| && k < |was[q]| == |now[q]| && HasReferences(was[q][k]) && now[q][k].List?
  }

  /** The last thing that still shows on the pages before is a list of references that stands. */
  ghost predicate EndsInReferences(was: Document, now: Document, p: nat) {
    exists q: nat, k: nat :: q < p && StillStands(was, now, q, k) && NothingBehind(now, q, k, p)
  }

  lemma ShowsNothingIsEmpty(node: Node)
    ensures ShowsNothing(node) <==> NodeIsEmpty(node)
  {
    if node.Leaf? && ShowsNothing(node) {
      assert forall k :: 0 <= k < |node.block.lines| ==> node.block.lines[k] in node.block.lines;
    }
  }

  lemma {:induction false} StandingInIs(was: Document, p: nat, n: nat)
    requires p < |was| && n <= |was[p]|
    ensures var found := StandingIn(was, p, n);
            && (found.Some? ==> !NodeIsEmpty(was[p][found.value]) && !Joins(was, p, found.value))
            && forall l :: (if found.Some? then found.value + 1 else 0) <= l < n ==>
                 NodeIsEmpty(was[p][l]) || Joins(was, p, l)
  {
    hide NodeIsEmpty, Joins;
    if n > 0 {
      StandingInIs(was, p, n - 1);
    }
  }

  /** The node found before a page stands, and nothing behind it does. */
  lemma {:induction false} StandingIs(was: Document, page: nat, r: nat, l: nat)
    requires page <= |was| && r < page && l < |was[r]|
    ensures var found := StandingBefore(was, page);
            && (found.Some? ==> var (q, k) := found.value; !NodeIsEmpty(was[q][k]) && !Joins(was, q, k))
            && (found.None? || Earlier(found.value.0, found.value.1, r, l) ==>
                  NodeIsEmpty(was[r][l]) || Joins(was, r, l))
  {
    hide NodeIsEmpty, Joins, StandingIn;
    StandingInIs(was, page - 1, |was[page - 1]|);
    if r < page - 1 {
      StandingIs(was, page - 1, r, l);
    } else if StandingIn(was, page - 1, |was[page - 1]|).None? && page > 1 {
      var found := StandingBefore(was, page - 1);
      if found.Some? {
        StandingIs(was, page - 1, found.value.0, found.value.1);
      }
    }
  }

  lemma Afterwards(was: Document, now: Document, q: nat, k: nat)
    requires Joined(was, now) && q < |was| && k < |was[q]|
    ensures |now| == |was| && |now[q]| == |was[q]|
    ensures ShowsNothing(now[q][k]) <==> NodeIsEmpty(was[q][k]) || Joins(was, q, k)
    ensures StillStands(was, now, q, k) <==> IsRefList(was[q][k]) && !Joins(was, q, k)
  {
    hide NodeIsEmpty, Joins, AsExpected, NodesChanged, Settled, Marked, ItemsBefore, ExpectedNode;
    EmptyByNow(was, now, |was|, q, k);
    ShowsNothingIsEmpty(now[q][k]);
    JoinedExactly(was, now, q, k);
  }

  /** For the first list of a page: the list it goes on from is the last thing that still shows on earlier pages. */
  lemma FirstOfPage(was: Document, now: Document, p: nat)
    requires Joined(was, now) && p < |was| && was[p] != [] && IsRefList(was[p][0])
    ensures Joins(was, p, 0) <==> EndsInReferences(was, now, p)
  {
    hide NodeIsEmpty, Joined, StillStands, ShowsNothing, IsRefList, NothingBehind;
    var found := StandingBefore(was, p);
    assert Joins(was, p, 0) <==> found.Some? && IsRefList(was[found.value.0][found.value.1]);
    if found.Some? {
      var (q, k) := found.value;
      StandingShows(was, now, p, q, k);
    }
    forall q: nat, k: nat | q < p && StillStands(was, now, q, k) && NothingBehind(now, q, k, p)
      ensures found == Some((q, k)) && IsRefList(was[q][k])
    {
      LastShown(was, now, p, q, k);
    }
  }

  lemma StandingShows(was: Document, now: Document, p: nat, q: nat, k: nat)
    requires Joined(was, now) && p < |was| && StandingBefore(was, p) == Some((q, k))
    ensures NothingBehind(now, q, k, p)
    ensures q < p && (IsRefList(was[q][k]) ==> StillStands(was, now, q, k))
  {
    hide NodeIsEmpty, Joined, StillStands, Joins, ShowsNothing;
    forall r, l | 0 <= r < p && r < |now| && 0 <= l < |now[r]| && (q < r || (q == r && k < l))
      ensures ShowsNothing(now[r][l])
    {
      SameLength(was, now, r);
      StandingIs(was, p, r, l);
      Afterwards(was, now, r, l);
    }
    StandingIs(was, p, q, k);
    Afterwards(was, now, q, k);
  }

  lemma SameLength(was: Document, now: Document, r: nat)
    requires Joined(was, now) && (r < |was| || r < |now|)
    ensures |now| == |was| && |now[r]| == |was[r]|
  {
    SameShapeOf(was, now, |was|, 0, r);
  }

  lemma LastShown(was: Document, now: Document, p: nat, q: nat, k: nat)
    requires Joined(was, now) && q < p < |was| && StillStands(was, now, q, k) && NothingBehind(now, q, k, p)
    ensures StandingBefore(was, p) == Some((q, k)) && IsRefList(was[q][k])
  {
    hide Joined, Joins, ShowsNothing, StandingBefore;
    Afterwards(was, now, q, k);
    StandingIs(was, p, q, k);
    assert !NodeIsEmpty(was[q][k]);
    var found := StandingBefore(was, p);
    var (r, l) := found.value;
    if found != Some((q, k)) {
      SameLength(was, now, r);
      StandingIs(was, p, r, l);
      Afterwards(was, now, r, l);
    }
  }

  /**
   A list of references is gone exactly when it went on from one that still stands: the node before it on its page,
   or, for the first node of a page, the last node on the pages before that still shows anything.
   */
  lemma GoneExactly(was: Document, now: Document, p: nat, i: nat)
    requires Joined(was, now) && p < |was| && i < |was[p]|
    ensures |now| == |was| && |now[p]| == |was[p]|
    ensures was[p][i].List? && now[p][i].Tombstone? <==>
              HasReferences(was[p][i]) &&
              if i > 0 then StillStands(was, now, p, i - 1)
              else EndsInReferences(was, now, p)
  {
    hide NodeIsEmpty, Joined, StillStands, NothingBehind, StandingBefore;
    JoinedExactly(was, now, p, i);
    OnlyListsGo(was, now, p, i);
    if i > 0 {
      Afterwards(was, now, p, i - 1);
    } else if IsRefList(was[p][0]) {
      FirstOfPage(was, now, p);
    }
  }

  lemma OnlyListsGo(was: Document, now: Document, p: nat, i: nat)
    requires Joined(was, now) && p < |was| && i < |was[p]| && |now| == |was| && |now[p]| == |was[p]|
    ensures !Joins(was, p, i) && was[p][i].List? ==> now[p][i].List?
    ensures Joins(was, p, i) ==> now[p][i].Tombstone?
  {
    hide AsExpected, Across, StandingBefore;
    ExpectedAt(was, now, |was|, 0, p, i);
  }
}
