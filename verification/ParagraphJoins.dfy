/**
 Which paragraphs of a page are joined, told from the page as it was.

 A text goes on from the text before it if it says so, only visuals stand between them, and the two may be merged;
 by then it has already taken in the texts that go on from it.
 */
module ParagraphJoins {
  import opened DocumentMerge
  import opened PageNodes
  import opened Wrappers

  /** Two texts with nothing but visuals between them. */
  ghost predicate Neighbours(was: seq<Node>, p: nat, m: nat) {
    && p < m < |was|
    && was[p].Leaf? && was[p].block.kind == Text && was[m].Leaf? && was[m].block.kind == Text
    && forall k :: p < k < m ==> was[k].Visual?
  }

  /** The text at `m` goes on from the one at `p`. */
  ghost predicate GoesOn(was: seq<Node>, p: nat, m: nat, canMerge: CanMerge)
    decreases |was| - m, 1
  {
    && Neighbours(was, p, m) && was[m].block.mergePrev
    && canMerge(was[m].block.(lines := Gathered(was, m, canMerge)), was[p].block)
  }

  ghost predicate GoesOnFromSome(was: seq<Node>, m: nat, canMerge: CanMerge) {
    exists p: nat :: p < m && GoesOn(was, p, m, canMerge)
  }

  /** The lines of a text and of all that goes on from it, in order. */
  ghost function Gathered(was: seq<Node>, i: nat, canMerge: CanMerge): seq<Line>
    requires i < |was| && was[i].Leaf?
    decreases |was| - i, 0
  {
    if m: nat :| i < m < |was| && GoesOn(was, i, m, canMerge)
    then was[i].block.lines + Gathered(was, m, canMerge)
    else was[i].block.lines
  }

  /** Whether the text at `i` has taken in the one that goes on from it, when the texts from `n` on have moved. */
  ghost predicate HasGained(was: seq<Node>, i: nat, n: nat, canMerge: CanMerge) {
    exists m: nat :: n <= m < |was| && i < m && GoesOn(was, i, m, canMerge)
  }

  /** A node when the texts from `n` on have moved. */
  ghost function Expected(was: seq<Node>, i: nat, n: nat, canMerge: CanMerge): Node
    requires i < |was|
  {
    if !IsText(was[i]) then was[i]
    else if i >= n && GoesOnFromSome(was, i, canMerge) then WithLines(was[i], [])
    else if HasGained(was, i, n, canMerge) then WithLines(was[i], Gathered(was, i, canMerge))
    else was[i]
  }

  ghost predicate AllExpected(was: seq<Node>, now: seq<Node>, n: nat, canMerge: CanMerge) {
    |now| == |was| && forall i :: 0 <= i < |was| ==> now[i] == Expected(was, i, n, canMerge)
  }

  lemma NeighbourIsUnique(was: seq<Node>, p: nat, q: nat, m: nat, l: nat)
    ensures Neighbours(was, p, m) && Neighbours(was, q, m) ==> p == q
    ensures Neighbours(was, p, m) && Neighbours(was, p, l) ==> m == l
  {
  }

  /** The code finds the neighbour. */
  lemma {:induction false} FindsNeighbour(was: seq<Node>, now: seq<Node>, n: nat, m: nat, canMerge: CanMerge)
    requires AllExpected(was, now, n, canMerge) && m <= |was|
    ensures var found := TextBefore(now, m);
            && (found.Some? ==> IsText(was[found.value]) && forall k :: found.value < k < m ==> was[k].Visual?)
            && (found.None? ==> forall p :: 0 <= p < m && IsText(was[p]) ==> exists k :: p < k < m && !was[k].Visual?)
  {
    hide GoesOnFromSome, HasGained, Gathered;
    if m > 0 {
      assert now[m - 1] == Expected(was, m - 1, n, canMerge);
      FindsNeighbour(was, now, n, m - 1, canMerge);
    }
  }

  /** A text whose turn it is has taken in what goes on from it, and the text before it is as it was. */
  lemma AtItsTurn(was: seq<Node>, i: nat, n: nat, canMerge: CanMerge)
    requires i < n <= |was| && IsText(was[i])
    ensures i == n - 1 ==> Expected(was, i, n, canMerge) == WithLines(was[i], Gathered(was, i, canMerge))
    ensures Neighbours(was, i, n - 1) ==> Expected(was, i, n, canMerge) == was[i]
  {
    if i == n - 1 {
      if m: nat :| i < m < |was| && GoesOn(was, i, m, canMerge) {
        assert HasGained(was, i, n, canMerge);
      }
    }
  }

  /** What the turn of the text at `n - 1` changes in what is expected. */
  lemma TurnChanges(was: seq<Node>, i: nat, n: nat, canMerge: CanMerge)
    requires i < |was| && 0 < n <= |was|
    ensures var before, after := Expected(was, i, n, canMerge), Expected(was, i, n - 1, canMerge);
            after == if i == n - 1 && GoesOnFromSome(was, i, canMerge) && IsText(was[i]) then WithLines(was[i], [])
                     else if GoesOn(was, i, n - 1, canMerge)
                         then WithLines(was[i], was[i].block.lines + Gathered(was, n - 1, canMerge))
                     else before
  {
    if IsText(was[i]) {
      if GoesOn(was, i, n - 1, canMerge) {
        GathersNext(was, i, n - 1, canMerge);
      }
      if HasGained(was, i, n - 1, canMerge) && !GoesOn(was, i, n - 1, canMerge) {
        var m: nat :| n - 1 <= m < |was| && i < m && GoesOn(was, i, m, canMerge);
        assert n <= m;
      }
      if HasGained(was, i, n, canMerge) {
        var m: nat :| n <= m < |was| && i < m && GoesOn(was, i, m, canMerge);
        assert n - 1 <= m;
      }
    }
  }

  lemma GathersNext(was: seq<Node>, i: nat, m: nat, canMerge: CanMerge)
    requires GoesOn(was, i, m, canMerge)
    ensures Gathered(was, i, canMerge) == was[i].block.lines + Gathered(was, m, canMerge)
    ensures HasGained(was, i, m, canMerge)
  {
    forall l: nat | i < l < |was| && GoesOn(was, i, l, canMerge) ensures l == m {
      NeighbourIsUnique(was, i, i, m, l);
    }
  }

  lemma TargetIsExpected(was: seq<Node>, now: seq<Node>, n: nat, canMerge: CanMerge)
    requires AllExpected(was, now, n, canMerge) && 0 < n <= |was|
    ensures var target := MergeTarget(now, n - 1, canMerge);
            && (target.Some? ==> GoesOn(was, target.value, n - 1, canMerge))
            && (target.None? ==> !GoesOnFromSome(was, n - 1, canMerge))
            && (target.Some? ==> IsText(was[n - 1]) && now[target.value] == was[target.value]
                                 && now[n - 1] == WithLines(was[n - 1], Gathered(was, n - 1, canMerge)))
  {
    hide Gathered, HasGained;
    var current := n - 1;
    assert now[current] == Expected(was, current, n, canMerge);
    FindsNeighbour(was, now, n, current, canMerge);
    if IsText(was[current]) {
      AtItsTurn(was, current, n, canMerge);
      var previous := TextBefore(now, current);
      if previous.Some? {
        AtItsTurn(was, previous.value, n, canMerge);
        assert now[previous.value] == Expected(was, previous.value, n, canMerge);
        forall p: nat | p < current && GoesOn(was, p, current, canMerge) ensures p == previous.value {
          NeighbourIsUnique(was, p, previous.value, current, current);
        }
      }
    }
  }

  lemma {:induction false} MergedAsExpected(was: seq<Node>, now: seq<Node>, n: nat, canMerge: CanMerge)
    requires AllExpected(was, now, n, canMerge) && n <= |was|
    ensures AllExpected(was, MergedFrom(now, n, canMerge), 0, canMerge)
    decreases n
  {
    hide Expected, GoesOnFromSome, GoesOn;
    if n > 0 {
      var target := MergeTarget(now, n - 1, canMerge);
      var next := if target.None? then now else JoinedTo(now, target.value, n - 1);
      StepExpected(was, now, next, n, canMerge);
      MergedAsExpected(was, next, n - 1, canMerge);
    }
  }

  lemma StepExpected(was: seq<Node>, now: seq<Node>, next: seq<Node>, n: nat, canMerge: CanMerge)
    requires AllExpected(was, now, n, canMerge) && 0 < n <= |was|
    requires var target := MergeTarget(now, n - 1, canMerge);
             next == if target.None? then now else JoinedTo(now, target.value, n - 1)
    ensures AllExpected(was, next, n - 1, canMerge)
  {
    hide Expected, Gathered, MergeTarget;
    TargetIsExpected(was, now, n, canMerge);
    var target := MergeTarget(now, n - 1, canMerge);
    forall i | 0 <= i < |was| ensures next[i] == Expected(was, i, n - 1, canMerge) {
      TurnChanges(was, i, n, canMerge);
      assert now[i] == Expected(was, i, n, canMerge);
      if target.Some? && GoesOn(was, i, n - 1, canMerge) {
        NeighbourIsUnique(was, i, target.value, n - 1, n - 1);
      }
      assert GoesOn(was, i, n - 1, canMerge) ==> i < n - 1 && GoesOnFromSome(was, n - 1, canMerge);
    }
  }

  /**
   What the pass makes of a page: a text that goes on from another is left without lines, any other text has its own
   lines and those of all texts that go on from it, and nothing else changes.
   */
  lemma TextPassJoins(was: seq<Node>, canMerge: CanMerge, i: nat)
    requires i < |was|
    ensures var now := MergedFrom(was, |was|, canMerge)[i];
            now == if was[i].Leaf? && was[i].block.kind == Text
                   then Leaf(was[i].block.(lines :=
                          if GoesOnFromSome(was, i, canMerge) then [] else Gathered(was, i, canMerge)))
                   else was[i]
  {
    hide MergedFrom, GoesOnFromSome, GoesOn;
    forall k | 0 <= k < |was| ensures was[k] == Expected(was, k, |was|, canMerge) {
    }
    MergedAsExpected(was, was, |was|, canMerge);
    if IsText(was[i]) && !HasGained(was, i, 0, canMerge) {
      assert Gathered(was, i, canMerge) == was[i].block.lines;
    }
  }
}
