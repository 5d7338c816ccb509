/**
 The tags of a text, how they pair up, and which texts are tables.
 */
module TableTags {

  datatype Kind = Open | Close | OtherKind

  datatype Tag = Tag(start: nat, end: nat, kind: Kind, name: string, selfClosing: bool)

  ghost predicate TagsOf(source: string, tags: seq<Tag>) {
    && (forall i :: 0 <= i < |tags| ==> tags[i].start < tags[i].end <= |source|)
    && (forall i, j :: 0 <= i < j < |tags| ==> tags[i].end <= tags[j].start)
  }

  predicate IsOpen(tag: Tag, name: string) {
    tag.kind.Open? && tag.name == name
  }

  predicate IsClose(tag: Tag, name: string) {
    tag.kind.Close? && tag.name == name
  }

  /** A tag that opens an element with content. */
  predicate Begins(tag: Tag, name: string) {
    IsOpen(tag, name) && !tag.selfClosing
  }

  /** An element, by the indices of its opening and its closing tag. */
  type Element = (nat, nat)

  predicate Inside(inner: Element, outer: Element) {
    outer.0 < inner.0 && inner.1 < outer.1
  }

  predicate Apart(x: Element, y: Element) {
    x.1 < y.0 || y.1 < x.0
  }

  predicate Nest(x: Element, y: Element) {
    Apart(x, y) || Inside(x, y) || Inside(y, x)
  }

  function FirstStart(source: string, tags: seq<Tag>): (start: nat)
    requires TagsOf(source, tags) && tags != []
    ensures start <= |source|
  {
    tags[0].start
  }

  function EndOf(source: string, tags: seq<Tag>, i: nat): (end: nat)
    requires TagsOf(source, tags) && i < |tags|
    ensures end <= |source|
  {
    tags[i].end
  }

  // ---------------------------------------------------------------- which tables are read

  /** The tags up to `i` that open or close an element, each with its partner. */
  ghost predicate Partners(tags: seq<Tag>, mate: seq<nat>, k: nat)
    requires |mate| <= |tags|
  {
    k < |mate| ==>
      && (Begins(tags[k], tags[k].name) ==> k < mate[k] < |mate| && ClosesIt(tags, mate, k, mate[k]))
      && (tags[k].kind.Close? ==> mate[k] < k && ClosesIt(tags, mate, mate[k], k))
  }

  ghost predicate ClosesIt(tags: seq<Tag>, mate: seq<nat>, open: nat, close: nat)
    requires open < |mate| <= |tags| && close < |mate|
  {
    && tags[open].kind.Open? && !tags[open].selfClosing && tags[close].kind.Close?
    && tags[open].name == tags[close].name && mate[open] == close && mate[close] == open
  }

  /** Elements that begin within another end within it. */
  ghost predicate NestedMates(tags: seq<Tag>, mate: seq<nat>)
    requires |mate| <= |tags|
  {
    forall j, k :: 0 <= j < k < |mate| && Begins(tags[j], tags[j].name) && Begins(tags[k], tags[k].name) ==>
      k < mate[j] ==> mate[k] < mate[j]
  }

  /**
   The text is one table: its tags pair up and nest, the first of them opens it and the last of them closes it, no
   other table begins in it, it has a row, and only white space is around it.
   */
  ghost predicate IsTable(source: string, tags: seq<Tag>, blank: string -> bool, mate: seq<nat>)
    requires TagsOf(source, tags)
  {
    && 1 < |mate| <= |tags| && Begins(tags[0], "table") && mate[0] == |mate| - 1
    && (forall k :: 0 <= k < |mate| ==> Partners(tags, mate, k)) && NestedMates(tags, mate)
    && (forall k :: 0 < k < |mate| ==> !IsOpen(tags[k], "table"))
    && (exists k :: 0 <= k < |mate| && Begins(tags[k], "tr"))
    && blank(source[..FirstStart(source, tags)]) && blank(source[EndOf(source, tags, |mate| - 1)..])
  }

  /** The pairs found so far: everything that is not still open has its partner. */
  ghost predicate Paired(tags: seq<Tag>, mate: seq<nat>, stack: seq<nat>, closed: seq<Element>) {
    && |mate| <= |tags|
    && (forall k :: 0 <= k < |mate| && k !in stack ==> Partners(tags, mate, k))
    && (forall s :: s in stack ==> s < |mate| && Begins(tags[s], tags[s].name) && mate[s] >= |tags|)
    && (forall s, t :: 0 <= s < t < |stack| ==> stack[s] < stack[t])
    && (forall j, k :: 0 <= j < k < |mate| && Begins(tags[j], tags[j].name) && Begins(tags[k], tags[k].name) ==>
          k < mate[j] ==> mate[k] < mate[j] || (j in stack && k in stack))
    && (forall e :: e in closed ==>
          e.0 < |mate| && mate[e.0] == e.1 < |mate| && Begins(tags[e.0], tags[e.0].name))
  }

  /** However the tags pair up, what is on the stack is what is open before `i`. */
  ghost predicate StackForced(source: string, tags: seq<Tag>, blank: string -> bool, stack: seq<nat>, i: nat)
    requires TagsOf(source, tags)
  {
    forall mate :: IsTable(source, tags, blank, mate) ==>
      i < |mate| <= |tags| && OpenAt(tags, mate, stack, i)
  }

  ghost predicate OpenAt(tags: seq<Tag>, mate: seq<nat>, stack: seq<nat>, i: nat)
    requires i < |mate| <= |tags|
  {
    && (forall s: nat :: s in stack <==> s < i && Begins(tags[s], tags[s].name) && mate[s] >= i)
    && (forall s, t :: 0 <= s < t < |stack| ==> stack[s] < stack[t])
  }

  ghost predicate NoTable(source: string, tags: seq<Tag>, blank: string -> bool)
    requires TagsOf(source, tags)
  {
    forall mate :: !IsTable(source, tags, blank, mate)
  }

  lemma PairedSkip(tags: seq<Tag>, mate: seq<nat>, stack: seq<nat>, closed: seq<Element>)
    requires Paired(tags, mate, stack, closed) && |mate| < |tags|
    requires tags[|mate|].kind.OtherKind? || (tags[|mate|].kind.Open? && tags[|mate|].selfClosing)
    ensures Paired(tags, mate + [0], stack, closed)
  {
    PartnersStay(tags, mate, mate + [0], stack);
  }

  lemma PairedOpen(tags: seq<Tag>, mate: seq<nat>, stack: seq<nat>, closed: seq<Element>)
    requires Paired(tags, mate, stack, closed) && |mate| < |tags|
    requires Begins(tags[|mate|], tags[|mate|].name)
    ensures Paired(tags, mate + [|tags|], stack + [|mate|], closed)
  {
    PartnersStay(tags, mate, mate + [|tags|], stack);
    assert forall s :: 0 <= s < |stack| ==> stack[s] in stack;
    forall k | 0 <= k < |mate| && k !in stack && Begins(tags[k], tags[k].name) ensures mate[k] < |mate| {
      assert Partners(tags, mate, k);
    }
  }

  lemma PartnersStay(tags: seq<Tag>, mate: seq<nat>, longer: seq<nat>, stack: seq<nat>)
    requires |mate| < |longer| <= |tags| && mate == longer[..|mate|]
    requires forall k :: 0 <= k < |mate| && k !in stack ==> Partners(tags, mate, k)
    ensures forall k :: 0 <= k < |mate| && k !in stack ==> Partners(tags, longer, k)
  {
    forall k | 0 <= k < |mate| && k !in stack ensures Partners(tags, longer, k) {
      assert Partners(tags, mate, k);
      assert longer[k] == mate[k];
    }
  }

  lemma PairedClose(tags: seq<Tag>, mate: seq<nat>, stack: seq<nat>, closed: seq<Element>, top: nat)
    requires Paired(tags, mate, stack, closed) && |mate| < |tags| && stack != [] && top == stack[|stack| - 1]
    requires tags[|mate|].kind.Close? && top < |mate| && tags[top].name == tags[|mate|].name
    ensures Paired(tags, mate[top := |mate|] + [top], stack[..|stack| - 1], closed + [(top, |mate|)])
  {
    var i, rest, now := |mate|, stack[..|stack| - 1], mate[top := |mate|] + [top];
    assert stack == rest + [top];
    assert ClosesIt(tags, now, top, i);
    forall k | 0 <= k < |now| && k !in rest ensures Partners(tags, now, k) {
      if k != top && k != i {
        assert Partners(tags, mate, k);
      }
    }
    forall j, k | 0 <= j < k < |now| && Begins(tags[j], tags[j].name) && Begins(tags[k], tags[k].name) && k < now[j]
      ensures now[k] < now[j] || (j in rest && k in rest)
    {
      NestsOnClosing(tags, mate, stack, closed, top, j, k);
    }
  }

  lemma NestsOnClosing(tags: seq<Tag>, mate: seq<nat>, stack: seq<nat>, closed: seq<Element>, top: nat, j: nat, k: nat)
    requires Paired(tags, mate, stack, closed) && |mate| < |tags| && stack != [] && top == stack[|stack| - 1]
    requires top < |mate| && j < k < |mate| && Begins(tags[j], tags[j].name) && Begins(tags[k], tags[k].name)
    requires k < mate[top := |mate|][j]
    ensures var now := mate[top := |mate|];
            now[k] < now[j] || (j in stack[..|stack| - 1] && k in stack[..|stack| - 1])
  {
    var rest := stack[..|stack| - 1];
    assert stack == rest + [top];
    assert j !in stack ==> Partners(tags, mate, j);
    assert k !in stack ==> Partners(tags, mate, k);
  }

  lemma StackStart(source: string, tags: seq<Tag>, blank: string -> bool)
    requires TagsOf(source, tags)
    ensures StackForced(source, tags, blank, [], 0)
  {
  }

  lemma StackSkip(source: string, tags: seq<Tag>, blank: string -> bool, stack: seq<nat>, i: nat)
    requires TagsOf(source, tags) && StackForced(source, tags, blank, stack, i) && i < |tags|
    requires tags[i].kind.OtherKind? || (tags[i].kind.Open? && tags[i].selfClosing)
    ensures StackForced(source, tags, blank, stack, i + 1)
  {
    hide IsTable, OpenAt, TagsOf;
    forall mate | IsTable(source, tags, blank, mate)
      ensures i + 1 < |mate| <= |tags| && OpenAt(tags, mate, stack, i + 1)
    {
      LastCloses(source, tags, blank, mate);
      SkipOne(tags, mate, stack, i);
    }
  }

  lemma SkipOne(tags: seq<Tag>, mate: seq<nat>, stack: seq<nat>, i: nat)
    requires |mate| <= |tags| && i + 1 < |mate| && OpenAt(tags, mate, stack, i)
    requires forall k :: 0 <= k < |mate| ==> Partners(tags, mate, k)
    requires !tags[i].kind.Close? && !Begins(tags[i], tags[i].name)
    ensures OpenAt(tags, mate, stack, i + 1)
  {
    forall s | 0 <= s < i && Begins(tags[s], tags[s].name) ensures mate[s] != i {
      assert Partners(tags, mate, s);
    }
  }

  lemma StackOpen(source: string, tags: seq<Tag>, blank: string -> bool, stack: seq<nat>, i: nat)
    requires TagsOf(source, tags) && StackForced(source, tags, blank, stack, i) && i < |tags|
    requires Begins(tags[i], tags[i].name)
    ensures StackForced(source, tags, blank, stack + [i], i + 1)
  {
    hide IsTable, OpenAt, TagsOf;
    forall mate | IsTable(source, tags, blank, mate)
      ensures i + 1 < |mate| <= |tags| && OpenAt(tags, mate, stack + [i], i + 1)
    {
      LastCloses(source, tags, blank, mate);
      MateBack(tags, mate, i);
      OpenOne(tags, mate, stack, i);
    }
  }

  lemma OpenOne(tags: seq<Tag>, mate: seq<nat>, stack: seq<nat>, i: nat)
    requires |mate| <= |tags| && i + 1 < |mate| && OpenAt(tags, mate, stack, i)
    requires forall k :: 0 <= k < |mate| ==> Partners(tags, mate, k)
    requires Begins(tags[i], tags[i].name)
    ensures OpenAt(tags, mate, stack + [i], i + 1)
  {
    assert forall s :: 0 <= s < |stack| ==> stack[s] in stack;
    assert Partners(tags, mate, i);
    forall s | 0 <= s < i && Begins(tags[s], tags[s].name) ensures mate[s] != i {
      assert Partners(tags, mate, s);
    }
  }

  /** The element that a closing tag ends is the one on top. */
  lemma TopForced(source: string, tags: seq<Tag>, blank: string -> bool, stack: seq<nat>, i: nat, mate: seq<nat>)
    requires TagsOf(source, tags) && StackForced(source, tags, blank, stack, i) && i < |tags| && tags[i].kind.Close?
    requires IsTable(source, tags, blank, mate)
    ensures i < |mate| <= |tags| && mate[i] < i && stack != [] && mate[i] == stack[|stack| - 1]
    ensures ClosesIt(tags, mate, mate[i], i)
  {
    hide TagsOf;
    assert Partners(tags, mate, i);
    var open := mate[i];
    assert open in stack;
    var top := stack[|stack| - 1];
    assert top in stack;
  }

  lemma StackClose(source: string, tags: seq<Tag>, blank: string -> bool, stack: seq<nat>, i: nat)
    requires TagsOf(source, tags) && StackForced(source, tags, blank, stack, i) && i < |tags|
    requires tags[i].kind.Close? && tags[i].name != "table" && stack != []
    ensures StackForced(source, tags, blank, stack[..|stack| - 1], i + 1)
  {
    hide TagsOf, Partners;
    var rest := stack[..|stack| - 1];
    assert stack == rest + [stack[|stack| - 1]];
    forall mate | IsTable(source, tags, blank, mate)
      ensures i + 1 < |mate| <= |tags| && OpenAt(tags, mate, rest, i + 1)
    {
      TopForced(source, tags, blank, stack, i, mate);
      LastCloses(source, tags, blank, mate);
      assert mate[stack[|stack| - 1]] == i;
      forall s | 0 <= s < i && Begins(tags[s], tags[s].name) && mate[s] == i ensures s == mate[i] {
        MateBack(tags, mate, s);
      }
    }
  }

  lemma MateBack(tags: seq<Tag>, mate: seq<nat>, s: nat)
    requires |mate| <= |tags| && s < |mate| && Partners(tags, mate, s) && Begins(tags[s], tags[s].name)
    ensures s < mate[s] < |mate| && mate[mate[s]] == s
  {
  }

  /** Only the last tag closes a table. */
  lemma LastCloses(source: string, tags: seq<Tag>, blank: string -> bool, mate: seq<nat>)
    requires TagsOf(source, tags) && IsTable(source, tags, blank, mate)
    ensures forall i :: 0 <= i < |mate| && IsClose(tags[i], "table") ==> i == |mate| - 1
    ensures IsClose(tags[|mate| - 1], "table") && mate[|mate| - 1] == 0
    ensures forall i :: 0 <= i < |mate| ==> Partners(tags, mate, i)
  {
    hide TagsOf;
    assert Partners(tags, mate, 0);
    forall i | 0 <= i < |mate| && IsClose(tags[i], "table") ensures i == |mate| - 1 {
      assert Partners(tags, mate, i);
    }
  }

  lemma NoTableAtOpen(source: string, tags: seq<Tag>, blank: string -> bool, stack: seq<nat>, i: nat)
    requires TagsOf(source, tags) && StackForced(source, tags, blank, stack, i) && i < |tags|
    requires IsOpen(tags[i], "table") && stack != []
    ensures NoTable(source, tags, blank)
  {
    assert stack[0] in stack;
  }

  lemma NoTableAtClose(source: string, tags: seq<Tag>, blank: string -> bool, stack: seq<nat>, i: nat)
    requires TagsOf(source, tags) && StackForced(source, tags, blank, stack, i) && i < |tags|
    requires tags[i].kind.Close?
    requires stack == [] || (stack[|stack| - 1] < |tags| && tags[stack[|stack| - 1]].name != tags[i].name)
    ensures NoTable(source, tags, blank)
  {
    hide TagsOf, IsTable;
    forall mate ensures !IsTable(source, tags, blank, mate) {
      if IsTable(source, tags, blank, mate) {
        TopForced(source, tags, blank, stack, i, mate);
      }
    }
  }

  /** The end of the tags without the end of a table. */
  lemma NoTableBehind(source: string, tags: seq<Tag>, blank: string -> bool, stack: seq<nat>)
    requires TagsOf(source, tags) && StackForced(source, tags, blank, stack, |tags|)
    ensures NoTable(source, tags, blank)
  {
    hide TagsOf;
  }

  // ---------------------------------------------------------------- the tags pair up in one way

  lemma SameLength(source: string, tags: seq<Tag>, blank: string -> bool, a: seq<nat>, b: seq<nat>)
    requires TagsOf(source, tags) && IsTable(source, tags, blank, a) && IsTable(source, tags, blank, b)
    ensures |a| == |b|
  {
    hide TagsOf;
    LastCloses(source, tags, blank, a);
    LastCloses(source, tags, blank, b);
  }

  /** The first closing tag on which two pairings differed would have to come before itself. */
  lemma {:induction false} ClosesAgree(source: string, tags: seq<Tag>, blank: string -> bool, a: seq<nat>, b: seq<nat>,
                                       i: nat)
    requires TagsOf(source, tags) && IsTable(source, tags, blank, a) && IsTable(source, tags, blank, b)
    requires i < |a| && i < |b| && tags[i].kind.Close?
    ensures a[i] == b[i]
    decreases i
  {
    hide TagsOf, IsTable;
    IsPaired(source, tags, blank, a);
    IsPaired(source, tags, blank, b);
    if a[i] < b[i] {
      Crossing(tags, a, b, i);
      ClosesAgree(source, tags, blank, a, b, a[b[i]]);
    } else if b[i] < a[i] {
      Crossing(tags, b, a, i);
      ClosesAgree(source, tags, blank, a, b, b[a[i]]);
    }
  }

  lemma IsPaired(source: string, tags: seq<Tag>, blank: string -> bool, mate: seq<nat>)
    requires TagsOf(source, tags) && IsTable(source, tags, blank, mate)
    ensures |mate| <= |tags| && (forall k :: 0 <= k < |mate| ==> Partners(tags, mate, k)) && NestedMates(tags, mate)
  {
  }

  lemma Crossing(tags: seq<Tag>, a: seq<nat>, b: seq<nat>, i: nat)
    requires |a| <= |tags| && |b| <= |tags| && i < |a| && i < |b| && tags[i].kind.Close?
    requires NestedMates(tags, a) && forall k :: 0 <= k < |a| ==> Partners(tags, a, k)
    requires forall k :: 0 <= k < |b| ==> Partners(tags, b, k)
    requires a[i] < b[i]
    ensures var t := b[i];
            t < i && a[t] < i && tags[a[t]].kind.Close? && a[a[t]] == t && b[a[t]] != t
  {
    var s, t := a[i], b[i];
    assert Partners(tags, a, i) && Partners(tags, b, i);
    assert Partners(tags, a, t);
    var j := a[t];
    assert Partners(tags, b, j);
  }

  /** Two pairings of one table agree on all its tags. */
  lemma PairingIsUnique(source: string, tags: seq<Tag>, blank: string -> bool, a: seq<nat>, b: seq<nat>, k: nat)
    requires TagsOf(source, tags) && IsTable(source, tags, blank, a) && IsTable(source, tags, blank, b)
    requires k < |a| && (Begins(tags[k], tags[k].name) || tags[k].kind.Close?)
    ensures |a| == |b| && a[k] == b[k]
  {
    hide TagsOf, IsTable;
    SameLength(source, tags, blank, a, b);
    IsPaired(source, tags, blank, a);
    IsPaired(source, tags, blank, b);
    if tags[k].kind.Close? {
      ClosesAgree(source, tags, blank, a, b, k);
    } else {
      assert Partners(tags, a, k);
      ClosesAgree(source, tags, blank, a, b, a[k]);
      assert Partners(tags, b, a[k]);
    }
  }
}
