/**
 Replacing image names in a text by their paths in the bundle.

 A name is replaced where it stands as a whole token.  The loop tries the longest name first at every
 position; for clean names it is proved to do what looking up each maximal token of the text does, and so
 replacing step by step, as images arrive, gives the same text as replacing once at the end.
 */
module ReferenceTokens {
  type Aliases = map<string, string>

  /** Which characters count as letters or digits. */
  type Alphabet = char -> bool

  predicate TokenChar(alnum: Alphabet, c: char) {
    alnum(c) || c == '.' || c == '_' || c == '-' || c == '/' || c == '\\'
  }

  predicate AllToken(alnum: Alphabet, s: string) {
    forall i :: 0 <= i < |s| ==> TokenChar(alnum, s[i])
  }

  // ---------------------------------------------------------------- the loop

  /** Names with their replacements, in the order they are tried. */
  type Replacements = seq<(string, string)>

  predicate Tried(a: string, b: string) {
    |a| > |b| || (|a| == |b| && LexLess(a, b))
  }

  predicate LexLess(a: string, b: string) {
    if a == "" || b == "" then a == "" && b != ""
    else a[0] < b[0] || (a[0] == b[0] && LexLess(a[1..], b[1..]))
  }

  /** Every alias that changes something, once, the longest first. */
  ghost predicate IsReplacements(replacements: Replacements, aliases: Aliases) {
    && (forall r :: r in replacements ==> r.0 in aliases && aliases[r.0] == r.1 && r.0 != r.1)
    && (forall k :: k in aliases && aliases[k] != k ==> (k, aliases[k]) in replacements)
    && InOrder(replacements)
  }

  lemma {:induction false} LexTotal(a: string, b: string)
    ensures LexLess(a, b) || LexLess(b, a) || a == b
  {
    if a != "" && b != "" && a[0] == b[0] {
      LexTotal(a[1..], b[1..]);
      assert a == [a[0]] + a[1..] && b == [b[0]] + b[1..];
    }
  }

  lemma {:induction false} LexTransitive(a: string, b: string, c: string)
    requires LexLess(a, b) && LexLess(b, c)
    ensures LexLess(a, c)
  {
    if a != "" && b != "" && c != "" && a[0] == b[0] == c[0] {
      LexTransitive(a[1..], b[1..], c[1..]);
    }
  }

  lemma TriedTransitive(a: string, b: string, c: string)
    requires Tried(a, b) && Tried(b, c)
    ensures Tried(a, c)
  {
    if |a| == |b| == |c| {
      LexTransitive(a, b, c);
    }
  }

  ghost predicate InOrder(replacements: Replacements) {
    forall i, j :: 0 <= i < j < |replacements| ==> Tried(replacements[i].0, replacements[j].0)
  }

  /** Where `name` goes among the replacements: behind all that are tried before it. */
  method Position(replacements: Replacements, name: string) returns (i: nat)
    requires InOrder(replacements) && (forall r :: r in replacements ==> r.0 != name)
    ensures i <= |replacements|
    ensures forall j :: 0 <= j < i ==> Tried(replacements[j].0, name)
    ensures forall j :: i <= j < |replacements| ==> Tried(name, replacements[j].0)
  {
    i := 0;
    while i < |replacements| && !Tried(name, replacements[i].0)
      invariant i <= |replacements|
      invariant forall j :: 0 <= j < i ==> Tried(replacements[j].0, name)
    {
      assert replacements[i] in replacements;
      LexTotal(name, replacements[i].0);
      i := i + 1;
    }
    forall j | i <= j < |replacements| ensures Tried(name, replacements[j].0) {
      if i < j {
        TriedTransitive(name, replacements[i].0, replacements[j].0);
      }
    }
  }

  method SortReplacements(aliases: Aliases) returns (replacements: Replacements)
    ensures IsReplacements(replacements, aliases)
  {
    var pending := set k | k in aliases && aliases[k] != k;
    replacements := [];
    while pending != {}
      invariant pending <= aliases.Keys
      invariant forall k :: k in pending ==> aliases[k] != k
      invariant forall r :: r in replacements ==> r.0 in aliases && aliases[r.0] == r.1 && r.0 != r.1 && r.0 !in pending
      invariant forall k :: k in aliases && aliases[k] != k ==> k in pending || (k, aliases[k]) in replacements
      invariant InOrder(replacements)
      decreases |pending|
    {
      hide Tried;
      var k :| k in pending;
      var i := Position(replacements, k);
      replacements := replacements[..i] + [(k, aliases[k])] + replacements[i..];
      pending := pending - {k};
    }
  }

  lemma {:induction false} LexIrreflexive(a: string, b: string)
    requires LexLess(a, b)
    ensures !LexLess(b, a) && a != b
  {
    if a != "" && b != "" && a[0] == b[0] {
      LexIrreflexive(a[1..], b[1..]);
    }
  }

  lemma TriedOnce(a: string, b: string)
    requires Tried(a, b)
    ensures !Tried(b, a) && a != b
  {
    if |a| == |b| {
      LexIrreflexive(a, b);
    }
  }

  /** The aliases determine their replacements. */
  lemma {:induction false} ReplacementsAreUnique(a: Replacements, b: Replacements, aliases: Aliases)
    requires IsReplacements(a, aliases) && IsReplacements(b, aliases)
    ensures a == b
  {
    SameOrder(a, b, aliases, |a|, |b|);
    assert a[..|a|] == a && b[..|b|] == b;
  }

  lemma ReplacementIn(a: Replacements, b: Replacements, aliases: Aliases, n: nat) returns (k: nat)
    requires IsReplacements(a, aliases) && IsReplacements(b, aliases) && n < |a|
    ensures k < |b| && b[k] == a[n]
  {
    assert a[n] in a;
    assert (a[n].0, aliases[a[n].0]) in b;
    k :| 0 <= k < |b| && b[k] == a[n];
  }

  lemma {:induction false} SameOrder(a: Replacements, b: Replacements, aliases: Aliases, n: nat, m: nat)
    requires IsReplacements(a, aliases) && IsReplacements(b, aliases)
    requires n <= |a| && m <= |b| && a[n..] == b[m..]
    ensures a[..n] == b[..m]
  {
    if n > 0 {
      LastOfBoth(a, b, aliases, n, m);
      assert a[n - 1..] == [a[n - 1]] + a[n..] && b[m - 1..] == [b[m - 1]] + b[m..];
      SameOrder(a, b, aliases, n - 1, m - 1);
      assert a[..n] == a[..n - 1] + [a[n - 1]] && b[..m] == b[..m - 1] + [b[m - 1]];
    } else if m > 0 {
      var _ := BeforeRest(b, a, aliases, m, n);
    }
  }

  lemma LastOfBoth(a: Replacements, b: Replacements, aliases: Aliases, n: nat, m: nat)
    requires IsReplacements(a, aliases) && IsReplacements(b, aliases)
    requires 0 < n <= |a| && m <= |b| && a[n..] == b[m..]
    ensures m > 0 && a[n - 1] == b[m - 1]
  {
    hide IsReplacements, Tried;
    var k := BeforeRest(a, b, aliases, n, m);
    var l := BeforeRest(b, a, aliases, m, n);
    if l < n - 1 {
      OrderedPair(a, aliases, l, n - 1);
      TriedOnce(a[l].0, a[n - 1].0);
      if k < m - 1 {
        OrderedPair(b, aliases, k, m - 1);
      }
    }
  }

  lemma OrderedPair(a: Replacements, aliases: Aliases, i: nat, j: nat)
    requires IsReplacements(a, aliases) && i < j < |a|
    ensures Tried(a[i].0, a[j].0)
  {
    hide Tried;
  }

  /** With equal rests, what stands before the rest of `a` stands before the rest of `b` too. */
  lemma BeforeRest(a: Replacements, b: Replacements, aliases: Aliases, n: nat, m: nat) returns (k: nat)
    requires IsReplacements(a, aliases) && IsReplacements(b, aliases)
    requires 0 < n <= |a| && m <= |b| && a[n..] == b[m..]
    ensures k < m && b[k] == a[n - 1]
  {
    hide IsReplacements, Tried;
    k := ReplacementIn(a, b, aliases, n - 1);
    if k >= m {
      var j := n + (k - m);
      assert b[k] == b[m..][k - m] == a[n..][k - m] == a[j];
      OrderedPair(a, aliases, n - 1, j);
      TriedOnce(a[n - 1].0, a[j].0);
    }
  }

  predicate StartsAt(value: string, index: nat, alias: string) {
    index + |alias| <= |value| && value[index..index + |alias|] == alias
  }

  /** Whether `alias` stands at `index` with no token character right before or behind it. */
  predicate Matches(alnum: Alphabet, value: string, index: nat, alias: string)
    requires index < |value|
  {
    && (index == 0 || !TokenChar(alnum, value[index - 1]))
    && (index + |alias| >= |value| || !TokenChar(alnum, value[index + |alias|]))
    && StartsAt(value, index, alias)
  }

  /** The first replacement from `k` on that matches at `index`. */
  function FirstMatch(alnum: Alphabet, value: string, index: nat, replacements: Replacements, k: nat): (m: nat)
    requires index < |value| && k <= |replacements|
    ensures k <= m <= |replacements|
    ensures m < |replacements| ==> Matches(alnum, value, index, replacements[m].0)
    ensures forall i :: k <= i < m ==> !Matches(alnum, value, index, replacements[i].0)
    decreases |replacements| - k
  {
    if k == |replacements| || Matches(alnum, value, index, replacements[k].0) then k
    else FirstMatch(alnum, value, index, replacements, k + 1)
  }

  ghost predicate NoEmptyNames(replacements: Replacements) {
    forall r :: r in replacements ==> r.0 != ""
  }

  /** What the loop appends from `index` on. */
  ghost function RewriteFrom(alnum: Alphabet, value: string, index: nat, replacements: Replacements): string
    requires index <= |value| && NoEmptyNames(replacements)
    decreases |value| - index
  {
    if index == |value| then "" else
    var m := FirstMatch(alnum, value, index, replacements, 0);
    if m < |replacements| then
      assert replacements[m] in replacements;
      replacements[m].1 + RewriteFrom(alnum, value, index + |replacements[m].0|, replacements)
    else [value[index]] + RewriteFrom(alnum, value, index + 1, replacements)
  }

  method RewriteReferenceTokens(alnum: Alphabet, value: string, replacements: Replacements) returns (output: string)
    requires NoEmptyNames(replacements)
    ensures output == RewriteFrom(alnum, value, 0, replacements)
  {
    hide NoEmptyNames, Matches;
    var index := 0;
    output := "";
    while index < |value|
      invariant index <= |value|
      invariant output + RewriteFrom(alnum, value, index, replacements) == RewriteFrom(alnum, value, 0, replacements)
      decreases |value| - index
    {
      var k := 0;
      ghost var m := FirstMatch(alnum, value, index, replacements, 0);
      while k < |replacements| && !Matches(alnum, value, index, replacements[k].0)
        invariant k <= m
        invariant FirstMatch(alnum, value, index, replacements, k) == m
      {
        k := k + 1;
      }
      if k < |replacements| {
        MatchAdvances(alnum, value, index, replacements, k);
        output := output + replacements[k].1;
        index := index + |replacements[k].0|;
      } else {
        output := output + [value[index]];
        index := index + 1;
      }
    }
  }

  lemma MatchAdvances(alnum: Alphabet, value: string, index: nat, replacements: Replacements, k: nat)
    requires index < |value| && k < |replacements| && NoEmptyNames(replacements)
    requires Matches(alnum, value, index, replacements[k].0)
    ensures index < index + |replacements[k].0| <= |value|
  {
    assert replacements[k] in replacements;
  }

  // ---------------------------------------------------------------- tokens of a text

  function RunEnd(alnum: Alphabet, value: string, index: nat): (end: nat)
    requires index <= |value|
    ensures index <= end <= |value|
    ensures forall i :: index <= i < end ==> TokenChar(alnum, value[i])
    ensures end < |value| ==> !TokenChar(alnum, value[end])
    decreases |value| - index
  {
    if index < |value| && TokenChar(alnum, value[index]) then RunEnd(alnum, value, index + 1) else index
  }

  function SegmentEnd(alnum: Alphabet, value: string, index: nat): (end: nat)
    requires index < |value|
    ensures index < end <= |value|
  {
    if TokenChar(alnum, value[index]) then RunEnd(alnum, value, index) else index + 1
  }

  /** The maximal tokens of a text from `index` on, and the characters between them one by one. */
  ghost function Segments(alnum: Alphabet, value: string, index: nat): seq<string>
    requires index <= |value|
    decreases |value| - index
  {
    if index == |value| then [] else
    var end := SegmentEnd(alnum, value, index);
    [value[index..end]] + Segments(alnum, value, end)
  }

  ghost function Flatten(segments: seq<string>): string {
    if segments == [] then "" else segments[0] + Flatten(segments[1..])
  }

  function Lookup(aliases: Aliases, token: string): string {
    if token in aliases then aliases[token] else token
  }

  ghost function LookupAll(aliases: Aliases, segments: seq<string>): (looked: seq<string>)
    ensures |looked| == |segments|
    ensures forall i :: 0 <= i < |segments| ==> looked[i] == Lookup(aliases, segments[i])
  {
    seq(|segments|, i requires 0 <= i < |segments| => Lookup(aliases, segments[i]))
  }

  /** A text with every maximal token that is an alias replaced, all others kept. */
  ghost function Rewritten(alnum: Alphabet, value: string, aliases: Aliases): string {
    Flatten(LookupAll(aliases, Segments(alnum, value, 0)))
  }

  // ---------------------------------------------------------------- clean names

  const IMAGES := "images/"

  /** A file name made of token characters, without a directory. */
  predicate IsName(alnum: Alphabet, name: string) {
    name != "" && AllToken(alnum, name) && (forall i :: 0 <= i < |name| ==> name[i] != '/')
  }

  /** Aliases as the bundle records them: a name stands for its path under `images`, or for itself. */
  ghost predicate Clean(alnum: Alphabet, aliases: Aliases) {
    && AllToken(alnum, IMAGES)
    && forall k :: k in aliases ==> IsName(alnum, k) && (aliases[k] == k || aliases[k] == IMAGES + k)
  }

  /** At the start of a token only the whole token can match. */
  lemma OnlyWholeToken(alnum: Alphabet, value: string, index: nat, name: string)
    requires index < |value| && IsName(alnum, name)
    requires index == 0 || !TokenChar(alnum, value[index - 1])
    ensures Matches(alnum, value, index, name) <==> value[index..RunEnd(alnum, value, index)] == name
  {
    var end := RunEnd(alnum, value, index);
    if StartsAt(value, index, name) {
      forall i | index <= i < index + |name| ensures TokenChar(alnum, value[i]) {
        assert value[i] == name[i - index];
      }
      assert index + |name| <= end;
    }
  }

  /** Inside a token, and at any other character, nothing matches. */
  lemma NothingMatches(alnum: Alphabet, value: string, index: nat, name: string)
    requires index < |value| && IsName(alnum, name)
    requires !TokenChar(alnum, value[index]) || (index > 0 && TokenChar(alnum, value[index - 1]))
    ensures !Matches(alnum, value, index, name)
  {
    if StartsAt(value, index, name) {
      assert value[index] == name[0];
    }
  }

  ghost predicate CleanReplacements(alnum: Alphabet, replacements: Replacements, aliases: Aliases) {
    Clean(alnum, aliases) && IsReplacements(replacements, aliases)
  }

  lemma NamesOf(alnum: Alphabet, replacements: Replacements, aliases: Aliases)
    requires CleanReplacements(alnum, replacements, aliases)
    ensures NoEmptyNames(replacements)
    ensures forall i :: 0 <= i < |replacements| ==> IsName(alnum, replacements[i].0)
  {
    forall i | 0 <= i < |replacements| ensures IsName(alnum, replacements[i].0) {
      assert replacements[i] in replacements;
    }
  }

  lemma NoReplacement(alnum: Alphabet, value: string, index: nat, replacements: Replacements, aliases: Aliases)
    requires CleanReplacements(alnum, replacements, aliases)
    requires index < |value| && (!TokenChar(alnum, value[index]) || (index > 0 && TokenChar(alnum, value[index - 1])))
    ensures FirstMatch(alnum, value, index, replacements, 0) == |replacements|
  {
    hide Matches, CleanReplacements;
    NamesOf(alnum, replacements, aliases);
    forall i | 0 <= i < |replacements| ensures !Matches(alnum, value, index, replacements[i].0) {
      NothingMatches(alnum, value, index, replacements[i].0);
    }
  }

  /** The rest of a token whose start did not match is copied. */
  lemma {:induction false} CopiesRest(alnum: Alphabet, value: string, index: nat, replacements: Replacements,
                                      aliases: Aliases)
    requires CleanReplacements(alnum, replacements, aliases) && NoEmptyNames(replacements)
    requires 0 < index <= |value| && TokenChar(alnum, value[index - 1])
    ensures var end := RunEnd(alnum, value, index);
            RewriteFrom(alnum, value, index, replacements) ==
            value[index..end] + RewriteFrom(alnum, value, end, replacements)
    decreases |value| - index
  {
    hide Matches, CleanReplacements, NoEmptyNames, FirstMatch, RewriteFrom, RunEnd, TokenChar;
    var end := RunEnd(alnum, value, index);
    if index < end {
      NoReplacement(alnum, value, index, replacements, aliases);
      RewriteCopy(alnum, value, index, replacements);
      RunEndStep(alnum, value, index);
      CopiesRest(alnum, value, index + 1, replacements, aliases);
      assert value[index..end] == [value[index]] + value[index + 1..end];
    } else {
      assert value[index..end] == "";
    }
  }

  predicate AtBoundary(alnum: Alphabet, value: string, index: nat)
    requires index <= |value|
  {
    index == 0 || index == |value| || !TokenChar(alnum, value[index]) || !TokenChar(alnum, value[index - 1])
  }

  /** At the start of a token, the loop finds the token among the replacements exactly when it is one. */
  lemma MatchIsLookup(alnum: Alphabet, value: string, index: nat, replacements: Replacements, aliases: Aliases)
    requires CleanReplacements(alnum, replacements, aliases)
    requires index < |value| && (index == 0 || !TokenChar(alnum, value[index - 1]))
    ensures var run, m := value[index..RunEnd(alnum, value, index)], FirstMatch(alnum, value, index, replacements, 0);
            if m < |replacements| then replacements[m].0 == run && replacements[m].1 == Lookup(aliases, run)
            else Lookup(aliases, run) == run
  {
    NamesOf(alnum, replacements, aliases);
    var run, m := value[index..RunEnd(alnum, value, index)], FirstMatch(alnum, value, index, replacements, 0);
    if m < |replacements| {
      OnlyWholeToken(alnum, value, index, replacements[m].0);
      assert replacements[m] in replacements;
    } else if run in aliases && aliases[run] != run {
      var i :| 0 <= i < |replacements| && replacements[i] == (run, aliases[run]);
      OnlyWholeToken(alnum, value, index, replacements[i].0);
    }
  }

  lemma GapIsNoName(alnum: Alphabet, c: char, aliases: Aliases)
    requires Clean(alnum, aliases) && !TokenChar(alnum, c)
    ensures Lookup(aliases, [c]) == [c]
  {
    assert [c][0] == c;
    assert !IsName(alnum, [c]);
  }

  /** One segment of the text: the loop appends what looking the segment up gives, and reaches its end. */
  lemma LoopStep(alnum: Alphabet, value: string, index: nat, replacements: Replacements, aliases: Aliases)
    requires CleanReplacements(alnum, replacements, aliases) && NoEmptyNames(replacements)
    requires index < |value| && AtBoundary(alnum, value, index)
    ensures var end := SegmentEnd(alnum, value, index);
            RewriteFrom(alnum, value, index, replacements) ==
            Lookup(aliases, value[index..end]) + RewriteFrom(alnum, value, end, replacements) &&
            AtBoundary(alnum, value, end)
  {
    hide CleanReplacements, NoEmptyNames, RewriteFrom, Lookup;
    if TokenChar(alnum, value[index]) {
      TokenStep(alnum, value, index, replacements, aliases);
    } else {
      GapStep(alnum, value, index, replacements, aliases);
    }
  }

  lemma TokenStep(alnum: Alphabet, value: string, index: nat, replacements: Replacements, aliases: Aliases)
    requires CleanReplacements(alnum, replacements, aliases) && NoEmptyNames(replacements)
    requires index < |value| && TokenChar(alnum, value[index]) && (index == 0 || !TokenChar(alnum, value[index - 1]))
    ensures var end := RunEnd(alnum, value, index);
            RewriteFrom(alnum, value, index, replacements) ==
            Lookup(aliases, value[index..end]) + RewriteFrom(alnum, value, end, replacements)
  {
    hide CleanReplacements, NoEmptyNames, Matches, FirstMatch, Lookup, RewriteFrom, RunEnd, TokenChar;
    var m, end := FirstMatch(alnum, value, index, replacements, 0), RunEnd(alnum, value, index);
    MatchIsLookup(alnum, value, index, replacements, aliases);
    RunEndStep(alnum, value, index);
    if m < |replacements| {
      RewriteMatch(alnum, value, index, replacements);
    } else {
      RewriteCopy(alnum, value, index, replacements);
      CopiesRest(alnum, value, index + 1, replacements, aliases);
      assert value[index..end] == [value[index]] + value[index + 1..end];
    }
  }

  lemma RunEndStep(alnum: Alphabet, value: string, index: nat)
    requires index < |value| && TokenChar(alnum, value[index])
    ensures RunEnd(alnum, value, index) == RunEnd(alnum, value, index + 1)
  {
  }

  lemma RewriteMatch(alnum: Alphabet, value: string, index: nat, replacements: Replacements)
    requires index < |value| && NoEmptyNames(replacements)
    requires FirstMatch(alnum, value, index, replacements, 0) < |replacements|
    ensures var (name, target) := replacements[FirstMatch(alnum, value, index, replacements, 0)];
            index + |name| <= |value| &&
            RewriteFrom(alnum, value, index, replacements) ==
                target + RewriteFrom(alnum, value, index + |name|, replacements)
  {
  }

  lemma RewriteCopy(alnum: Alphabet, value: string, index: nat, replacements: Replacements)
    requires index < |value| && NoEmptyNames(replacements)
    requires FirstMatch(alnum, value, index, replacements, 0) == |replacements|
    ensures RewriteFrom(alnum, value, index, replacements) ==
        [value[index]] + RewriteFrom(alnum, value, index + 1, replacements)
  {
  }

  lemma GapStep(alnum: Alphabet, value: string, index: nat, replacements: Replacements, aliases: Aliases)
    requires CleanReplacements(alnum, replacements, aliases) && NoEmptyNames(replacements)
    requires index < |value| && !TokenChar(alnum, value[index])
    ensures RewriteFrom(alnum, value, index, replacements) ==
            Lookup(aliases, value[index..index + 1]) + RewriteFrom(alnum, value, index + 1, replacements)
  {
    hide CleanReplacements, NoEmptyNames, Matches, FirstMatch, Lookup, TokenChar;
    CleanOf(alnum, replacements, aliases);
    NoReplacement(alnum, value, index, replacements, aliases);
    GapIsNoName(alnum, value[index], aliases);
    assert value[index..index + 1] == [value[index]];
  }

  /** The loop, started between tokens, does what looking up each token does. */
  lemma {:induction false} LoopIsLookup(alnum: Alphabet, value: string, index: nat, replacements: Replacements,
                                        aliases: Aliases)
    requires CleanReplacements(alnum, replacements, aliases) && NoEmptyNames(replacements)
    requires index <= |value| && AtBoundary(alnum, value, index)
    ensures RewriteFrom(alnum, value, index, replacements) == Flatten(LookupAll(aliases, Segments(alnum, value, index)))
    decreases |value| - index
  {
    hide CleanReplacements, NoEmptyNames, AtBoundary, SegmentEnd, Lookup;
    if index < |value| {
      hide RewriteFrom, Flatten, LookupAll;
      var end := SegmentEnd(alnum, value, index);
      LoopStep(alnum, value, index, replacements, aliases);
      LoopIsLookup(alnum, value, end, replacements, aliases);
      LookupCons(aliases, value[index..end], Segments(alnum, value, end));
    }
  }

  lemma CleanOf(alnum: Alphabet, replacements: Replacements, aliases: Aliases)
    requires CleanReplacements(alnum, replacements, aliases)
    ensures Clean(alnum, aliases)
  {
  }

  lemma LookupCons(aliases: Aliases, first: string, rest: seq<string>)
    ensures Flatten(LookupAll(aliases, [first] + rest)) == Lookup(aliases, first) + Flatten(LookupAll(aliases, rest))
  {
    assert LookupAll(aliases, [first] + rest)[1..] == LookupAll(aliases, rest);
  }

  /** For clean names, rewriting replaces exactly the maximal tokens that are names. */
  lemma RewriteIsLookup(alnum: Alphabet, value: string, replacements: Replacements, aliases: Aliases)
    requires CleanReplacements(alnum, replacements, aliases)
    ensures NoEmptyNames(replacements) && RewriteFrom(alnum, value, 0, replacements) == Rewritten(alnum, value, aliases)
  {
    NamesOf(alnum, replacements, aliases);
    LoopIsLookup(alnum, value, 0, replacements, aliases);
  }

  // ---------------------------------------------------------------- cutting a rewritten text again

  predicate IsRun(alnum: Alphabet, segment: string) {
    segment != "" && AllToken(alnum, segment)
  }

  predicate IsGap(alnum: Alphabet, segment: string) {
    |segment| == 1 && !TokenChar(alnum, segment[0])
  }

  /** Tokens and single other characters, no two tokens side by side. */
  ghost predicate WellCut(alnum: Alphabet, segments: seq<string>) {
    && (forall i :: 0 <= i < |segments| ==> IsRun(alnum, segments[i]) || IsGap(alnum, segments[i]))
    && (forall i :: 0 <= i < |segments| - 1 ==> IsGap(alnum, segments[i]) || IsGap(alnum, segments[i + 1]))
  }

  lemma {:induction false} SegmentsWellCut(alnum: Alphabet, value: string, index: nat)
    requires index <= |value|
    ensures var segments := Segments(alnum, value, index);
            WellCut(alnum, segments) &&
            (segments != [] <==> index < |value|) &&
            (segments != [] && !TokenChar(alnum, value[index]) ==> IsGap(alnum, segments[0]))
    decreases |value| - index
  {
    if index < |value| {
      var end := SegmentEnd(alnum, value, index);
      SegmentsWellCut(alnum, value, end);
      var rest := Segments(alnum, value, end);
      var first := value[index..end];
      WellCutCons(alnum, first, rest);
    }
  }

  lemma WellCutCons(alnum: Alphabet, first: string, rest: seq<string>)
    requires WellCut(alnum, rest) && (IsRun(alnum, first) || IsGap(alnum, first))
    requires rest != [] ==> IsGap(alnum, first) || IsGap(alnum, rest[0])
    ensures WellCut(alnum, [first] + rest)
  {
  }

  lemma WellCutTail(alnum: Alphabet, segments: seq<string>)
    requires WellCut(alnum, segments) && segments != []
    ensures WellCut(alnum, segments[1..]) && (IsRun(alnum, segments[0]) || IsGap(alnum, segments[0]))
    ensures IsRun(alnum, segments[0]) && segments[1..] != [] ==> IsGap(alnum, segments[1..][0])
  {
    assert |segments| > 1 ==> IsGap(alnum, segments[0]) || IsGap(alnum, segments[0 + 1]);
    assert forall i :: 0 <= i < |segments| - 2 ==> segments[1..][i] == segments[i + 1];
  }

  lemma {:induction false} RunEndShift(alnum: Alphabet, x: string, y: string, i: nat)
    requires i <= |y|
    ensures RunEnd(alnum, x + y, |x| + i) == |x| + RunEnd(alnum, y, i)
    decreases |y| - i
  {
    if i < |y| && TokenChar(alnum, y[i]) {
      RunEndShift(alnum, x, y, i + 1);
    }
  }

  lemma SegmentEndShift(alnum: Alphabet, x: string, y: string, i: nat)
    requires i < |y|
    ensures SegmentEnd(alnum, x + y, |x| + i) == |x| + SegmentEnd(alnum, y, i)
  {
    RunEndShift(alnum, x, y, i);
  }

  lemma {:induction false} SegmentsShift(alnum: Alphabet, x: string, y: string, i: nat)
    requires i <= |y|
    ensures Segments(alnum, x + y, |x| + i) == Segments(alnum, y, i)
    decreases |y| - i
  {
    hide TokenChar, RunEnd, SegmentEnd;
    if i < |y| {
      var value, end := x + y, SegmentEnd(alnum, y, i);
      SegmentEndShift(alnum, x, y, i);
      SegmentsShift(alnum, x, y, end);
      assert value[|x| + i..|x| + end] == y[i..end];
      assert Segments(alnum, value, |x| + i) == [value[|x| + i..|x| + end]] + Segments(alnum, value, |x| + end);
    }
  }

  lemma RunEndAt(alnum: Alphabet, value: string, index: nat, end: nat)
    requires index <= end <= |value|
    requires forall i :: index <= i < end ==> TokenChar(alnum, value[i])
    requires end < |value| ==> !TokenChar(alnum, value[end])
    ensures RunEnd(alnum, value, index) == end
  {
  }

  /** A well cut text is cut the same way again. */
  lemma {:induction false} CutAgain(alnum: Alphabet, segments: seq<string>)
    requires WellCut(alnum, segments)
    ensures Segments(alnum, Flatten(segments), 0) == segments
  {
    hide WellCut, IsRun, IsGap, Segments, SegmentEnd, Flatten;
    if segments == [] {
      NothingCut(alnum);
    } else {
      var first, rest := segments[0], segments[1..];
      WellCutTail(alnum, segments);
      CutAgain(alnum, rest);
      var y := Flatten(rest);
      FlattenFirst(segments);
      FirstCut(alnum, first, rest);
      SegmentsShift(alnum, first, y, 0);
      FirstSegment(alnum, first, y);
      assert segments == [first] + rest;
    }
  }

  lemma NothingCut(alnum: Alphabet)
    ensures Segments(alnum, Flatten([]), 0) == []
  {
  }

  lemma FlattenFirst(segments: seq<string>)
    requires segments != []
    ensures Flatten(segments) == segments[0] + Flatten(segments[1..])
  {
  }

  /** Behind a token comes no other token, so the cut falls where it did. */
  lemma FirstCut(alnum: Alphabet, first: string, rest: seq<string>)
    requires IsRun(alnum, first) || IsGap(alnum, first)
    requires IsRun(alnum, first) && rest != [] ==> IsGap(alnum, rest[0])
    ensures first != "" && SegmentEnd(alnum, first + Flatten(rest), 0) == |first|
  {
    var y := Flatten(rest);
    var value := first + y;
    assert value[0] == first[0];
    if IsRun(alnum, first) {
      if rest != [] {
        assert y[0] == rest[0][0];
      }
      RunEndAt(alnum, value, 0, |first|);
    }
  }

  lemma FirstSegment(alnum: Alphabet, first: string, y: string)
    requires first != "" && SegmentEnd(alnum, first + y, 0) == |first|
    ensures Segments(alnum, first + y, 0) == [first] + Segments(alnum, first + y, |first|)
  {
    hide SegmentEnd;
    assert (first + y)[0..|first|] == first;
  }

  lemma LookupWellCut(alnum: Alphabet, segments: seq<string>, aliases: Aliases)
    requires WellCut(alnum, segments) && Clean(alnum, aliases)
    ensures WellCut(alnum, LookupAll(aliases, segments))
  {
    var looked := LookupAll(aliases, segments);
    forall i | 0 <= i < |segments|
      ensures IsRun(alnum, segments[i]) ==> IsRun(alnum, looked[i])
      ensures IsGap(alnum, segments[i]) ==> IsGap(alnum, looked[i])
    {
      if IsGap(alnum, segments[i]) {
        GapIsNoName(alnum, segments[i][0], aliases);
        assert segments[i] == [segments[i][0]];
      }
    }
    assert forall i :: 0 <= i < |segments| - 1 ==> IsGap(alnum, segments[i]) || IsGap(alnum, segments[i + 1]);
  }

  // ---------------------------------------------------------------- order of arrival

  ghost predicate Grows(a: Aliases, b: Aliases) {
    forall k :: k in a ==> k in b && a[k] == b[k]
  }

  lemma LookupTwice(alnum: Alphabet, a: Aliases, b: Aliases, token: string)
    requires Clean(alnum, a) && Clean(alnum, b) && Grows(a, b)
    ensures Lookup(b, Lookup(a, token)) == Lookup(b, token)
  {
    var target := IMAGES + token;
    assert target[6] == '/';
    assert !IsName(alnum, target);
  }

  /** Rewriting with some aliases first and with all of them later is rewriting with all of them once. */
  lemma RewriteTwice(alnum: Alphabet, value: string, a: Aliases, b: Aliases)
    requires Clean(alnum, a) && Clean(alnum, b) && Grows(a, b)
    ensures Rewritten(alnum, Rewritten(alnum, value, a), b) == Rewritten(alnum, value, b)
  {
    hide Clean, Grows, Flatten, Lookup;
    var segments := Segments(alnum, value, 0);
    SegmentsWellCut(alnum, value, 0);
    LookupWellCut(alnum, segments, a);
    CutAgain(alnum, LookupAll(a, segments));
    forall i | 0 <= i < |segments| ensures Lookup(b, LookupAll(a, segments)[i]) == Lookup(b, segments[i]) {
      LookupTwice(alnum, a, b, segments[i]);
    }
    assert LookupAll(b, LookupAll(a, segments)) == LookupAll(b, segments);
  }

  lemma {:induction false} FlattenSegments(alnum: Alphabet, value: string, index: nat)
    requires index <= |value|
    ensures Flatten(Segments(alnum, value, index)) == value[index..]
    decreases |value| - index
  {
    if index < |value| {
      var end := SegmentEnd(alnum, value, index);
      FlattenSegments(alnum, value, end);
      assert Segments(alnum, value, index) == [value[index..end]] + Segments(alnum, value, end);
      assert value[index..] == value[index..end] + value[end..];
    }
  }

  /** Without aliases a text stays as it is. */
  lemma RewriteNothing(alnum: Alphabet, value: string)
    ensures Rewritten(alnum, value, map[]) == value
  {
    var segments := Segments(alnum, value, 0);
    assert LookupAll(map[], segments) == segments;
    FlattenSegments(alnum, value, 0);
  }

  // ---------------------------------------------------------------- names within names

  /** Whatever matches as a whole token is one of the segments. */
  lemma {:induction false} MatchIsSegment(alnum: Alphabet, value: string, from: nat, index: nat, name: string)
    requires from <= index < |value| && IsName(alnum, name) && Matches(alnum, value, index, name)
    ensures name in Segments(alnum, value, from)
    decreases index - from
  {
    hide IsName, Matches, TokenChar, RunEnd;
    MatchBounds(alnum, value, index, name);
    var end := SegmentEnd(alnum, value, from);
    if index < end {
      assert index == from by {
        if from < index {
          InsideRun(alnum, value, from, index);
        }
      }
      OnlyWholeToken(alnum, value, index, name);
    } else {
      MatchIsSegment(alnum, value, end, index, name);
    }
  }

  lemma InsideRun(alnum: Alphabet, value: string, from: nat, index: nat)
    requires from < index < |value| && index < SegmentEnd(alnum, value, from)
    ensures TokenChar(alnum, value[index - 1])
  {
  }

  lemma MatchBounds(alnum: Alphabet, value: string, index: nat, name: string)
    requires index < |value| && IsName(alnum, name) && Matches(alnum, value, index, name)
    ensures TokenChar(alnum, value[index]) && (index == 0 || !TokenChar(alnum, value[index - 1]))
  {
    assert value[index] == name[0];
  }

  /** Where nothing matches, the text stays as it is. */
  lemma {:induction false} NothingToRewrite(alnum: Alphabet, value: string, index: nat, replacements: Replacements)
    requires index <= |value| && NoEmptyNames(replacements)
    requires forall i, k :: index <= i < |value| && 0 <= k < |replacements| ==>
        !Matches(alnum, value, i, replacements[k].0)
    ensures RewriteFrom(alnum, value, index, replacements) == value[index..]
    decreases |value| - index
  {
    hide Matches;
    if index < |value| {
      NothingToRewrite(alnum, value, index + 1, replacements);
      assert value[index..] == [value[index]] + value[index + 1..];
    }
  }

  /** `name` is a token inside `whole`, but not at its start. */
  predicate Nested(alnum: Alphabet, before: string, name: string, behind: string) {
    && before != "" && !TokenChar(alnum, before[|before| - 1])
    && (behind != "" ==> !TokenChar(alnum, behind[0]))
  }

  lemma SliceOfSlice(value: string, index: nat, length: nat, from: nat, count: nat)
    requires index + length <= |value| && from + count <= length
    ensures value[index..index + length][from..from + count] == value[index + from..index + from + count]
  {
    var part, slice := value[index..index + length], value[index + from..index + from + count];
    assert |part[from..from + count]| == |slice|;
    forall k | 0 <= k < count ensures part[from..from + count][k] == slice[k] {
      assert part[from + k] == value[index + (from + k)] == slice[k];
    }
  }

  lemma NestedMatches(alnum: Alphabet, value: string, index: nat, before: string, name: string, behind: string)
    requires Nested(alnum, before, name, behind) && IsName(alnum, name) && index < |value|
    requires StartsAt(value, index, before + name + behind)
    requires var end := index + |before + name + behind|; end >= |value| || !TokenChar(alnum, value[end])
    ensures index + |before| < |value| && Matches(alnum, value, index + |before|, name)
  {
    hide TokenChar;
    var whole, at := before + name + behind, index + |before|;
    var part := value[index..index + |whole|];
    assert part == whole;
    assert value[at - 1] == part[|before| - 1] == before[|before| - 1];
    SliceOfSlice(value, index, |whole|, |before|, |name|);
    assert part[|before|..|before| + |name|] == name;
    if behind != "" {
      assert value[at + |name|] == part[|before| + |name|] == behind[0];
    }
  }

  lemma MatchEnds(alnum: Alphabet, value: string, index: nat, alias: string)
    requires index < |value| && Matches(alnum, value, index, alias)
    ensures StartsAt(value, index, alias)
    ensures var end := index + |alias|; end >= |value| || !TokenChar(alnum, value[end])
  {
  }

  /** Once a name has been replaced, it is no token of the text any more. */
  lemma ReplacedIsGone(alnum: Alphabet, value: string, name: string)
    requires AllToken(alnum, IMAGES) && IsName(alnum, name)
    ensures name !in Segments(alnum, Rewritten(alnum, value, map[name := IMAGES + name]), 0)
  {
    hide IsName, TokenChar;
    var aliases, segments := map[name := IMAGES + name], Segments(alnum, value, 0);
    SegmentsWellCut(alnum, value, 0);
    LookupWellCut(alnum, segments, aliases);
    CutAgain(alnum, LookupAll(aliases, segments));
    assert |IMAGES + name| == 7 + |name|;
  }

  /**
   Names that hold a clean name as a token behind their start are not clean, and for all of them the order matters:
   once the name inside has been replaced in the text, the name around it is no longer found.
   */
  lemma NestedNamesBreakOrder(alnum: Alphabet, before: string, name: string, behind: string)
    requires AllToken(alnum, IMAGES) && IsName(alnum, name) && Nested(alnum, before, name, behind)
    ensures var whole := before + name + behind;
            var first, all := [(name, IMAGES + name)], [(whole, IMAGES + whole), (name, IMAGES + name)];
            IsReplacements(first, map[name := IMAGES + name]) &&
            IsReplacements(all, map[whole := IMAGES + whole, name := IMAGES + name]) &&
            NoEmptyNames(first) && NoEmptyNames(all) &&
            RewriteFrom(alnum, RewriteFrom(alnum, whole, 0, first), 0, all) != RewriteFrom(alnum, whole, 0, all)
  {
    hide IsName, TokenChar, Rewritten, Matches, Nested;
    var whole := before + name + behind;
    var first, all := [(name, IMAGES + name)], [(whole, IMAGES + whole), (name, IMAGES + name)];
    NestedNames(alnum, before, name, behind);
    RewriteIsLookup(alnum, whole, first, map[name := IMAGES + name]);
    var once := RewriteFrom(alnum, whole, 0, first);
    ReplacedIsGone(alnum, whole, name);
    forall i, k | 0 <= i < |once| && 0 <= k < |all| ensures !Matches(alnum, once, i, all[k].0) {
      GoneNeverMatches(alnum, once, i, before, name, behind);
    }
    NothingToRewrite(alnum, once, 0, all);
    assert once[0..] == once;
    WholeReplaced(alnum, before, name, behind);
    assert RewriteFrom(alnum, whole, 0, all) == IMAGES + whole;
    NestedInTarget(alnum, before, name, behind);
  }

  lemma NestedNames(alnum: Alphabet, before: string, name: string, behind: string)
    requires AllToken(alnum, IMAGES) && IsName(alnum, name) && Nested(alnum, before, name, behind)
    ensures var whole := before + name + behind;
            var first, all := [(name, IMAGES + name)], [(whole, IMAGES + whole), (name, IMAGES + name)];
            IsReplacements(first, map[name := IMAGES + name]) && NoEmptyNames(first) && NoEmptyNames(all) &&
            IsReplacements(all, map[whole := IMAGES + whole, name := IMAGES + name]) &&
            CleanReplacements(alnum, first, map[name := IMAGES + name])
  {
    var whole := before + name + behind;
    assert |whole| > |name| > 0 && |IMAGES + whole| > |whole| && |IMAGES + name| > |name|;
    var first, all := [(name, IMAGES + name)], [(whole, IMAGES + whole), (name, IMAGES + name)];
    assert first[0] in first && all[0] in all && all[1] in all;
  }

  /** Without the token, neither the name nor the one around it matches anywhere. */
  lemma GoneNeverMatches(alnum: Alphabet, value: string, i: nat, before: string, name: string, behind: string)
    requires IsName(alnum, name) && Nested(alnum, before, name, behind) && i < |value|
    requires name !in Segments(alnum, value, 0)
    ensures !Matches(alnum, value, i, name) && !Matches(alnum, value, i, before + name + behind)
  {
    hide IsName, AllToken, TokenChar, Nested, Matches, Segments;
    if Matches(alnum, value, i, name) {
      MatchIsSegment(alnum, value, 0, i, name);
    } else if Matches(alnum, value, i, before + name + behind) {
      var at := NestedAt(alnum, value, i, before, name, behind);
      MatchIsSegment(alnum, value, 0, at, name);
    }
  }

  lemma NestedAt(alnum: Alphabet, value: string, i: nat, before: string, name: string, behind: string)
    returns (at: nat)
    requires IsName(alnum, name) && Nested(alnum, before, name, behind) && i < |value|
    requires Matches(alnum, value, i, before + name + behind)
    ensures at < |value| && Matches(alnum, value, at, name)
  {
    hide IsName, TokenChar, Nested, Matches, Segments;
    MatchEnds(alnum, value, i, before + name + behind);
    NestedMatches(alnum, value, i, before, name, behind);
    at := i + |before|;
  }

  /** Replaced in one go, the name around is found. */
  lemma WholeReplaced(alnum: Alphabet, before: string, name: string, behind: string)
    requires IsName(alnum, name)
    ensures var whole := before + name + behind; var all := [(whole, IMAGES + whole), (name, IMAGES + name)];
            NoEmptyNames(all) && RewriteFrom(alnum, whole, 0, all) == IMAGES + whole
  {
    var whole := before + name + behind;
    var all := [(whole, IMAGES + whole), (name, IMAGES + name)];
    assert whole[0..|whole|] == whole;
    MatchWhere(alnum, whole, 0, all);
    assert RewriteFrom(alnum, whole, |whole|, all) == "";
  }

  lemma NestedInTarget(alnum: Alphabet, before: string, name: string, behind: string)
    requires IsName(alnum, name) && Nested(alnum, before, name, behind)
    ensures name in Segments(alnum, IMAGES + (before + name + behind), 0)
  {
    hide IsName, TokenChar, Nested, Matches;
    var whole := before + name + behind;
    var target := IMAGES + whole;
    assert target[7..7 + |whole|] == whole;
    NameNotEmpty(alnum, name);
    NestedMatches(alnum, target, 7, before, name, behind);
    MatchIsSegment(alnum, target, 0, 7 + |before|, name);
  }

  lemma NameNotEmpty(alnum: Alphabet, name: string)
    requires IsName(alnum, name)
    ensures name != ""
  {
  }

  lemma MatchWhere(alnum: Alphabet, value: string, index: nat, replacements: Replacements)
    requires index < |value| && NoEmptyNames(replacements) && replacements != []
    requires Matches(alnum, value, index, replacements[0].0)
    ensures var (name, target) := replacements[0];
            index + |name| <= |value| &&
            RewriteFrom(alnum, value, index, replacements) ==
                target + RewriteFrom(alnum, value, index + |name|, replacements)
  {
    hide Matches, RewriteFrom;
    RewriteMatch(alnum, value, index, replacements);
  }
}
