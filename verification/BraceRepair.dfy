/**
 Removing unmatched braces from an equation.

 A brace counts unless an odd number of backslashes precedes it.  The repair drops exactly the braces that
 cannot be paired; the result is balanced, keeps everything else, and no smaller deletion would balance it.
 */
module BraceRepair {
  // ---------------------------------------------------------------- escapes and depth

  /** How many backslashes end the first `n` characters. */
  function SlashRun(s: string, n: nat): (run: nat)
    requires n <= |s|
    ensures run <= n
  {
    if n == 0 || s[n - 1] != '\\' then 0 else SlashRun(s, n - 1) + 1
  }

  predicate Escaped(s: string, i: nat)
    requires i < |s|
  {
    SlashRun(s, i) % 2 == 1
  }

  predicate Opens(s: string, i: nat)
    requires i < |s|
  {
    s[i] == '{' && !Escaped(s, i)
  }

  predicate Closes(s: string, i: nat)
    requires i < |s|
  {
    s[i] == '}' && !Escaped(s, i)
  }

  predicate IsBrace(s: string, i: nat)
    requires i < |s|
  {
    Opens(s, i) || Closes(s, i)
  }

  /** Opening minus closing braces among the first `n` characters. */
  ghost function Depth(s: string, n: nat): int
    requires n <= |s|
  {
    if n == 0 then 0
    else Depth(s, n - 1) + (if Opens(s, n - 1) then 1 else if Closes(s, n - 1) then -1 else 0)
  }

  ghost predicate Balanced(s: string) {
    (forall n :: 0 <= n <= |s| ==> Depth(s, n) >= 0) && Depth(s, |s|) == 0
  }

  // ---------------------------------------------------------------- deletions

  /** A set of positions of unescaped braces. */
  ghost predicate IsDeletion(s: string, deleted: set<nat>) {
    forall i :: i in deleted ==> i < |s| && IsBrace(s, i)
  }

  /** The first `n` characters without the deleted ones. */
  ghost function Keep(s: string, deleted: set<nat>, n: nat): (kept: string)
    requires n <= |s|
    ensures |kept| <= n
  {
    if n == 0 then "" else Keep(s, deleted, n - 1) + if n - 1 in deleted then "" else [s[n - 1]]
  }

  ghost function KeptDepth(s: string, deleted: set<nat>, n: nat): int
    requires n <= |s|
  {
    if n == 0 then 0
    else KeptDepth(s, deleted, n - 1) +
         (if n - 1 in deleted then 0 else if Opens(s, n - 1) then 1 else if Closes(s, n - 1) then -1 else 0)
  }

  ghost function Deletions(s: string, deleted: set<nat>, n: nat): nat
    requires n <= |s|
  {
    if n == 0 then 0 else Deletions(s, deleted, n - 1) + if n - 1 in deleted then 1 else 0
  }

  lemma {:induction false} SlashRunPrefix(a: string, b: string, n: nat)
    requires n <= |a|
    ensures SlashRun(a + b, n) == SlashRun(a, n)
  {
    if n > 0 {
      SlashRunPrefix(a, b, n - 1);
    }
  }

  lemma {:induction false} DepthPrefix(a: string, b: string, n: nat)
    requires n <= |a|
    ensures Depth(a + b, n) == Depth(a, n)
  {
    if n > 0 {
      DepthPrefix(a, b, n - 1);
      SlashRunPrefix(a, b, n - 1);
    }
  }

  /**
   Deleting unescaped braces changes the number of backslashes in front of a position only by an even
   number, so no character changes between escaped and unescaped.
   */
  lemma {:induction false} EscapesSurvive(s: string, deleted: set<nat>, n: nat)
    requires IsDeletion(s, deleted) && n <= |s|
    ensures SlashRun(Keep(s, deleted, n), |Keep(s, deleted, n)|) % 2 == SlashRun(s, n) % 2
  {
    if n > 0 {
      EscapesSurvive(s, deleted, n - 1);
      var kept := Keep(s, deleted, n - 1);
      if n - 1 in deleted {
        assert IsBrace(s, n - 1);
        assert Keep(s, deleted, n) == kept;
      } else {
        SlashRunPrefix(kept, [s[n - 1]], |kept|);
        assert Keep(s, deleted, n) == kept + [s[n - 1]];
      }
    }
  }

  /** The depth of what is kept, counted with the escapes of the original. */
  lemma {:induction false} DepthOfKept(s: string, deleted: set<nat>, n: nat)
    requires IsDeletion(s, deleted) && n <= |s|
    ensures Depth(Keep(s, deleted, n), |Keep(s, deleted, n)|) == KeptDepth(s, deleted, n)
  {
    if n > 0 {
      DepthOfKept(s, deleted, n - 1);
      var kept := Keep(s, deleted, n - 1);
      if n - 1 in deleted {
        assert Keep(s, deleted, n) == kept;
      } else {
        var t := kept + [s[n - 1]];
        assert Keep(s, deleted, n) == t;
        EscapesSurvive(s, deleted, n - 1);
        DepthPrefix(kept, [s[n - 1]], |kept|);
        SlashRunPrefix(kept, [s[n - 1]], |kept|);
        assert Opens(t, |kept|) == Opens(s, n - 1) && Closes(t, |kept|) == Closes(s, n - 1);
      }
    }
  }

  /** Every prefix of what is kept is what is kept of a prefix. */
  lemma {:induction false} PrefixOfKept(s: string, deleted: set<nat>, n: nat, m: nat) returns (k: nat)
    requires n <= |s| && m <= |Keep(s, deleted, n)|
    ensures k <= n && Keep(s, deleted, k) == Keep(s, deleted, n)[..m]
  {
    if m == |Keep(s, deleted, n)| {
      k := n;
    } else {
      k := PrefixOfKept(s, deleted, n - 1, m);
    }
  }

  /** Depths of the kept string are depths of what is kept of the prefixes of the original, and the other way. */
  lemma KeptDepthIsDepth(s: string, deleted: set<nat>, n: nat) returns (m: nat)
    requires IsDeletion(s, deleted) && n <= |s|
    ensures m <= |Keep(s, deleted, |s|)| && Depth(Keep(s, deleted, |s|), m) == KeptDepth(s, deleted, n)
  {
    DepthOfKept(s, deleted, n);
    var kept := Keep(s, deleted, n);
    var rest := KeepExtends(s, deleted, n, |s|);
    m := |kept|;
    DepthPrefix(kept, rest, m);
  }

  lemma DepthIsKeptDepth(s: string, deleted: set<nat>, m: nat) returns (n: nat)
    requires IsDeletion(s, deleted) && m <= |Keep(s, deleted, |s|)|
    ensures n <= |s| && Depth(Keep(s, deleted, |s|), m) == KeptDepth(s, deleted, n)
  {
    var t := Keep(s, deleted, |s|);
    n := PrefixOfKept(s, deleted, |s|, m);
    DepthOfKept(s, deleted, n);
    assert t == t[..m] + t[m..];
    DepthPrefix(t[..m], t[m..], m);
  }

  ghost predicate KeptBalanced(s: string, deleted: set<nat>) {
    (forall n :: 0 <= n <= |s| ==> KeptDepth(s, deleted, n) >= 0) && KeptDepth(s, deleted, |s|) == 0
  }

  /** The kept string is balanced exactly when the kept braces of the original are. */
  lemma BalancedKept(s: string, deleted: set<nat>)
    requires IsDeletion(s, deleted)
    ensures Balanced(Keep(s, deleted, |s|)) <==> KeptBalanced(s, deleted)
  {
    hide Keep, KeptDepth, IsDeletion, Depth;
    var t := Keep(s, deleted, |s|);
    DepthOfKept(s, deleted, |s|);
    if KeptBalanced(s, deleted) {
      forall m | 0 <= m <= |t| ensures Depth(t, m) >= 0 {
        var n := DepthIsKeptDepth(s, deleted, m);
      }
    }
    if Balanced(t) {
      forall n | 0 <= n <= |s| ensures KeptDepth(s, deleted, n) >= 0 {
        var m := KeptDepthIsDepth(s, deleted, n);
      }
    }
  }

  lemma {:induction false} KeepExtends(s: string, deleted: set<nat>, n: nat, m: nat) returns (rest: string)
    requires n <= m <= |s|
    ensures Keep(s, deleted, m) == Keep(s, deleted, n) + rest
  {
    if n == m {
      rest := "";
    } else {
      rest := KeepExtends(s, deleted, n, m - 1);
      rest := rest + if m - 1 in deleted then "" else [s[m - 1]];
    }
  }

  // ---------------------------------------------------------------- the pass over the string

  /** What one pass knows after `n` characters: open braces still unpaired, and closing braces never paired. */
  datatype Pass = Pass(opens: seq<nat>, unmatched: set<nat>)

  ghost function Scan(s: string, n: nat): Pass
    requires n <= |s|
  {
    if n == 0 then Pass([], {}) else
    var p := Scan(s, n - 1);
    if Opens(s, n - 1) then Pass(p.opens + [n - 1], p.unmatched)
    else if Closes(s, n - 1) then
      if p.opens == [] then Pass([], p.unmatched + {n - 1}) else Pass(p.opens[..|p.opens| - 1], p.unmatched)
    else p
  }

  ghost function Unmatched(s: string): set<nat> {
    var p := Scan(s, |s|);
    p.unmatched + set i | i in p.opens
  }

  /** Open positions are in order, and everything recorded is a brace of the right kind. */
  ghost predicate InPlace(s: string, n: nat, p: Pass) {
    && n <= |s|
    && (forall k :: 0 <= k < |p.opens| ==> p.opens[k] < n && Opens(s, p.opens[k]))
    && (forall i :: i in p.unmatched ==> i < n && Closes(s, i))
    && (forall a, b :: 0 <= a < b < |p.opens| ==> p.opens[a] < p.opens[b])
  }

  lemma {:induction false} ScanPositions(s: string, n: nat)
    requires n <= |s|
    ensures InPlace(s, n, Scan(s, n))
  {
    hide Opens, Closes;
    if n > 0 {
      ScanPositions(s, n - 1);
    }
  }

  lemma UnmatchedIsDeletion(s: string)
    ensures IsDeletion(s, Unmatched(s))
  {
    ScanPositions(s, |s|);
  }

  /** What is unpaired at the end and lies in a prefix was unpaired there; unmatched closing braces stay unmatched. */
  lemma {:induction false} FinalWasThere(s: string, n: nat, m: nat, i: nat)
    requires n <= m <= |s| && i < n
    ensures i in Scan(s, m).opens ==> i in Scan(s, n).opens
    ensures i in Scan(s, m).unmatched <==> i in Scan(s, n).unmatched
  {
    if n < m {
      FinalWasThere(s, n, m - 1, i);
    }
  }

  /** Open braces that will still be paired. */
  ghost function ToPair(opens: seq<nat>, deleted: set<nat>): nat {
    if opens == [] then 0
    else ToPair(opens[..|opens| - 1], deleted) + if opens[|opens| - 1] in deleted then 0 else 1
  }

  /** A brace that is popped is paired for good. */
  lemma PoppedIsKept(s: string, n: nat)
    requires 0 < n <= |s| && Closes(s, n - 1) && Scan(s, n - 1).opens != []
    ensures n - 1 !in Unmatched(s)
    ensures Scan(s, n - 1).opens[|Scan(s, n - 1).opens| - 1] !in Unmatched(s)
  {
    var p := Scan(s, n - 1);
    var top := p.opens[|p.opens| - 1];
    ScanPositions(s, n - 1);
    ScanPositions(s, n);
    ScanPositions(s, |s|);
    FinalWasThere(s, n, |s|, n - 1);
    FinalWasThere(s, n, |s|, top);
    hide Scan;
    assert top !in p.opens[..|p.opens| - 1];
    assert n - 1 !in p.opens;
    assert Opens(s, top);
  }

  /** Up to any point, what is kept opens exactly the braces still to be paired. */
  lemma {:induction false} KeptDepthIsToPair(s: string, n: nat)
    requires n <= |s|
    ensures KeptDepth(s, Unmatched(s), n) == ToPair(Scan(s, n).opens, Unmatched(s))
  {
    hide Unmatched;
    if n > 0 {
      KeptDepthIsToPair(s, n - 1);
      var p := Scan(s, n - 1);
      if Opens(s, n - 1) {
        assert (p.opens + [n - 1])[..|p.opens|] == p.opens;
      } else if Closes(s, n - 1) && p.opens != [] {
        PoppedIsKept(s, n);
      } else if Closes(s, n - 1) {
        UnpairedIsDeleted(s, n);
      } else {
        UnmatchedIsDeletion(s);
      }
    }
  }

  lemma UnpairedIsDeleted(s: string, n: nat)
    requires 0 < n <= |s| && Closes(s, n - 1) && Scan(s, n - 1).opens == []
    ensures n - 1 in Unmatched(s)
  {
    FinalWasThere(s, n, |s|, n - 1);
  }

  lemma {:induction false} NothingToPair(opens: seq<nat>, deleted: set<nat>)
    requires forall i :: i in opens ==> i in deleted
    ensures ToPair(opens, deleted) == 0
  {
    if opens != [] {
      NothingToPair(opens[..|opens| - 1], deleted);
    }
  }

  lemma RepairBalances(s: string)
    ensures Balanced(Keep(s, Unmatched(s), |s|))
  {
    UnmatchedIsDeletion(s);
    forall n | 0 <= n <= |s| ensures KeptDepth(s, Unmatched(s), n) >= 0 {
      KeptDepthIsToPair(s, n);
    }
    KeptDepthIsToPair(s, |s|);
    NothingToPair(Scan(s, |s|).opens, Unmatched(s));
    BalancedKept(s, Unmatched(s));
  }

  // ---------------------------------------------------------------- no smaller deletion balances

  function Abs(x: int): nat {
    if x < 0 then -x else x
  }

  /**
   Any deletion that keeps every prefix open enough has dropped at least the closing braces the pass could
   not pair, and as many more as its depth differs from the number of braces the pass holds open.
   */
  lemma {:induction false} DeletionsAtLeast(s: string, other: set<nat>, n: nat)
    requires n <= |s| && forall k :: 0 <= k <= n ==> KeptDepth(s, other, k) >= 0
    ensures var p := Scan(s, n);
            Deletions(s, other, n) >= |p.unmatched| + Abs(|p.opens| - KeptDepth(s, other, n))
  {
    if n > 0 {
      DeletionsAtLeast(s, other, n - 1);
      ScanPositions(s, n - 1);
      assert KeptDepth(s, other, n - 1) >= 0 && KeptDepth(s, other, n) >= 0;
      assert n - 1 !in Scan(s, n - 1).unmatched;
    }
  }

  /** The repair itself drops exactly that many. */
  lemma {:induction false} DeletionsOfRepair(s: string, n: nat)
    requires n <= |s|
    ensures var p := Scan(s, n);
            Deletions(s, Unmatched(s), n) == |p.unmatched| + |p.opens| - ToPair(p.opens, Unmatched(s))
  {
    hide Unmatched;
    if n > 0 {
      DeletionsOfRepair(s, n - 1);
      var p := Scan(s, n - 1);
      ScanPositions(s, n - 1);
      assert n - 1 !in p.unmatched;
      if Opens(s, n - 1) {
        assert (p.opens + [n - 1])[..|p.opens|] == p.opens;
      } else if Closes(s, n - 1) && p.opens != [] {
        PoppedIsKept(s, n);
      } else if Closes(s, n - 1) {
        UnpairedIsDeleted(s, n);
      } else {
        UnmatchedIsDeletion(s);
      }
    }
  }

  lemma {:induction false} DeletionsCount(s: string, deleted: set<nat>, n: nat)
    requires n <= |s|
    ensures Deletions(s, deleted, n) == |set i | i in deleted && i < n|
  {
    if n > 0 {
      DeletionsCount(s, deleted, n - 1);
      var before := set i | i in deleted && i < n - 1;
      var now := set i | i in deleted && i < n;
      assert now == if n - 1 in deleted then before + {n - 1} else before;
    } else {
      assert (set i | i in deleted && i < 0) == {};
    }
  }

  lemma DeletionSize(s: string, deleted: set<nat>)
    requires IsDeletion(s, deleted)
    ensures Deletions(s, deleted, |s|) == |deleted|
  {
    DeletionsCount(s, deleted, |s|);
    assert (set i | i in deleted && i < |s|) == deleted;
  }

  /** No deletion of unescaped braces that balances the string is smaller than the repair. */
  lemma RepairIsMinimal(s: string, other: set<nat>)
    requires IsDeletion(s, other) && Balanced(Keep(s, other, |s|))
    ensures |Unmatched(s)| <= |other|
  {
    hide Unmatched, Scan, IsDeletion;
    UnmatchedIsDeletion(s);
    BalancedKept(s, other);
    DeletionsAtLeast(s, other, |s|);
    DeletionsOfRepair(s, |s|);
    DeletionSize(s, other);
    DeletionSize(s, Unmatched(s));
    RestIsDeleted(s);
  }

  lemma RestIsDeleted(s: string)
    ensures ToPair(Scan(s, |s|).opens, Unmatched(s)) == 0
  {
    NothingToPair(Scan(s, |s|).opens, Unmatched(s));
  }

  lemma {:induction false} KeepAll(s: string, n: nat)
    requires n <= |s|
    ensures Keep(s, {}, n) == s[..n]
  {
    if n > 0 {
      KeepAll(s, n - 1);
    }
  }

  /** A balanced string loses nothing, and so a repaired string is not changed by another repair. */
  lemma BalancedIsFixed(s: string)
    requires Balanced(s)
    ensures Unmatched(s) == {} && Keep(s, Unmatched(s), |s|) == s
  {
    hide Unmatched;
    KeepAll(s, |s|);
    assert s[..|s|] == s;
    RepairIsMinimal(s, {});
  }

  lemma RepairIsFixedPoint(s: string)
    ensures var t := Keep(s, Unmatched(s), |s|);
            Keep(t, Unmatched(t), |t|) == t
  {
    RepairBalances(s);
    BalancedIsFixed(Keep(s, Unmatched(s), |s|));
  }

  /** Characters that stay keep their order, and escaped ones stay escaped. */
  lemma SurvivorsKeepEscapes(s: string, i: nat)
    requires i < |s| && i !in Unmatched(s)
    ensures var t, j := Keep(s, Unmatched(s), |s|), |Keep(s, Unmatched(s), i)|;
            j < |t| && t[j] == s[i] && Escaped(t, j) == Escaped(s, i)
  {
    hide Unmatched, Keep, SlashRun, IsDeletion;
    UnmatchedIsDeletion(s);
    EscapesSurvive(s, Unmatched(s), i);
    KeepOne(s, Unmatched(s), i);
    var kept := Keep(s, Unmatched(s), i);
    var rest := KeepExtends(s, Unmatched(s), i + 1, |s|);
    assert kept + [s[i]] + rest == kept + ([s[i]] + rest);
    SlashRunPrefix(kept, [s[i]] + rest, |kept|);
  }

  lemma KeepOne(s: string, deleted: set<nat>, i: nat)
    requires i < |s| && i !in deleted
    ensures Keep(s, deleted, i + 1) == Keep(s, deleted, i) + [s[i]]
  {
  }

  // ---------------------------------------------------------------- the repair

  method RemoveUnmatchedBraces(value: string) returns (repaired: string)
    ensures repaired == Keep(value, Unmatched(value), |value|)
    ensures Balanced(repaired)
  {
    var remove := new bool[|value|](_ => false);
    var opens: seq<nat> := [];
    var slashes := 0;
    for index := 0 to |value|
      invariant slashes == SlashRun(value, index)
      invariant opens == Scan(value, index).opens
      invariant forall j :: 0 <= j < |value| ==> (remove[j] <==> j in Scan(value, index).unmatched)
    {
      var character := value[index];
      if character == '\\' {
        slashes := slashes + 1;
        continue;
      }
      var escaped := slashes % 2 == 1;
      slashes := 0;
      if character == '{' && !escaped {
        opens := opens + [index];
      } else if character == '}' && !escaped {
        if opens == [] {
          remove[index] := true;
        } else {
          opens := opens[..|opens| - 1];
        }
      }
    }
    ScanPositions(value, |value|);
    for k := 0 to |opens|
      invariant forall j :: 0 <= j < |value| ==> (remove[j] <==> j in Scan(value, |value|).unmatched || j in opens[..k])
    {
      remove[opens[k]] := true;
    }
    assert opens[..|opens|] == opens;
    assert forall j :: 0 <= j < |value| ==> (remove[j] <==> j in Unmatched(value));
    repaired := "";
    for index := 0 to |value|
      invariant repaired == Keep(value, Unmatched(value), index)
    {
      if !remove[index] {
        repaired := repaired + [value[index]];
      }
    }
    RepairBalances(value);
  }
}
