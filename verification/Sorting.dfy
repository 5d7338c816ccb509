/**
 Sorting by a key that no two elements share, by insertion.
 */
module Sorting {

  ghost predicate IsSorted<T>(s: seq<T>, key: T -> nat) {
    forall k, l :: 0 <= k < l < |s| ==> key(s[k]) < key(s[l])
  }

  ghost predicate KeysDiffer<T>(s: seq<T>, key: T -> nat) {
    forall k, l :: 0 <= k < l < |s| ==> key(s[k]) != key(s[l])
  }

  ghost predicate SameElements<T>(sorted: seq<T>, s: seq<T>) {
    |sorted| == |s| && (forall e :: e in s ==> e in sorted) && (forall e :: e in sorted ==> e in s)
  }

  method SortByKey<T>(s: seq<T>, key: T -> nat) returns (sorted: seq<T>)
    requires KeysDiffer(s, key)
    ensures IsSorted(sorted, key) && SameElements(sorted, s)
  {
    sorted := [];
    for i := 0 to |s|
      invariant IsSorted(sorted, key) && SameElements(sorted, s[..i])
    {
      hide IsSorted, SameElements, KeysDiffer;
      NewKey(sorted, s, key, i);
      var at := Place(sorted, key, key(s[i]));
      Placed(sorted, s, key, i, at);
      sorted := sorted[..at] + [s[i]] + sorted[at..];
    }
    assert s[..|s|] == s;
  }

  lemma NewKey<T>(sorted: seq<T>, s: seq<T>, key: T -> nat, i: nat)
    requires i < |s| && SameElements(sorted, s[..i]) && KeysDiffer(s, key)
    ensures forall k :: 0 <= k < |sorted| ==> key(sorted[k]) != key(s[i])
  {
    forall k | 0 <= k < |sorted| ensures key(sorted[k]) != key(s[i]) {
      assert sorted[k] in s[..i];
    }
  }

  method Place<T>(sorted: seq<T>, key: T -> nat, at: nat) returns (place: nat)
    requires IsSorted(sorted, key) && forall k :: 0 <= k < |sorted| ==> key(sorted[k]) != at
    ensures place <= |sorted|
    ensures forall k :: 0 <= k < place ==> key(sorted[k]) < at
    ensures forall k :: place <= k < |sorted| ==> at < key(sorted[k])
  {
    place := 0;
    while place < |sorted| && key(sorted[place]) < at
      invariant place <= |sorted|
      invariant forall k :: 0 <= k < place ==> key(sorted[k]) < at
    {
      place := place + 1;
    }
  }

  lemma Placed<T>(sorted: seq<T>, s: seq<T>, key: T -> nat, i: nat, at: nat)
    requires i < |s| && at <= |sorted| && IsSorted(sorted, key) && SameElements(sorted, s[..i])
    requires forall k :: 0 <= k < at ==> key(sorted[k]) < key(s[i])
    requires forall k :: at <= k < |sorted| ==> key(s[i]) < key(sorted[k])
    ensures var longer := sorted[..at] + [s[i]] + sorted[at..];
            IsSorted(longer, key) && SameElements(longer, s[..i + 1])
  {
    hide IsSorted;
    var longer := sorted[..at] + [s[i]] + sorted[at..];
    assert s[..i + 1] == s[..i] + [s[i]];
    assert sorted == sorted[..at] + sorted[at..];
    forall e ensures e in longer <==> e in sorted || e == s[i] {
    }
    PlacedSorted(sorted, s[i], key, at);
  }

  lemma PlacedSorted<T>(sorted: seq<T>, x: T, key: T -> nat, at: nat)
    requires at <= |sorted| && IsSorted(sorted, key)
    requires forall k :: 0 <= k < at ==> key(sorted[k]) < key(x)
    requires forall k :: at <= k < |sorted| ==> key(x) < key(sorted[k])
    ensures IsSorted(sorted[..at] + [x] + sorted[at..], key)
  {
  }

  ghost predicate Within<T>(a: seq<T>, b: seq<T>) {
    forall e :: e in a ==> e in b
  }

  /** Two sorted sequences with the same elements are equal. */
  lemma {:induction false} SortedIsUnique<T>(a: seq<T>, b: seq<T>, key: T -> nat)
    requires IsSorted(a, key) && IsSorted(b, key) && Within(a, b) && Within(b, a)
    ensures a == b
  {
    hide IsSorted;
    if a != [] {
      SomeWithin(a, b);
    }
    if b != [] {
      SomeWithin(b, a);
      SameLast(a, b, key);
      WithoutLast(a, b, key);
      WithoutLast(b, a, key);
      SortedIsUnique(a[..|a| - 1], b[..|b| - 1], key);
      assert a == a[..|a| - 1] + [a[|a| - 1]] && b == b[..|b| - 1] + [b[|b| - 1]];
    }
  }

  lemma SomeWithin<T>(a: seq<T>, b: seq<T>)
    requires a != [] && Within(a, b)
    ensures b != []
  {
    assert a[0] in b;
  }

  lemma SameLast<T>(a: seq<T>, b: seq<T>, key: T -> nat)
    requires IsSorted(a, key) && IsSorted(b, key) && a != [] && b != [] && Within(a, b) && Within(b, a)
    ensures a[|a| - 1] == b[|b| - 1]
  {
    assert a[|a| - 1] in b && b[|b| - 1] in a;
  }

  lemma WithoutLast<T>(a: seq<T>, b: seq<T>, key: T -> nat)
    requires IsSorted(a, key) && IsSorted(b, key) && a != [] && b != [] && a[|a| - 1] == b[|b| - 1] && Within(a, b)
    ensures IsSorted(a[..|a| - 1], key) && Within(a[..|a| - 1], b[..|b| - 1])
  {
    var c, d := a[..|a| - 1], b[..|b| - 1];
    assert a == c + [a[|a| - 1]] && b == d + [b[|b| - 1]];
    forall e | e in c ensures e in d {
      var k :| 0 <= k < |c| && c[k] == e;
      assert a[k] in b;
    }
  }
}
