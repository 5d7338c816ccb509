/**
 The paths a bundle has handed out: reserving a path with its directories, and taking the reservation back.

 Paths are kept under their lower-case keys, so that two paths that differ only in case cannot both be used.
 A path is the sequence of its components; `lower` stands for the lower-casing of one component.
 */
module BundlePaths {

  type Path = seq<string>

  type Lower = string -> string

  const MAX_BUNDLE_ENTRIES := 8192
  const MAX_BUNDLE_NAME_BUDGET := 32 * 1024 * 1024

  // ---------------------------------------------------------------- sizes in bytes

  /** How many bytes UTF-8 takes for a character. */
  function Utf8Width(c: char): (width: nat)
    ensures 1 <= width <= 4
  {
    if c as int < 0x80 then 1 else if c as int < 0x800 then 2 else if c as int < 0x10000 then 3 else 4
  }

  function Bytes(s: string): nat {
    if s == "" then 0 else Bytes(s[..|s| - 1]) + Utf8Width(s[|s| - 1])
  }

  lemma {:induction false} BytesConcat(a: string, b: string)
    ensures Bytes(a + b) == Bytes(a) + Bytes(b)
  {
    if b == "" {
      assert a + b == a;
    } else {
      BytesConcat(a, b[..|b| - 1]);
      assert (a + b)[..|a + b| - 1] == a + b[..|b| - 1];
    }
  }

  /** The length of a path written with slashes. */
  function NameBytes(p: Path): nat {
    if p == [] then 0 else NameBytes(p[..|p| - 1]) + Bytes(p[|p| - 1]) + (if |p| > 1 then 1 else 0)
  }

  // ---------------------------------------------------------------- sums over maps

  ghost function WeightOf<K(!new), V(!new)>(m: map<K, V>, weight: (K, V) -> nat): nat {
    if m == map[] then 0 else
    var k :| k in m;
    weight(k, m[k]) + WeightOf(m - {k}, weight)
  }

  /** The sum does not depend on the order of the entries. */
  lemma {:induction false} WeightTake<K(!new), V(!new)>(m: map<K, V>, weight: (K, V) -> nat, k: K)
    requires k in m
    ensures WeightOf(m, weight) == weight(k, m[k]) + WeightOf(m - {k}, weight)
    decreases |m|
  {
    var first :| first in m && WeightOf(m, weight) == weight(first, m[first]) + WeightOf(m - {first}, weight);
    if first != k {
      WeightTake(m - {first}, weight, k);
      WeightTake(m - {k}, weight, first);
      assert m - {first} - {k} == m - {k} - {first};
    }
  }

  lemma WeightPut<K(!new), V(!new)>(m: map<K, V>, weight: (K, V) -> nat, k: K, v: V)
    ensures WeightOf(m[k := v], weight) ==
        (if k in m then WeightOf(m, weight) - weight(k, m[k]) else WeightOf(m, weight)) + weight(k, v)
  {
    WeightTake(m[k := v], weight, k);
    assert m[k := v] - {k} == m - {k};
    if k in m {
      WeightTake(m, weight, k);
    } else {
      assert m - {k} == m;
    }
  }

  // ---------------------------------------------------------------- the state

  /** The recorded paths: the keys, the spelling behind each key, and the length of all spellings together. */
  datatype PathState = PathState(
    directories: set<Path>,
    files: set<Path>,
    directoryNames: map<Path, Path>,
    fileNames: map<Path, Path>,
    nameBytes: int)

  function Key(lower: Lower, p: Path): (key: Path)
    ensures |key| == |p|
  {
    seq(|p|, i requires 0 <= i < |p| => lower(p[i]))
  }

  function NameWeight(key: Path, name: Path): nat {
    NameBytes(name)
  }

  ghost predicate NamesUnderKeys(lower: Lower, names: map<Path, Path>) {
    forall key :: key in names ==> names[key] != [] && Key(lower, names[key]) == key
  }

  /** The directories on the way to every recorded path are recorded, spelled the same. */
  ghost predicate ParentsRecorded(lower: Lower, names: map<Path, Path>, directoryNames: map<Path, Path>) {
    forall key, i :: key in names && 1 <= i < |names[key]| ==> HasDirectory(lower, directoryNames, names[key][..i])
  }

  ghost predicate HasDirectory(lower: Lower, directoryNames: map<Path, Path>, directory: Path) {
    Key(lower, directory) in directoryNames && directoryNames[Key(lower, directory)] == directory
  }

  /** Every recorded directory is on the way to some recorded file. */
  ghost predicate NoSpareDirectories(directoryNames: map<Path, Path>, fileNames: map<Path, Path>) {
    forall key :: key in directoryNames ==> exists file :: file in fileNames && directoryNames[key] < fileNames[file]
  }

  ghost predicate ValidPaths(lower: Lower, s: PathState) {
    && s.directories == s.directoryNames.Keys
    && s.files == s.fileNames.Keys
    && s.directories !! s.files
    && NamesUnderKeys(lower, s.directoryNames) && NamesUnderKeys(lower, s.fileNames)
    && ParentsRecorded(lower, s.directoryNames, s.directoryNames)
        && ParentsRecorded(lower, s.fileNames, s.directoryNames)
    && NoSpareDirectories(s.directoryNames, s.fileNames)
    && s.nameBytes == WeightOf(s.directoryNames, NameWeight)
        + WeightOf(s.fileNames, NameWeight) <= MAX_BUNDLE_NAME_BUDGET
    && |s.directories| + |s.files| <= MAX_BUNDLE_ENTRIES
  }

  /** Two recorded paths that differ at most in case are the same path, and no file lies inside a file. */
  lemma PathsPortable(lower: Lower, s: PathState, p: Path, q: Path)
    requires ValidPaths(lower, s) && p in s.fileNames.Values
    requires q in s.fileNames.Values || q in s.directoryNames.Values
    ensures Key(lower, p) == Key(lower, q) ==> p == q
    ensures |p| < |q| ==> Key(lower, q[..|p|]) != Key(lower, p)
  {
    hide WeightOf, NoSpareDirectories;
    var key :| key in s.fileNames && s.fileNames[key] == p;
    var names := if q in s.fileNames.Values then s.fileNames else s.directoryNames;
    var other :| other in names && names[other] == q;
    if |p| < |q| {
      assert HasDirectory(lower, s.directoryNames, names[other][..|p|]);
      assert Key(lower, q[..|p|]) in s.directories;
    }
  }

  // ---------------------------------------------------------------- reserving

  /** Some part of the path is in use as something else or in another spelling. */
  ghost predicate Conflicts(lower: Lower, s: PathState, p: Path) {
    || (exists i :: 1 <= i < |p| && DirectoryConflicts(lower, s, p[..i]))
    || Key(lower, p) in s.directories
    || (Key(lower, p) in s.fileNames && s.fileNames[Key(lower, p)] != p)
  }

  predicate DirectoryConflicts(lower: Lower, s: PathState, directory: Path) {
    || Key(lower, directory) in s.files
    || (Key(lower, directory) in s.directoryNames && s.directoryNames[Key(lower, directory)] != directory)
  }

  /** `dirs` are the directories on the way to `p` not recorded yet, from the outermost in. */
  ghost predicate AreNew(lower: Lower, directories: set<Path>, p: Path, dirs: seq<Path>) {
    && (forall i :: 0 <= i < |dirs| ==>
        1 <= |dirs[i]| < |p| && dirs[i] == p[..|dirs[i]|] && Key(lower, dirs[i]) !in directories)
    && (forall i, j :: 0 <= i < j < |dirs| ==> |dirs[i]| < |dirs[j]|)
    && (forall n :: 1 <= n < |p| && Key(lower, p[..n]) !in directories ==> p[..n] in dirs)
  }

  /** The first `n` of the directories under their keys. */
  ghost function Fresh(lower: Lower, dirs: seq<Path>, n: nat): map<Path, Path>
    requires n <= |dirs|
  {
    if n == 0 then map[] else Fresh(lower, dirs, n - 1)[Key(lower, dirs[n - 1]) := dirs[n - 1]]
  }

  ghost function FreshBytes(dirs: seq<Path>, n: nat): nat
    requires n <= |dirs|
  {
    if n == 0 then 0 else FreshBytes(dirs, n - 1) + NameBytes(dirs[n - 1])
  }

  ghost function Reserved(lower: Lower, s: PathState, p: Path, dirs: seq<Path>): PathState {
    var added, fileKey := Fresh(lower, dirs, |dirs|), Key(lower, p);
    var newFile := fileKey !in s.files;
    PathState(
      s.directories + added.Keys,
      if newFile then s.files + {fileKey} else s.files,
      s.directoryNames + added,
      if newFile then s.fileNames[fileKey := p] else s.fileNames,
      s.nameBytes + FreshBytes(dirs, |dirs|) + if newFile then NameBytes(p) else 0)
  }

  ghost function Released(lower: Lower, s: PathState, p: Path, dirs: seq<Path>, newFile: bool): PathState {
    var added, fileKey := Fresh(lower, dirs, |dirs|), Key(lower, p);
    PathState(
      s.directories - added.Keys,
      if newFile then s.files - {fileKey} else s.files,
      s.directoryNames - added.Keys,
      if newFile then s.fileNames - {fileKey} else s.fileNames,
      s.nameBytes - FreshBytes(dirs, |dirs|) - if newFile then NameBytes(p) else 0)
  }

  ghost predicate WithinLimits(lower: Lower, s: PathState, p: Path, dirs: seq<Path>) {
    var newFile := Key(lower, p) !in s.files;
    && |s.directories| + |s.files| + |dirs| + (if newFile then 1 else 0) <= MAX_BUNDLE_ENTRIES
    && s.nameBytes + FreshBytes(dirs, |dirs|) + (if newFile then NameBytes(p) else 0) <= MAX_BUNDLE_NAME_BUDGET
  }

  // ---------------------------------------------------------------- facts about the new directories

  /** The new directories have keys of their own, which are not those of the recorded ones. */
  lemma {:induction false} FreshKeys(lower: Lower, directories: set<Path>, p: Path, dirs: seq<Path>, n: nat)
    requires AreNew(lower, directories, p, dirs) && n <= |dirs|
    ensures forall key :: key in Fresh(lower, dirs, n) ==>
              key !in directories && Fresh(lower, dirs, n)[key] in dirs && Key(lower, Fresh(lower, dirs, n)[key]) == key
    ensures forall i :: 0 <= i < |dirs| ==> (Key(lower, dirs[i]) in Fresh(lower, dirs, n) <==> i < n)
    ensures forall i :: 0 <= i < n ==> Fresh(lower, dirs, n)[Key(lower, dirs[i])] == dirs[i]
    ensures |Fresh(lower, dirs, n)| == n
  {
    hide Fresh, Key;
    forall i: nat | i < |dirs| ensures Key(lower, dirs[i]) in Fresh(lower, dirs, n) <==> i < n
      ensures i < n ==> Fresh(lower, dirs, n)[Key(lower, dirs[i])] == dirs[i]
    {
      FreshAt(lower, directories, p, dirs, n, i);
    }
    forall key | key in Fresh(lower, dirs, n)
      ensures key !in directories && Fresh(lower, dirs, n)[key] in dirs && Key(lower, Fresh(lower, dirs, n)[key]) == key
    {
      var i := FreshFrom(lower, dirs, n, key);
      FreshAt(lower, directories, p, dirs, n, i);
    }
    FreshSize(lower, directories, p, dirs, n);
  }

  /** Directories of different lengths have different keys. */
  lemma {:induction false} FreshAt(lower: Lower, directories: set<Path>, p: Path, dirs: seq<Path>, n: nat, i: nat)
    requires AreNew(lower, directories, p, dirs) && n <= |dirs| && i < |dirs|
    ensures Key(lower, dirs[i]) in Fresh(lower, dirs, n) <==> i < n
    ensures i < n ==> Fresh(lower, dirs, n)[Key(lower, dirs[i])] == dirs[i]
    decreases n
  {
    if n > 0 {
      FreshAt(lower, directories, p, dirs, n - 1, i);
      assert i != n - 1 ==> |Key(lower, dirs[i])| != |Key(lower, dirs[n - 1])|;
    }
  }

  lemma {:induction false} FreshFrom(lower: Lower, dirs: seq<Path>, n: nat, key: Path) returns (i: nat)
    requires n <= |dirs| && key in Fresh(lower, dirs, n)
    ensures i < n && key == Key(lower, dirs[i])
    decreases n
  {
    hide Key;
    if key == Key(lower, dirs[n - 1]) {
      i := n - 1;
    } else {
      i := FreshFrom(lower, dirs, n - 1, key);
    }
  }

  lemma {:induction false} FreshSize(lower: Lower, directories: set<Path>, p: Path, dirs: seq<Path>, n: nat)
    requires AreNew(lower, directories, p, dirs) && n <= |dirs|
    ensures |Fresh(lower, dirs, n)| == n
    decreases n
  {
    hide Key, AreNew;
    if n > 0 {
      FreshSize(lower, directories, p, dirs, n - 1);
      FreshAt(lower, directories, p, dirs, n - 1, n - 1);
      var key := Key(lower, dirs[n - 1]);
      assert Fresh(lower, dirs, n).Keys == Fresh(lower, dirs, n - 1).Keys + {key};
    }
  }

  /** What the new directories come to, under their keys. */
  ghost predicate AreAdded(lower: Lower, directories: set<Path>, p: Path, added: map<Path, Path>) {
    && (forall key :: key in added ==>
          key !in directories && Key(lower, added[key]) == key && 1 <= |added[key]| < |p|
              && added[key] == p[..|added[key]|])
    && (forall n :: 1 <= n < |p| && Key(lower, p[..n]) !in directories ==> HasDirectory(lower, added, p[..n]))
  }

  lemma FreshAreAdded(lower: Lower, directories: set<Path>, p: Path, dirs: seq<Path>)
    requires AreNew(lower, directories, p, dirs)
    ensures AreAdded(lower, directories, p, Fresh(lower, dirs, |dirs|)) && |Fresh(lower, dirs, |dirs|)| == |dirs|
  {
    hide Fresh, Key;
    FreshKeys(lower, directories, p, dirs, |dirs|);
    var added := Fresh(lower, dirs, |dirs|);
    forall n | 1 <= n < |p| && Key(lower, p[..n]) !in directories ensures HasDirectory(lower, added, p[..n]) {
      var k :| 0 <= k < |dirs| && dirs[k] == p[..n];
    }
  }

  lemma {:induction false} FreshWeight(lower: Lower, names: map<Path, Path>, p: Path, dirs: seq<Path>, n: nat)
    requires AreNew(lower, names.Keys, p, dirs) && n <= |dirs|
    ensures WeightOf(names + Fresh(lower, dirs, n), NameWeight) == WeightOf(names, NameWeight) + FreshBytes(dirs, n)
    decreases n
  {
    hide AreNew, Key, NameBytes, WeightOf;
    if n == 0 {
      assert names + Fresh(lower, dirs, 0) == names;
    } else {
      FreshWeight(lower, names, p, dirs, n - 1);
      var before := names + Fresh(lower, dirs, n - 1);
      var key := Key(lower, dirs[n - 1]);
      FreshKeyIsNew(lower, names.Keys, p, dirs, n - 1);
      WeightPut(before, NameWeight, key, dirs[n - 1]);
      assert names + Fresh(lower, dirs, n) == before[key := dirs[n - 1]];
    }
  }

  lemma FreshKeyIsNew(lower: Lower, directories: set<Path>, p: Path, dirs: seq<Path>, n: nat)
    requires AreNew(lower, directories, p, dirs) && n < |dirs|
    ensures Key(lower, dirs[n]) !in directories && Key(lower, dirs[n]) !in Fresh(lower, dirs, n)
    ensures dirs[n] != [] && |dirs[n]| < |p| && Key(lower, dirs[n]) != Key(lower, p)
  {
    FreshKeys(lower, directories, p, dirs, n);
  }

  // ---------------------------------------------------------------- what reserving keeps

  /** Taking a reservation back gives exactly the state before it. */
  lemma ReleaseUndoesReserve(lower: Lower, s: PathState, p: Path, dirs: seq<Path>)
    requires ValidPaths(lower, s) && AreNew(lower, s.directories, p, dirs)
    ensures Released(lower, Reserved(lower, s, p, dirs), p, dirs, Key(lower, p) !in s.files) == s
  {
    hide Reserved, Released, Fresh, Key;
    FreshAreAdded(lower, s.directories, p, dirs);
    ReleaseReserved(lower, s, p, dirs);
  }

  lemma ReleaseReserved(lower: Lower, s: PathState, p: Path, dirs: seq<Path>)
    requires s.directories == s.directoryNames.Keys && s.files == s.fileNames.Keys
    requires Fresh(lower, dirs, |dirs|).Keys !! s.directories
    ensures Released(lower, Reserved(lower, s, p, dirs), p, dirs, Key(lower, p) !in s.files) == s
  {
    hide Fresh, FreshBytes, Key, NameBytes;
    var key := Key(lower, p);
    AddThenRemove(s.directoryNames, Fresh(lower, dirs, |dirs|));
    if key !in s.files {
      AddThenRemove(s.fileNames, map[key := p]);
      assert s.fileNames[key := p] == s.fileNames + map[key := p];
    }
  }

  lemma AddThenRemove<K, V>(m: map<K, V>, added: map<K, V>)
    requires added.Keys !! m.Keys
    ensures m + added - added.Keys == m
    ensures m.Keys + added.Keys - added.Keys == m.Keys
  {
    assert forall k :: k in m + added - added.Keys <==> k in m;
  }

  lemma ReserveKeepsWeights(lower: Lower, s: PathState, p: Path, dirs: seq<Path>)
    requires ValidPaths(lower, s) && AreNew(lower, s.directories, p, dirs) && WithinLimits(lower, s, p, dirs)
    ensures var t := Reserved(lower, s, p, dirs);
            t.nameBytes == WeightOf(t.directoryNames, NameWeight)
                + WeightOf(t.fileNames, NameWeight) <= MAX_BUNDLE_NAME_BUDGET
            && |t.directories| + |t.files| <= MAX_BUNDLE_ENTRIES
  {
    hide AreNew, AreAdded, Fresh, FreshBytes, Key, NameBytes, WeightOf, NamesUnderKeys, ParentsRecorded,
      NoSpareDirectories;
    FreshWeight(lower, s.directoryNames, p, dirs, |dirs|);
    FreshAreAdded(lower, s.directories, p, dirs);
    WeightPut(s.fileNames, NameWeight, Key(lower, p), p);
  }

  /** A directory that does not conflict is no file. */
  lemma AddedAreFree(lower: Lower, s: PathState, p: Path, added: map<Path, Path>)
    requires AreAdded(lower, s.directories, p, added) && !Conflicts(lower, s, p)
    ensures added.Keys !! s.files && Key(lower, p) !in added && Key(lower, p) !in s.directories
    ensures NamesUnderKeys(lower, added)
  {
    hide Key;
    forall key | key in added ensures key !in s.files && key != Key(lower, p) {
      assert !DirectoryConflicts(lower, s, p[..|added[key]|]);
    }
  }

  lemma ReserveKeepsKeys(lower: Lower, s: PathState, p: Path, dirs: seq<Path>)
    requires ValidPaths(lower, s) && AreNew(lower, s.directories, p, dirs) && !Conflicts(lower, s, p) && p != []
    ensures var t := Reserved(lower, s, p, dirs);
            && t.directories == t.directoryNames.Keys && t.files == t.fileNames.Keys && t.directories !! t.files
            && NamesUnderKeys(lower, t.directoryNames) && NamesUnderKeys(lower, t.fileNames)
  {
    hide Reserved, AreNew, Conflicts, Fresh, Key, NamesUnderKeys;
    var added := Fresh(lower, dirs, |dirs|);
    FreshAreAdded(lower, s.directories, p, dirs);
    AddedAreFree(lower, s, p, added);
    NoConflictKeepsName(lower, s, p);
    UnionUnderKeys(lower, s.directoryNames, added);
    PutUnderKeys(lower, s.fileNames, p);
    ReservedKeys(lower, s, p, dirs);
  }

  lemma ReservedKeys(lower: Lower, s: PathState, p: Path, dirs: seq<Path>)
    requires s.directories == s.directoryNames.Keys && s.files == s.fileNames.Keys && s.directories !! s.files
    requires Fresh(lower, dirs, |dirs|).Keys !! s.files
    requires Key(lower, p) !in Fresh(lower, dirs, |dirs|) && Key(lower, p) !in s.directories
    requires Key(lower, p) in s.fileNames ==> s.fileNames[Key(lower, p)] == p
    ensures var t := Reserved(lower, s, p, dirs);
            && t.directories == t.directoryNames.Keys && t.files == t.fileNames.Keys && t.directories !! t.files
            && t.directoryNames == s.directoryNames + Fresh(lower, dirs, |dirs|)
            && t.fileNames == s.fileNames[Key(lower, p) := p]
  {
    hide Fresh, FreshBytes, Key, NameBytes;
  }

  lemma PutUnderKeys(lower: Lower, names: map<Path, Path>, p: Path)
    requires NamesUnderKeys(lower, names) && p != []
    ensures NamesUnderKeys(lower, names[Key(lower, p) := p])
  {
    hide Key;
  }

  lemma NoConflictKeepsName(lower: Lower, s: PathState, p: Path)
    requires !Conflicts(lower, s, p)
    ensures Key(lower, p) in s.fileNames ==> s.fileNames[Key(lower, p)] == p
  {
  }

  lemma UnionUnderKeys(lower: Lower, a: map<Path, Path>, b: map<Path, Path>)
    requires NamesUnderKeys(lower, a) && NamesUnderKeys(lower, b)
    ensures NamesUnderKeys(lower, a + b) && (a + b).Keys == a.Keys + b.Keys
  {
    hide Key;
  }

  /** The directories on the way to the reserved path are recorded in its spelling. */
  lemma ReservedHasDirectory(lower: Lower, s: PathState, p: Path, added: map<Path, Path>, i: nat)
    requires ValidPaths(lower, s) && AreAdded(lower, s.directories, p, added) && !Conflicts(lower, s, p)
    requires 1 <= i < |p|
    ensures HasDirectory(lower, s.directoryNames + added, p[..i])
  {
    hide Key, WeightOf, ParentsRecorded, NoSpareDirectories;
    assert !DirectoryConflicts(lower, s, p[..i]);
  }

  /** Directories recorded before are still recorded, in the same spelling. */
  lemma AddedKeepDirectories(lower: Lower, s: PathState, p: Path, added: map<Path, Path>, names: map<Path, Path>)
    requires ValidPaths(lower, s) && AreAdded(lower, s.directories, p, added)
    requires ParentsRecorded(lower, names, s.directoryNames)
    ensures ParentsRecorded(lower, names, s.directoryNames + added)
  {
    hide Key, WeightOf, NoSpareDirectories;
    forall key, i | key in names && 1 <= i < |names[key]|
      ensures HasDirectory(lower, s.directoryNames + added, names[key][..i])
    {
      assert HasDirectory(lower, s.directoryNames, names[key][..i]);
    }
  }

  lemma AddedParents(lower: Lower, s: PathState, p: Path, added: map<Path, Path>)
    requires ValidPaths(lower, s) && AreAdded(lower, s.directories, p, added) && !Conflicts(lower, s, p)
    ensures ParentsRecorded(lower, s.directoryNames + added, s.directoryNames + added)
    ensures ParentsRecorded(lower, s.fileNames[Key(lower, p) := p], s.directoryNames + added)
  {
    hide Key, WeightOf, NoSpareDirectories, Conflicts, HasDirectory;
    var names := s.directoryNames + added;
    forall i | 1 <= i < |p| ensures HasDirectory(lower, names, p[..i]) {
      ReservedHasDirectory(lower, s, p, added, i);
    }
    AddedKeepDirectories(lower, s, p, added, s.directoryNames);
    AddedKeepDirectories(lower, s, p, added, s.fileNames);
    forall key, i | key in names && 1 <= i < |names[key]| ensures HasDirectory(lower, names, names[key][..i]) {
      if key in added {
        assert added[key][..i] == p[..i];
      }
    }
  }

  lemma ReserveKeepsParents(lower: Lower, s: PathState, p: Path, dirs: seq<Path>)
    requires ValidPaths(lower, s) && AreNew(lower, s.directories, p, dirs) && !Conflicts(lower, s, p)
    ensures var t := Reserved(lower, s, p, dirs);
            && ParentsRecorded(lower, t.directoryNames, t.directoryNames)
            && ParentsRecorded(lower, t.fileNames, t.directoryNames)
            && NoSpareDirectories(t.directoryNames, t.fileNames)
  {
    hide AreNew, Fresh, FreshBytes, Key, NameBytes, WeightOf, ParentsRecorded, HasDirectory;
    FreshAreAdded(lower, s.directories, p, dirs);
    var added, t := Fresh(lower, dirs, |dirs|), Reserved(lower, s, p, dirs);
    AddedParents(lower, s, p, added);
    assert t.fileNames == s.fileNames[Key(lower, p) := p];
    forall key | key in t.directoryNames
        ensures exists file :: file in t.fileNames && t.directoryNames[key] < t.fileNames[file] {
      if key in added {
        assert t.fileNames[Key(lower, p)] == p && added[key] < p;
      } else {
        var file :| file in s.fileNames && s.directoryNames[key] < s.fileNames[file];
        assert t.fileNames[file] == s.fileNames[file];
      }
    }
  }

  /** A reservation that neither conflicts nor exceeds a limit keeps every invariant of the recorded paths. */
  lemma ReserveKeepsValid(lower: Lower, s: PathState, p: Path, dirs: seq<Path>)
    requires ValidPaths(lower, s) && AreNew(lower, s.directories, p, dirs) && p != []
    requires !Conflicts(lower, s, p) && WithinLimits(lower, s, p, dirs)
    ensures ValidPaths(lower, Reserved(lower, s, p, dirs))
  {
    hide Reserved, AreNew, Conflicts, WithinLimits, ParentsRecorded, NoSpareDirectories, NamesUnderKeys;
    ReserveKeepsWeights(lower, s, p, dirs);
    ReserveKeepsKeys(lower, s, p, dirs);
    ReserveKeepsParents(lower, s, p, dirs);
  }
}
