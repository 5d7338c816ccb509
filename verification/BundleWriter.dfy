/**
 The writer of a result bundle: reserving paths, storing files within the byte limit, and keeping the image
 references of the texts up to date as images arrive.

 `disk` stands for the files under the bundle's root.  Contents are texts measured in UTF-8 bytes.  Where the
 operating system may fail, a parameter says at which step it does.
 */
module BundleWriter {
  import opened Wrappers
  import opened BundlePaths
  import opened ReferenceTokens

  const MAX_TEXT_JSON_BYTES := 64 * 1024 * 1024

  const MARKDOWN: Path := ["markdown.md"]

  /** The files whose image references are rewritten. */
  const REWRITE_FILES: set<Path> := {["markdown.md"], ["middle_json.json"], ["structured_content.json"]}

  const FIXED_FILES: set<Path> :=
    REWRITE_FILES + {["model_output.json"], ["operation.json"], ["render.json"], ["render.bin"]}

  datatype WriteError =
    | Conflict | TooManyPaths | NameBudget
    | AliasCollision | TooManyAliases | AliasBudget
    | TooManyFiles | Inconsistent | AccountingOverLimit | OverLimit | FileOverLimit | Io

  /** How far a write got before it failed. */
  datatype Stage = Checking | Reserving | Storing | Rewriting

  datatype Failure = Failure(stage: Stage, error: WriteError)

  /** Paths as the writer resolves names: a fixed file, or something under `images`. */
  predicate IsRelative(p: Path) {
    p in FIXED_FILES || (|p| >= 2 && p[0] == "images" && forall i :: 0 <= i < |p| ==> p[i] != "")
  }

  /** The name texts use for a file, and the path to put in its place. */
  function AliasOf(relative: Path): Option<(string, string)> {
    if |relative| == 1 then Some((relative[0], relative[0]))
    else if |relative| == 2 && relative[0] == "images" then Some((relative[1], IMAGES + relative[1]))
    else None
  }

  // ---------------------------------------------------------------- accounting

  function SizeWeight(p: Path, size: nat): nat {
    size
  }

  function AliasWeight(name: string, target: string): nat {
    Bytes(name) + Bytes(target)
  }

  function TextLimit(limit: nat): nat {
    if limit < MAX_TEXT_JSON_BYTES then limit else MAX_TEXT_JSON_BYTES
  }

  /** The recorded sizes are those of the files, their sum is `total`, and no limit is exceeded. */
  ghost predicate Accounts(limit: nat, total: int, sizes: map<Path, nat>, disk: map<Path, string>) {
    && total == WeightOf(sizes, SizeWeight) <= limit
    && sizes.Keys == disk.Keys
    && (forall p :: p in sizes ==> sizes[p] == Bytes(disk[p]) && (p in FIXED_FILES ==> sizes[p] <= TextLimit(limit)))
  }

  function SizeOf(sizes: map<Path, nat>, p: Path): nat {
    if p in sizes then sizes[p] else 0
  }

  /** Whether the file still fits when it has `size` bytes. */
  predicate Fits(limit: nat, total: int, sizes: map<Path, nat>, p: Path, size: nat) {
    total - SizeOf(sizes, p) + size <= limit && (p in FIXED_FILES ==> size <= TextLimit(limit))
  }

  function Join(chunks: seq<string>): string {
    if chunks == [] then "" else Join(chunks[..|chunks| - 1]) + chunks[|chunks| - 1]
  }

  lemma SizeWithinTotal(limit: nat, total: int, sizes: map<Path, nat>, disk: map<Path, string>, p: Path)
    requires Accounts(limit, total, sizes, disk)
    ensures 0 <= SizeOf(sizes, p) <= total
  {
    if p in sizes {
      WeightTake(sizes, SizeWeight, p);
    }
  }

  lemma AccountsPut(limit: nat, total: int, sizes: map<Path, nat>, disk: map<Path, string>, p: Path, content: string)
    requires Accounts(limit, total, sizes, disk) && Fits(limit, total, sizes, p, Bytes(content))
    ensures Accounts(limit, total - SizeOf(sizes, p) + Bytes(content), sizes[p := Bytes(content)], disk[p := content])
  {
    hide WeightOf, Bytes;
    WeightPut(sizes, SizeWeight, p, Bytes(content));
  }

  lemma {:induction false} JoinGrows(chunks: seq<string>, n: nat, k: nat)
    requires n <= k <= |chunks|
    ensures Bytes(Join(chunks[..n])) <= Bytes(Join(chunks[..k]))
    decreases k
  {
    if n < k {
      JoinGrows(chunks, n, k - 1);
      JoinStep(chunks, k - 1);
    }
  }

  lemma JoinStep(chunks: seq<string>, k: nat)
    requires k < |chunks|
    ensures Join(chunks[..k + 1]) == Join(chunks[..k]) + chunks[k]
    ensures Bytes(Join(chunks[..k + 1])) == Bytes(Join(chunks[..k])) + Bytes(chunks[k])
  {
    var longer := chunks[..k + 1];
    assert longer[..|longer| - 1] == chunks[..k];
    BytesConcat(Join(chunks[..k]), chunks[k]);
  }

  // ---------------------------------------------------------------- aliases

  /** No two names differ only in case; names and targets stay within their budget. */
  ghost predicate AliasesValid(lower: Lower, aliases: Aliases, keys: map<string, string>, aliasBytes: nat) {
    && (forall k :: k in aliases ==> k != "" && lower(k) in keys && keys[lower(k)] == k)
    && (forall key :: key in keys ==> keys[key] in aliases && lower(keys[key]) == key)
    && aliasBytes == WeightOf(aliases, AliasWeight) <= MAX_BUNDLE_NAME_BUDGET
    && |aliases| <= MAX_BUNDLE_ENTRIES && |keys| <= MAX_BUNDLE_ENTRIES
  }

  /** `p` is a file that gives texts the alias `name`. */
  predicate Gives(p: Path, name: string) {
    p !in REWRITE_FILES && AliasOf(p).Some? && AliasOf(p).value.0 == name
  }

  /** The aliases are those the files give. */
  ghost predicate AliasesOfFiles(files: set<Path>, aliases: Aliases) {
    && (forall p, name :: p in files && Gives(p, name) ==> name in aliases)
    && (forall name :: name in aliases ==>
        exists p :: p in files && Gives(p, name) && AliasOf(p).value.1 == aliases[name])
  }

  predicate AliasFree(lower: Lower, keys: map<string, string>, name: string) {
    lower(name) in keys ==> keys[lower(name)] == name
  }

  function AliasesWith(lower: Lower, aliases: Aliases, keys: map<string, string>, relative: Path): Aliases {
    if AliasOf(relative).None? || lower(AliasOf(relative).value.0) in keys then aliases
    else aliases[AliasOf(relative).value.0 := AliasOf(relative).value.1]
  }

  function KeysWith(lower: Lower, keys: map<string, string>, relative: Path): map<string, string> {
    if AliasOf(relative).None? || lower(AliasOf(relative).value.0) in keys then keys
    else keys[lower(AliasOf(relative).value.0) := AliasOf(relative).value.0]
  }

  lemma AliasesWithFile(lower: Lower, files: set<Path>, aliases: Aliases, keys: map<string, string>, aliasBytes: nat,
                        p: Path)
    requires AliasesValid(lower, aliases, keys, aliasBytes) && AliasesOfFiles(files, aliases) && p !in REWRITE_FILES
    requires AliasOf(p).Some? ==> AliasFree(lower, keys, AliasOf(p).value.0)
    ensures AliasesOfFiles(files + {p}, AliasesWith(lower, aliases, keys, p))
  {
    var after := AliasesWith(lower, aliases, keys, p);
    forall name | name in after
      ensures exists q :: q in files + {p} && Gives(q, name) && AliasOf(q).value.1 == after[name]
    {
      if name in aliases {
        var q :| q in files && Gives(q, name) && AliasOf(q).value.1 == aliases[name];
        assert q in files + {p};
      } else {
        assert p in files + {p} && Gives(p, name);
      }
    }
  }

  lemma AliasesWithText(files: set<Path>, aliases: Aliases, p: Path)
    requires AliasesOfFiles(files, aliases) && p in REWRITE_FILES
    ensures AliasesOfFiles(files + {p}, aliases)
  {
    forall name | name in aliases
      ensures exists q :: q in files + {p} && Gives(q, name) && AliasOf(q).value.1 == aliases[name]
    {
      var q :| q in files && Gives(q, name) && AliasOf(q).value.1 == aliases[name];
      assert q in files + {p};
    }
  }

  // ---------------------------------------------------------------- rewriting

  type JsonRewriter = (string, Aliases) -> Option<string>

  /** `after` is what rewriting gives for a text file with the content `before`. */
  ghost predicate IsRewrite(alnum: Alphabet, rewriteJson: JsonRewriter, p: Path, before: string, after: string,
                            aliases: Aliases) {
    if p == MARKDOWN then
      exists replacements :: IsReplacements(replacements, aliases) && NoEmptyNames(replacements)
                             && after == RewriteFrom(alnum, before, 0, replacements)
    else rewriteJson(before, aliases) == Some(after)
  }

  /** Aliases that can be put into a text: it is not too long before or after, and the JSON rewriter takes it. */
  ghost predicate CanRewrite(alnum: Alphabet, rewriteJson: JsonRewriter, limit: nat, p: Path, before: string,
                             aliases: Aliases) {
    Bytes(before) <= TextLimit(limit) &&
    exists after :: IsRewrite(alnum, rewriteJson, p, before, after, aliases) && Bytes(after) <= TextLimit(limit)
  }

  /** There is one way only to rewrite a text. */
  lemma RewriteIsUnique(alnum: Alphabet, rewriteJson: JsonRewriter, p: Path, before: string, a: string, b: string,
                        aliases: Aliases)
    requires IsRewrite(alnum, rewriteJson, p, before, a, aliases)
    requires IsRewrite(alnum, rewriteJson, p, before, b, aliases)
    ensures a == b
  {
    hide IsReplacements;
    if p == MARKDOWN {
      var x :| IsReplacements(x, aliases) && NoEmptyNames(x) && a == RewriteFrom(alnum, before, 0, x);
      var y :| IsReplacements(y, aliases) && NoEmptyNames(y) && b == RewriteFrom(alnum, before, 0, y);
      ReplacementsAreUnique(x, y, aliases);
    }
  }

  lemma NamesNotEmpty(replacements: Replacements, aliases: Aliases)
    requires IsReplacements(replacements, aliases) && "" !in aliases
    ensures NoEmptyNames(replacements)
  {
    hide Tried;
  }

  /** With the contents of the files as they are, there is no room for `p` to become `after`. */
  ghost predicate NoRoom(limit: nat, disk: map<Path, string>, p: Path, after: string) {
    exists total, sizes :: Accounts(limit, total, sizes, disk) && !Fits(limit, total, sizes, p, Bytes(after))
  }

  /** A text that can be read back and cannot be rewritten, or cannot be stored when rewritten. */
  ghost predicate TextBlocked(alnum: Alphabet, rewriteJson: JsonRewriter, limit: nat, aliases: Aliases,
                              disk: map<Path, string>, p: Path, fault: Fault) {
    && p in disk && fault.BreaksAt?
    && (!CanRewrite(alnum, rewriteJson, limit, p, disk[p], aliases) ||
        exists after :: IsRewrite(alnum, rewriteJson, p, disk[p], after, aliases) && after != disk[p] &&
          (fault.step <= 1 || NoRoom(limit, disk, p, after)))
  }

  lemma StoringBlocked(alnum: Alphabet, rewriteJson: JsonRewriter, limit: nat, aliases: Aliases, total: int,
                       sizes: map<Path, nat>, disk: map<Path, string>, p: Path, after: string, broken: nat)
    requires Accounts(limit, total, sizes, disk) && p in disk && after != disk[p]
    requires IsRewrite(alnum, rewriteJson, p, disk[p], after, aliases)
    requires broken <= 1 || !Fits(limit, total, sizes, p, Bytes(after))
    ensures TextBlocked(alnum, rewriteJson, limit, aliases, disk, p, BreaksAt(broken))
  {
    hide CanRewrite, IsRewrite, Accounts, Fits, Bytes;
  }

  /** The text is blocked once some of the others have been rewritten. */
  ghost predicate BlockedAmong(alnum: Alphabet, rewriteJson: JsonRewriter, limit: nat, aliases: Aliases,
                               before: map<Path, string>, texts: set<Path>, p: Path, fault: Fault) {
    exists done: set<Path>, disk: map<Path, string> ::
      && p !in done && done <= texts
      && TextsRewritten(alnum, rewriteJson, aliases, before, disk, done, true)
      && TextBlocked(alnum, rewriteJson, limit, aliases, disk, p, fault)
  }

  ghost predicate SomeBlocked(alnum: Alphabet, rewriteJson: JsonRewriter, limit: nat, aliases: Aliases,
                              before: map<Path, string>, texts: set<Path>, faults: Faults) {
    exists p :: p in texts && BlockedAmong(alnum, rewriteJson, limit, aliases, before, texts, p, faults(p))
  }

  lemma BlocksOne(alnum: Alphabet, rewriteJson: JsonRewriter, limit: nat, aliases: Aliases, before: map<Path, string>,
                  texts: set<Path>, faults: Faults, p: Path, done: set<Path>, disk: map<Path, string>)
    requires p in texts && p !in done && done <= texts
    requires TextsRewritten(alnum, rewriteJson, aliases, before, disk, done, true)
    requires TextBlocked(alnum, rewriteJson, limit, aliases, disk, p, faults(p))
    ensures SomeBlocked(alnum, rewriteJson, limit, aliases, before, texts, faults)
  {
    hide TextsRewritten, TextBlocked;
    assert BlockedAmong(alnum, rewriteJson, limit, aliases, before, texts, p, faults(p));
  }

  /** If the markdown is the only text, it is blocked as it was stored. */
  lemma OnlyTextBlocked(alnum: Alphabet, rewriteJson: JsonRewriter, limit: nat, aliases: Aliases,
                        before: map<Path, string>, texts: set<Path>, faults: Faults)
    requires SomeBlocked(alnum, rewriteJson, limit, aliases, before, texts, faults) && texts <= {MARKDOWN}
    ensures TextBlocked(alnum, rewriteJson, limit, aliases, before, MARKDOWN, faults(MARKDOWN))
  {
    hide TextBlocked, IsRewrite, MARKDOWN;
    var p :| p in texts && BlockedAmong(alnum, rewriteJson, limit, aliases, before, texts, p, faults(p));
    var done: set<Path>, disk: map<Path, string> :| p !in done && done <= texts &&
        TextsRewritten(alnum, rewriteJson, aliases, before, disk, done, true) &&
        TextBlocked(alnum, rewriteJson, limit, aliases, disk, p, faults(p));
    assert done == {} && disk == before;
  }

  /** For clean names the text put in place is the old one with its tokens looked up. */
  lemma MarkdownBlocked(alnum: Alphabet, rewriteJson: JsonRewriter, limit: nat, aliases: Aliases,
                        disk: map<Path, string>, fault: Fault, replacements: Replacements)
    requires TextBlocked(alnum, rewriteJson, limit, aliases, disk, MARKDOWN, fault) && Clean(alnum, aliases)
    requires IsReplacements(replacements, aliases)
    ensures var before := disk[MARKDOWN]; var after := Rewritten(alnum, before, aliases);
            || Bytes(before) > TextLimit(limit) || Bytes(after) > TextLimit(limit)
            || (after != before && (fault.step <= 1 || NoRoom(limit, disk, MARKDOWN, after)))
  {
    hide IsReplacements, NoRoom, Rewritten, Bytes, TextLimit;
    var before := disk[MARKDOWN];
    var after := Rewritten(alnum, before, aliases);
    if CanRewrite(alnum, rewriteJson, limit, MARKDOWN, before, aliases) {
      var other :| IsRewrite(alnum, rewriteJson, MARKDOWN, before, other, aliases) && other != before &&
          (fault.step <= 1 || NoRoom(limit, disk, MARKDOWN, other));
      RewriteOfMarkdown(alnum, rewriteJson, before, other, aliases);
    } else {
      RewriteIsLookup(alnum, before, replacements, aliases);
      assert IsRewrite(alnum, rewriteJson, MARKDOWN, before, after, aliases);
    }
  }

  /** For clean names, a rewritten markdown is the old one with every name in it looked up. */
  lemma RewriteOfMarkdown(alnum: Alphabet, rewriteJson: JsonRewriter, before: string, after: string, aliases: Aliases)
    requires IsRewrite(alnum, rewriteJson, MARKDOWN, before, after, aliases) && Clean(alnum, aliases)
    ensures after == Rewritten(alnum, before, aliases)
  {
    var replacements :| IsReplacements(replacements, aliases) && NoEmptyNames(replacements)
                        && after == RewriteFrom(alnum, before, 0, replacements);
    RewriteIsLookup(alnum, before, replacements, aliases);
  }

  /** What the operating system does to a text: it cannot be read back, or storing it fails at some step or never. */
  datatype Fault = Unreadable | BreaksAt(step: nat)

  type Faults = Path -> Fault

  ghost function Readable(relatives: set<Path>, faults: Faults): set<Path> {
    set p | p in relatives && faults(p).BreaksAt?
  }

  lemma NothingReadable(faults: Faults)
    ensures Readable({}, faults) == {}
  {
  }

  lemma ReadableIn(relatives: set<Path>, relative: Path, faults: Faults)
    requires relative in relatives && faults(relative).BreaksAt?
    ensures relative in Readable(relatives, faults)
  {
  }

  lemma ReadableStep(relatives: set<Path>, pending: set<Path>, relative: Path, faults: Faults)
    requires relative in pending && pending <= relatives
    ensures var done := Readable(relatives - pending, faults);
            && relative !in done && done <= Readable(relatives, faults)
            && Readable(relatives - (pending - {relative}), faults) ==
               if faults(relative).BreaksAt? then done + {relative} else done
  {
  }

  /** Everything the writer keeps. */
  datatype BundleState = BundleState(
    total: int, sizes: map<Path, nat>, textPaths: set<Path>,
    imageAliases: Aliases, imageAliasKeys: map<string, string>, aliasBytes: nat,
    paths: PathState, disk: map<Path, string>, lastText: string)

  class BundleWriter {
    const limit: nat
    const lower: Lower
    const alnum: Alphabet
    const rewriteJson: JsonRewriter

    var total: int
    var sizes: map<Path, nat>
    var textPaths: set<Path>
    var imageAliases: Aliases
    var imageAliasKeys: map<string, string>
    var directories: set<Path>
    var files: set<Path>
    var directoryNames: map<Path, Path>
    var fileNames: map<Path, Path>
    var nameBytes: int
    var aliasBytes: nat
    var disk: map<Path, string>
    /** The markdown text as it was last handed in, and the aliases put into it since. */
    ghost var lastText: string
    ghost var applied: Aliases

    ghost function Paths(): PathState
      reads this
    {
      PathState(directories, files, directoryNames, fileNames, nameBytes)
    }

    ghost function State(): BundleState
      reads this
    {
      BundleState(total, sizes, textPaths, imageAliases, imageAliasKeys, aliasBytes, Paths(), disk, lastText)
    }

    ghost predicate Accounted()
      reads this
    {
      Accounts(limit, total, sizes, disk)
    }

    ghost predicate Valid()
      reads this
    {
      && ValidPaths(lower, Paths())
      && Accounted()
      && fileNames.Values == sizes.Keys
      && textPaths == sizes.Keys * REWRITE_FILES
      && AliasesValid(lower, imageAliases, imageAliasKeys, aliasBytes)
      && AliasesOfFiles(sizes.Keys, imageAliases)
    }

    constructor (limit: nat, lower: Lower, alnum: Alphabet, rewriteJson: JsonRewriter)
      requires limit > 0
      ensures Valid() && disk == map[] && this.limit == limit && this.lower == lower && this.alnum == alnum
      ensures lastText == "" && (AllToken(alnum, IMAGES) ==> Current())
    {
      this.limit, this.lower, this.alnum, this.rewriteJson := limit, lower, alnum, rewriteJson;
      total, sizes, textPaths, imageAliases, imageAliasKeys := 0, map[], {}, map[], map[];
      directories, files, directoryNames, fileNames, nameBytes, aliasBytes := {}, {}, map[], map[], 0, 0;
      disk, lastText, applied := map[], "", map[];
    }

    // ---------------------------------------------------------------- paths

    /**
     Records a path and the directories on the way to it, or refuses it and changes nothing.  It conflicts exactly
     when some part of it is in use as something else or in another spelling.
     */
    method ReservePath(relative: Path) returns (r: Result<seq<Path>, WriteError>, newFile: bool)
      requires ValidPaths(lower, Paths()) && relative != []
      modifies this`directories, this`files, this`directoryNames, this`fileNames, this`nameBytes
      ensures r.Err? ==> Paths() == old(Paths()) && r.error in {Conflict, TooManyPaths, NameBudget}
      ensures r == Err(Conflict) <==> Conflicts(lower, old(Paths()), relative)
      ensures r.Ok? ==>
          AreNew(lower, old(directories), relative, r.value) && WithinLimits(lower, old(Paths()), relative, r.value)
      ensures r.Err? && r.error != Conflict ==> Overfull(lower, old(Paths()), relative)
      ensures r.Ok? ==> newFile == (Key(lower, relative) !in old(files))
      ensures r.Ok? ==> Paths() == Reserved(lower, old(Paths()), relative, r.value)
    {
      hide Conflicts, DirectoryConflicts, AreNew, WithinLimits, Reserved, Key, NameBytes, ValidPaths;
      newFile := false;
      var conflicts := PathConflicts(relative);
      if conflicts {
        return Err(Conflict), false;
      }
      var newDirectories := NewDirectories(relative);
      newFile := Key(lower, relative) !in files;
      var addedBytes := AddedBytes(newDirectories);
      if |directories| + |files| + |newDirectories| + (if newFile then 1 else 0) > MAX_BUNDLE_ENTRIES {
        LimitsExceeded(lower, Paths(), relative, newDirectories);
        return Err(TooManyPaths), newFile;
      }
      addedBytes := addedBytes + (if newFile then NameBytes(relative) else 0);
      if nameBytes + addedBytes > MAX_BUNDLE_NAME_BUDGET {
        LimitsExceeded(lower, Paths(), relative, newDirectories);
        return Err(NameBudget), newFile;
      }
      LimitsMet(lower, Paths(), relative, newDirectories);
      EnterPath(newDirectories, newFile, relative, addedBytes);
      r := Ok(newDirectories);
    }

    method PathConflicts(relative: Path) returns (conflicts: bool)
      requires ValidPaths(lower, Paths()) && relative != []
      ensures conflicts == Conflicts(lower, Paths(), relative)
    {
      hide Key, ParentsRecorded, NamesUnderKeys, NoSpareDirectories, WeightOf;
      ghost var s := Paths();
      for i := 1 to |relative|
        invariant forall j :: 1 <= j < i ==> !DirectoryConflicts(lower, s, relative[..j])
      {
        var key := Key(lower, relative[..i]);
        if key in files {
          assert DirectoryConflicts(lower, s, relative[..i]);
          return true;
        }
        if key in directories && directoryNames[key] != relative[..i] {
          assert DirectoryConflicts(lower, s, relative[..i]);
          return true;
        }
      }
      var relativeKey := Key(lower, relative);
      conflicts := relativeKey in directories || (relativeKey in files && fileNames[relativeKey] != relative);
    }

    method EnterPath(newDirectories: seq<Path>, newFile: bool, relative: Path, addedBytes: nat)
      requires newFile == (Key(lower, relative) !in files)
      requires addedBytes == FreshBytes(newDirectories, |newDirectories|) + if newFile then NameBytes(relative) else 0
      modifies this`directories, this`files, this`directoryNames, this`fileNames, this`nameBytes
      ensures Paths() == Reserved(lower, old(Paths()), relative, newDirectories)
    {
      hide Key, NameBytes, FreshBytes;
      ghost var before := Paths();
      for k := 0 to |newDirectories|
        invariant directories == before.directories + Fresh(lower, newDirectories, k).Keys
        invariant directoryNames == before.directoryNames + Fresh(lower, newDirectories, k)
        invariant files == before.files && fileNames == before.fileNames && nameBytes == before.nameBytes
      {
        FreshStep(lower, newDirectories, k, before.directories, before.directoryNames);
        var key := Key(lower, newDirectories[k]);
        directories := directories + {key};
        directoryNames := directoryNames[key := newDirectories[k]];
      }
      if newFile {
        files := files + {Key(lower, relative)};
        fileNames := fileNames[Key(lower, relative) := relative];
      }
      nameBytes := nameBytes + addedBytes;
    }

    method NewDirectories(relative: Path) returns (newDirectories: seq<Path>)
      requires relative != []
      ensures AreNew(lower, directories, relative, newDirectories)
    {
      newDirectories := [];
      for i := 1 to |relative|
        invariant AreNew(lower, directories, relative[..i], newDirectories)
      {
        NewStep(lower, directories, relative, i, newDirectories);
        if Key(lower, relative[..i]) !in directories {
          newDirectories := newDirectories + [relative[..i]];
        }
      }
      assert relative[..|relative|] == relative;
    }

    /** Takes a reservation back: the recorded paths are what they were before it. */
    method ReleasePath(newDirectories: seq<Path>, newFile: bool, relative: Path, ghost before: PathState)
      requires ValidPaths(lower, before) && AreNew(lower, before.directories, relative, newDirectories)
      requires newFile == (Key(lower, relative) !in before.files)
      requires Paths() == Reserved(lower, before, relative, newDirectories)
      modifies this`directories, this`files, this`directoryNames, this`fileNames, this`nameBytes
      ensures Paths() == before
    {
      hide Key, NameBytes, AreNew, ValidPaths, Reserved;
      ghost var reserved := Paths();
      for k := 0 to |newDirectories|
        invariant directories == reserved.directories - Fresh(lower, newDirectories, k).Keys
        invariant directoryNames == reserved.directoryNames - Fresh(lower, newDirectories, k).Keys
        invariant nameBytes == reserved.nameBytes - FreshBytes(newDirectories, k)
        invariant files == reserved.files && fileNames == reserved.fileNames
      {
        var key := Key(lower, newDirectories[k]);
        FreshIsReserved(lower, before, relative, newDirectories, k);
        assert key in directories;
        directories := directories - {key};
        directoryNames := directoryNames - {key};
        nameBytes := nameBytes - NameBytes(newDirectories[k]);
      }
      if newFile {
        var key := Key(lower, relative);
        FileIsReserved(lower, before, relative, newDirectories);
        assert key in files;
        files := files - {key};
        fileNames := fileNames - {key};
        nameBytes := nameBytes - NameBytes(relative);
      }
      assert Paths() == Released(lower, reserved, relative, newDirectories, newFile);
      ReleaseUndoesReserve(lower, before, relative, newDirectories);
    }

    // ---------------------------------------------------------------- contents

    /**
     Stores a file, chunk by chunk; `broken` is the step at which the operating system fails, if it does.  The file
     is replaced as a whole, or nothing changes.  The running checks refuse exactly what does not fit in the end.
     */
    method WriteRaw(relative: Path, chunks: seq<string>, broken: nat) returns (r: Result<(), WriteError>)
      requires Accounted()
      modifies this`total, this`sizes, this`disk
      ensures Accounted()
      ensures r.Ok? ==> disk == old(disk)[relative := Join(chunks)]
      ensures r.Err? ==> total == old(total) && sizes == old(sizes) && disk == old(disk)
      ensures r.Ok? <==> (relative in old(sizes) || |old(sizes)| < MAX_BUNDLE_ENTRIES) && broken > |chunks|
                         && Fits(limit, old(total), old(sizes), relative, Bytes(Join(chunks)))
      ensures r == Err(TooManyFiles) <==> relative !in old(sizes) && |old(sizes)| >= MAX_BUNDLE_ENTRIES
      ensures r.Err? ==> r.error in {TooManyFiles, OverLimit, FileOverLimit, Io}
    {
      hide REWRITE_FILES, FIXED_FILES, MARKDOWN, Bytes, Join, Accounts;
      SizeWithinTotal(limit, total, sizes, disk, relative);
      TotalWithinLimit(limit, total, sizes, disk);
      var oldSize := SizeOf(sizes, relative);
      if relative !in sizes && |sizes| >= MAX_BUNDLE_ENTRIES {
        return Err(TooManyFiles);
      }
      if oldSize < 0 || oldSize > total {
        return Err(Inconsistent);
      }
      var baseTotal := total - oldSize;
      if baseTotal > limit {
        return Err(AccountingOverLimit);
      }
      var size, content, k := 0, "", 0;
      JoinNothing(chunks);
      while k < |chunks|
        invariant k <= |chunks| && k <= broken
        invariant total == old(total) && sizes == old(sizes) && disk == old(disk) && Accounted()
        invariant content == Join(chunks[..k]) && size == Bytes(content)
        invariant Fits(limit, total, sizes, relative, size)
      {
        JoinStep(chunks, k);
        JoinGrows(chunks, k + 1, |chunks|);
        assert chunks[..|chunks|] == chunks;
        if k == broken {
          return Err(Io);
        }
        var nextSize := size + Bytes(chunks[k]);
        if baseTotal + nextSize > limit {
          return Err(OverLimit);
        }
        if relative in FIXED_FILES && nextSize > TextLimit(limit) {
          return Err(FileOverLimit);
        }
        size, content, k := nextSize, content + chunks[k], k + 1;
      }
      assert chunks[..|chunks|] == chunks;
      if broken == |chunks| {
        return Err(Io);
      }
      AccountsPut(limit, total, sizes, disk, relative, content);
      disk := disk[relative := content];
      total := baseTotal + size;
      sizes := sizes[relative := size];
      r := Ok(());
    }

    // ---------------------------------------------------------------- aliases

    method CheckAlias(relative: Path) returns (r: Result<(), WriteError>)
      ensures r.Ok? <==> AliasRoom(lower, imageAliases, imageAliasKeys, aliasBytes, relative)
      ensures r.Err? ==> r.error in {AliasCollision, TooManyAliases, AliasBudget}
    {
      var alias := AliasOf(relative);
      if alias.None? {
        return Ok(());
      }
      var key := lower(alias.value.0);
      if key in imageAliasKeys {
        return if imageAliasKeys[key] != alias.value.0 then Err(AliasCollision) else Ok(());
      }
      if Max(|imageAliasKeys|, |imageAliases|) >= MAX_BUNDLE_ENTRIES {
        return Err(TooManyAliases);
      }
      if aliasBytes + Bytes(alias.value.0) + Bytes(alias.value.1) > MAX_BUNDLE_NAME_BUDGET {
        return Err(AliasBudget);
      }
      r := Ok(());
    }

    method RecordImage(relative: Path)
      requires AliasesValid(lower, imageAliases, imageAliasKeys, aliasBytes) && IsRelative(relative)
      requires AliasRoom(lower, imageAliases, imageAliasKeys, aliasBytes, relative)
      modifies this`imageAliases, this`imageAliasKeys, this`aliasBytes
      ensures AliasesValid(lower, imageAliases, imageAliasKeys, aliasBytes)
      ensures imageAliases == AliasesWith(lower, old(imageAliases), old(imageAliasKeys), relative)
      ensures imageAliasKeys == KeysWith(lower, old(imageAliasKeys), relative)
    {
      hide REWRITE_FILES, FIXED_FILES, MARKDOWN, Bytes, AliasesValid, IsRelative, AliasOf, AliasRoom;
      var alias := AliasOf(relative);
      if alias.Some? {
        var (name, target) := alias.value;
        var key := lower(name);
        if key !in imageAliasKeys {
          AliasesPut(lower, imageAliases, imageAliasKeys, aliasBytes, relative);
          imageAliases := imageAliases[name := target];
          imageAliasKeys := imageAliasKeys[key := name];
          aliasBytes := aliasBytes + Bytes(name) + Bytes(target);
        }
      }
    }

    // ---------------------------------------------------------------- rewriting

    method RewriteTextBytes(relative: Path, value: string) returns (r: Result<string, WriteError>)
      requires "" !in imageAliases
      ensures r.Ok? ==> IsRewrite(alnum, rewriteJson, relative, value, r.value, imageAliases)
      ensures r.Ok? <==> CanRewrite(alnum, rewriteJson, limit, relative, value, imageAliases)
      ensures r.Err? ==> r.error == FileOverLimit
    {
      hide RewriteFrom, Bytes, InOrder, IsReplacements, MARKDOWN, TextLimit;
      if Bytes(value) > TextLimit(limit) {
        return Err(FileOverLimit);
      }
      var rewritten;
      if relative == MARKDOWN {
        var replacements := SortReplacements(imageAliases);
        NamesNotEmpty(replacements, imageAliases);
        rewritten := RewriteReferenceTokens(alnum, value, replacements);
      } else {
        var json := rewriteJson(value, imageAliases);
        if json.None? {
          return Err(FileOverLimit);
        }
        rewritten := json.value;
      }
      assert IsRewrite(alnum, rewriteJson, relative, value, rewritten, imageAliases);
      forall after | IsRewrite(alnum, rewriteJson, relative, value, after, imageAliases) ensures after == rewritten {
        RewriteIsUnique(alnum, rewriteJson, relative, value, after, rewritten, imageAliases);
      }
      r := if Bytes(rewritten) > TextLimit(limit) then Err(FileOverLimit) else Ok(rewritten);
    }

    method RewriteOne(relative: Path, broken: nat) returns (r: Result<(), WriteError>)
      requires Accounted() && relative in sizes && "" !in imageAliases
      modifies this`total, this`sizes, this`disk
      ensures Accounted() && sizes.Keys == old(sizes).Keys && disk.Keys == old(disk).Keys
      ensures forall p :: p in disk && p != relative ==> disk[p] == old(disk)[p]
      ensures relative in disk
      ensures r.Ok? ==> IsRewrite(alnum, rewriteJson, relative, old(disk)[relative], disk[relative], imageAliases)
      ensures r.Err? ==> disk == old(disk) && r.error in {OverLimit, FileOverLimit, Io}
      ensures r.Err? ==>
                TextBlocked(alnum, rewriteJson, limit, imageAliases, old(disk), relative, BreaksAt(broken))
    {
      hide REWRITE_FILES, FIXED_FILES, MARKDOWN, IsRewrite, Join, Bytes, Fits, Accounts;
      SameKeys(limit, total, sizes, disk);
      var rewritten := RewriteTextBytes(relative, disk[relative]);
      if rewritten.Err? {
        return Err(rewritten.error);
      }
      r := Ok(());
      if rewritten.value != disk[relative] {
        JoinOne(rewritten.value);
        r := WriteRaw(relative, [rewritten.value], broken);
        if r.Err? {
          StoringBlocked(alnum, rewriteJson, limit, imageAliases, total, sizes, disk, relative, rewritten.value,
                         broken);
        }
        SameKeys(limit, total, sizes, disk);
      }
    }

    /**
     Rewrites the given texts in some order, stopping at the first failure; the others keep their contents, and so
     do those that cannot be read back.
     */
    method RewriteText(relatives: set<Path>, faults: Faults) returns (r: Result<(), WriteError>)
      requires Accounted() && relatives <= sizes.Keys && AliasesValid(lower, imageAliases, imageAliasKeys, aliasBytes)
      modifies this`total, this`sizes, this`disk
      ensures Accounted() && sizes.Keys == old(sizes).Keys
      ensures TextsRewritten(alnum, rewriteJson, imageAliases, old(disk), disk, Readable(relatives, faults), r.Ok?)
      ensures r.Err? ==> r.error in {OverLimit, FileOverLimit, Io}
      ensures r.Err? ==>
                SomeBlocked(alnum, rewriteJson, limit, imageAliases, old(disk), Readable(relatives, faults), faults)
    {
      hide REWRITE_FILES, FIXED_FILES, MARKDOWN, Accounts, AliasesValid, IsRewrite, TextsRewritten, Readable,
        TextBlocked, SomeBlocked;
      NoEmptyAlias(lower, imageAliases, imageAliasKeys, aliasBytes);
      NothingRewritten(alnum, rewriteJson, imageAliases, disk);
      assert relatives - relatives == {};
      NothingReadable(faults);
      ghost var before := disk;
      var pending := relatives;
      while pending != {}
        invariant pending <= relatives && Accounted() && sizes.Keys == old(sizes).Keys
        invariant TextsRewritten(alnum, rewriteJson, imageAliases, before, disk,
                                 Readable(relatives - pending, faults), true)
        decreases |pending|
      {
        var relative :| relative in pending;
        ghost var mid, done := disk, Readable(relatives - pending, faults);
        ReadableStep(relatives, pending, relative, faults);
        if faults(relative).BreaksAt? {
          r := RewriteOne(relative, faults(relative).step);
          if r.Err? {
            ReadableIn(relatives, relative, faults);
            BlocksOne(alnum, rewriteJson, limit, imageAliases, before, Readable(relatives, faults), faults, relative,
                      done, mid);
            StoppedEarly(alnum, rewriteJson, imageAliases, before, disk, done, Readable(relatives, faults));
            return;
          }
          OneMoreRewritten(alnum, rewriteJson, imageAliases, before, mid, disk, done, relative);
        }
        pending := pending - {relative};
      }
      assert relatives - pending == relatives;
      r := Ok(());
    }

    // ---------------------------------------------------------------- writing

    /** The first half of a write: the file with its path is stored, or nothing at all has changed. */
    method Store(relative: Path, chunks: seq<string>, broken: nat) returns (r: Result<(), Failure>)
      requires Valid() && IsRelative(relative)
      modifies this`directories, this`files, this`directoryNames, this`fileNames, this`nameBytes, this`total,
          this`sizes, this`disk
      ensures r.Err? ==> State() == old(State()) && r.error.stage != Rewriting && NoAccountingError(r.error)
      ensures r.Err? ==> Refused(lower, limit, State(), relative, chunks, broken, r.error.stage)
      ensures r.Ok? ==> Stored(lower, limit, old(State()), State(), relative, Join(chunks))
      ensures r.Ok? ==> AliasRoom(lower, imageAliases, imageAliasKeys, aliasBytes, relative)
    {
      hide REWRITE_FILES, FIXED_FILES, MARKDOWN, ValidPaths, Accounts, AliasesValid, AliasesOfFiles, Conflicts,
        AreNew, WithinLimits, Reserved, AliasRoom, Stored, IsRelative, Join, Key;
      RelativeName(relative);
      var checked := CheckAlias(relative);
      if checked.Err? {
        return Err(Failure(Checking, checked.error));
      }
      ghost var before := Paths();
      var reservation, newFile := ReservePath(relative);
      if reservation.Err? {
        return Err(Failure(Reserving, reservation.error));
      }
      var stored := StoreReserved(relative, chunks, broken, reservation.value, newFile, before);
      r := if stored.Err? then Err(Failure(Storing, stored.error)) else Ok(());
    }

    /** Stores a file whose path was just reserved, or takes the reservation back. */
    method StoreReserved(relative: Path, chunks: seq<string>, broken: nat, dirs: seq<Path>, newFile: bool,
                         ghost before: PathState)
      returns (r: Result<(), WriteError>)
      requires ValidPaths(lower, before) && Accounted() && before.fileNames.Values == sizes.Keys && relative != []
      requires !Conflicts(lower, before, relative) && AreNew(lower, before.directories, relative, dirs)
      requires WithinLimits(lower, before, relative, dirs)
      requires newFile == (Key(lower, relative) !in before.files)
      requires Paths() == Reserved(lower, before, relative, dirs)
      modifies this`directories, this`files, this`directoryNames, this`fileNames, this`nameBytes, this`total,
          this`sizes, this`disk
      ensures r.Err? ==> Paths() == before && total == old(total) && sizes == old(sizes) && disk == old(disk)
      ensures r.Err? ==> NoAccountingError(Failure(Storing, r.error))
      ensures r.Err? ==> broken <= |chunks| || !Fits(limit, total, sizes, relative, Bytes(Join(chunks)))
      ensures r.Ok? ==> Stored(lower, limit, old(State()).(paths := before), State(), relative, Join(chunks))
    {
      hide REWRITE_FILES, FIXED_FILES, MARKDOWN, ValidPaths, Accounts, Conflicts, AreNew, WithinLimits, Reserved,
        Stored, Join, Fits, Key;
      ReserveKeepsValid(lower, before, relative, dirs);
      RoomForFile(lower, before, relative, dirs, sizes);
      r := WriteRaw(relative, chunks, broken);
      if r.Err? {
        ReleasePath(dirs, newFile, relative, before);
      } else {
        StoredIs(lower, limit, old(State()).(paths := before), State(), relative, dirs, Join(chunks));
      }
    }

    /** The second half of a write: the image is recorded, and the texts it may concern are rewritten. */
    method Refresh(relative: Path, faults: Faults, ghost before: set<Path>) returns (r: Result<(), WriteError>)
      requires ValidPaths(lower, Paths()) && Accounted() && fileNames.Values == sizes.Keys
      requires sizes.Keys == before + {relative} && textPaths == before * REWRITE_FILES
      requires AliasesOfFiles(before, imageAliases)
      requires AliasesValid(lower, imageAliases, imageAliasKeys, aliasBytes) && IsRelative(relative)
      requires AliasRoom(lower, imageAliases, imageAliasKeys, aliasBytes, relative)
      modifies this`textPaths, this`imageAliases, this`imageAliasKeys, this`aliasBytes, this`total, this`sizes,
          this`disk
      ensures Valid()
      ensures imageAliases == AliasesAfter(lower, old(imageAliases), old(imageAliasKeys), relative)
      ensures TextsRewritten(alnum, rewriteJson, imageAliases, old(disk), disk,
          Readable(TextsFor(old(textPaths), relative), faults), r.Ok?)
      ensures r.Err? ==> NoAccountingError(Failure(Rewriting, r.error))
      ensures r.Err? ==> SomeBlocked(alnum, rewriteJson, limit, imageAliases, old(disk),
                                     Readable(TextsFor(old(textPaths), relative), faults), faults)
    {
      hide REWRITE_FILES, FIXED_FILES, MARKDOWN, ValidPaths, Accounts, AliasesValid, AliasesOfFiles, AliasRoom,
        IsRewrite, AliasesWith, IsRelative, TextsRewritten, SomeBlocked;
      AliasesAfterFile(lower, before, imageAliases, imageAliasKeys, aliasBytes, relative);
      TextPathsAfter(before, relative);
      if relative in REWRITE_FILES {
        textPaths := textPaths + {relative};
        r := RewriteText({relative}, faults);
      } else {
        RecordImage(relative);
        r := RewriteText(textPaths, faults);
      }
    }

    ghost predicate Known()
      reads this
    {
      KnownText(alnum, imageAliases, applied, lastText, disk)
    }

    /** The markdown file is the text last handed in with all image names known by now replaced. */
    ghost predicate Current()
      reads this
    {
      Known() && (MARKDOWN in disk ==> disk[MARKDOWN] == Rewritten(alnum, lastText, imageAliases))
    }

    /**
     Stores a file and brings the texts up to date.  A write that fails before the rewriting changes nothing at
     all.  For clean names, a write that succeeds and can read the markdown back leaves it as one rewrite of the
     text last handed in, whatever was written before, and even if an earlier rewriting failed half way.
     */
    method Write(relative: Path, chunks: seq<string>, broken: nat, faults: Faults) returns (r: Result<(), Failure>)
      requires Valid() && IsRelative(relative)
      modifies this
      ensures Valid()
      ensures r.Err? ==> NoAccountingError(r.error)
      ensures r.Err? && r.error.stage != Rewriting ==>
                State() == old(State()) && Refused(lower, limit, State(), relative, chunks, broken, r.error.stage)
      ensures r.Err? && r.error.stage == Rewriting ==>
                RewritingBlocked(lower, alnum, rewriteJson, limit, old(State()), relative, Join(chunks), faults)
      ensures r.Ok? || r.error.stage == Rewriting ==>
                WriteEffect(lower, alnum, rewriteJson, old(State()), State(), relative, Join(chunks), faults, r.Ok?)
      ensures old(Known()) && CleanName(alnum, relative) ==> Known()
      ensures old(Known()) && CleanName(alnum, relative) && r.Ok? && Touches(relative) ==>
                faults(MARKDOWN).BreaksAt? ==> Current()
      ensures old(Current()) && CleanName(alnum, relative) && r.Ok? && !Touches(relative) ==> Current()
    {
      hide REWRITE_FILES, FIXED_FILES, MARKDOWN, ValidPaths, Accounts, AliasesValid, AliasesOfFiles, AliasRoom,
        AliasesAfter, IsRelative, KnownText, CleanName, Rewritten, Join, NoAccountingError, Refreshed, WriteEffect,
        Refused, SomeBlocked, RewritingBlocked, TextsFor, Readable;
      ghost var content, files, before := Join(chunks), sizes.Keys, State();
      ghost var known, current := Known() && CleanName(alnum, relative), Current() && CleanName(alnum, relative);
      SameKeys(limit, total, sizes, disk);
      r := StoreKnown(relative, chunks, broken);
      if r.Err? {
        return;
      }
      SameKeys(limit, total, sizes, disk);
      ghost var stored := State();
      r := RefreshKnown(relative, faults, files, known);
      BlockedAfterStoring(lower, alnum, rewriteJson, limit, before, stored, relative, content, faults);
      EffectOf(lower, alnum, rewriteJson, before, stored, State(), relative, content, faults, r.Ok?);
      if current && relative in REWRITE_FILES && relative != MARKDOWN {
        StaysCurrent(lower, alnum, rewriteJson, before, State(), relative, content, faults, r.Ok?);
      }
    }

    /** Storing, with an eye on what is known of the markdown. */
    method StoreKnown(relative: Path, chunks: seq<string>, broken: nat) returns (r: Result<(), Failure>)
      requires Valid() && IsRelative(relative)
      modifies this
      ensures r.Err? ==> State() == old(State()) && applied == old(applied)
      ensures r.Err? ==> r.error.stage != Rewriting && NoAccountingError(r.error)
      ensures r.Err? ==> Refused(lower, limit, State(), relative, chunks, broken, r.error.stage)
      ensures r.Ok? ==>
                && Stored(lower, limit, old(State()).(lastText := lastText), State(), relative, Join(chunks))
                && lastText == (if relative == MARKDOWN then Join(chunks) else old(lastText))
                && AliasRoom(lower, imageAliases, imageAliasKeys, aliasBytes, relative)
      ensures r.Ok? && old(Known()) && CleanName(alnum, relative) ==>
                KnownText(alnum, AliasesAfter(lower, imageAliases, imageAliasKeys, relative), applied, lastText, disk)
    {
      hide REWRITE_FILES, FIXED_FILES, MARKDOWN, ValidPaths, Accounts, AliasesValid, AliasesOfFiles, AliasRoom,
        AliasesAfter, IsRelative, KnownText, CleanName, Join, NoAccountingError, AliasOf;
      r := Store(relative, chunks, broken);
      if r.Err? {
        return;
      }
      if old(Known()) && CleanName(alnum, relative) {
        StoreKeepsKnown(alnum, lower, imageAliases, imageAliasKeys, aliasBytes, applied, lastText, old(disk),
                        relative, Join(chunks));
      }
      if relative == MARKDOWN {
        lastText, applied := Join(chunks), map[];
      }
    }

    /** Refreshing, with an eye on what is known of the markdown. */
    method RefreshKnown(relative: Path, faults: Faults, ghost files: set<Path>, ghost known: bool)
      returns (r: Result<(), Failure>)
      requires ValidPaths(lower, Paths()) && Accounted() && fileNames.Values == sizes.Keys
      requires sizes.Keys == files + {relative} && textPaths == files * REWRITE_FILES
      requires AliasesOfFiles(files, imageAliases)
      requires AliasesValid(lower, imageAliases, imageAliasKeys, aliasBytes) && IsRelative(relative)
      requires AliasRoom(lower, imageAliases, imageAliasKeys, aliasBytes, relative)
      requires known ==>
          KnownText(alnum, AliasesAfter(lower, imageAliases, imageAliasKeys, relative), applied, lastText, disk)
      modifies this`textPaths, this`imageAliases, this`imageAliasKeys, this`aliasBytes, this`total, this`sizes,
          this`disk, this`applied
      ensures Valid()
      ensures Refreshed(lower, alnum, rewriteJson, old(State()), State(), relative, faults, r.Ok?)
      ensures r.Err? ==> r.error.stage == Rewriting && NoAccountingError(r.error)
      ensures r.Err? ==>
                SomeBlocked(alnum, rewriteJson, limit,
                            AliasesAfter(lower, old(imageAliases), old(imageAliasKeys), relative), old(disk),
                            Readable(TextsFor(old(textPaths), relative), faults), faults)
      ensures known ==> Known()
      ensures known && r.Ok? && Touches(relative) && faults(MARKDOWN).BreaksAt? ==> Current()
    {
      hide REWRITE_FILES, FIXED_FILES, MARKDOWN, ValidPaths, Accounts, AliasesValid, AliasesOfFiles, AliasRoom,
        IsRewrite, AliasesAfter, IsRelative, Rewritten, Refreshed, TextsRewritten, AppliedAfter, TextsFor,
        Readable, SomeBlocked;
      SameKeys(limit, total, sizes, disk);
      ghost var before, texts := State(), Readable(TextsFor(textPaths, relative), faults);
      var refreshed := Refresh(relative, faults, files);
      RefreshedIs(lower, alnum, rewriteJson, before, State(), relative, faults, refreshed.Ok?);
      ghost var was := applied;
      applied := AppliedAfter(imageAliases, was, before.disk, disk, texts, refreshed.Ok?);
      if known {
        RefreshKeepsKnown(alnum, rewriteJson, imageAliases, was, lastText, before.disk, disk, texts, refreshed.Ok?);
        KnownMeans(alnum, imageAliases, applied, lastText, disk);
        TextsCoverMarkdown(files, relative, faults);
      }
      r := if refreshed.Err? then Err(Failure(Rewriting, refreshed.error)) else Ok(());
    }
  }

  /** `relatives` were rewritten, all of them if `ok`, and no other file changed. */
  ghost predicate TextsRewritten(alnum: Alphabet, rewriteJson: JsonRewriter, aliases: Aliases,
                                 before: map<Path, string>, after: map<Path, string>, relatives: set<Path>, ok: bool) {
    && after.Keys == before.Keys
    && (forall p :: p in after ==>
          after[p] == before[p] || (p in relatives && IsRewrite(alnum, rewriteJson, p, before[p], after[p], aliases)))
    && (ok ==> forall p :: p in relatives ==>
          p in after && IsRewrite(alnum, rewriteJson, p, before[p], after[p], aliases))
  }

  lemma NothingRewritten(alnum: Alphabet, rewriteJson: JsonRewriter, aliases: Aliases, disk: map<Path, string>)
    ensures TextsRewritten(alnum, rewriteJson, aliases, disk, disk, {}, true)
  {
  }

  lemma OneMoreRewritten(alnum: Alphabet, rewriteJson: JsonRewriter, aliases: Aliases, before: map<Path, string>,
                         mid: map<Path, string>, after: map<Path, string>, done: set<Path>, relative: Path)
    requires TextsRewritten(alnum, rewriteJson, aliases, before, mid, done, true) && relative !in done
    requires after.Keys == mid.Keys && relative in after
    requires forall p :: p in after && p != relative ==> after[p] == mid[p]
    requires IsRewrite(alnum, rewriteJson, relative, mid[relative], after[relative], aliases)
    ensures TextsRewritten(alnum, rewriteJson, aliases, before, after, done + {relative}, true)
  {
    hide IsRewrite, MARKDOWN;
  }

  lemma StoppedEarly(alnum: Alphabet, rewriteJson: JsonRewriter, aliases: Aliases, before: map<Path, string>,
                     after: map<Path, string>, done: set<Path>, relatives: set<Path>)
    requires TextsRewritten(alnum, rewriteJson, aliases, before, after, done, true) && done <= relatives
    ensures TextsRewritten(alnum, rewriteJson, aliases, before, after, relatives, false)
  {
    hide IsRewrite, MARKDOWN;
  }

  /** What refreshing does: the aliases grow by those of the file, and only the texts concerned change. */
  ghost predicate Refreshed(lower: Lower, alnum: Alphabet, rewriteJson: JsonRewriter, s: BundleState, t: BundleState,
                            relative: Path, faults: Faults, ok: bool) {
    && t.disk.Keys == s.disk.Keys && t.lastText == s.lastText
    && t.imageAliases == AliasesAfter(lower, s.imageAliases, s.imageAliasKeys, relative)
    && (forall p :: p in t.disk && p !in TextsFor(s.textPaths, relative) ==> t.disk[p] == s.disk[p])
    && (ok && relative in REWRITE_FILES && faults(relative).BreaksAt? ==>
          relative in t.disk
              && IsRewrite(alnum, rewriteJson, relative, s.disk[relative], t.disk[relative], t.imageAliases))
    && (faults(relative).Unreadable? && relative in s.disk ==> t.disk[relative] == s.disk[relative])
  }

  /** What a write does that stored its file, whether the rewriting went through (`ok`) or not. */
  ghost predicate WriteEffect(lower: Lower, alnum: Alphabet, rewriteJson: JsonRewriter, s: BundleState, t: BundleState,
                              relative: Path, content: string, faults: Faults, ok: bool) {
    && t.disk.Keys == s.disk.Keys + {relative}
    && t.imageAliases == AliasesAfter(lower, s.imageAliases, s.imageAliasKeys, relative)
    && t.lastText == (if relative == MARKDOWN then content else s.lastText)
    && (ok ==> if relative in REWRITE_FILES && faults(relative).BreaksAt?
               then IsRewrite(alnum, rewriteJson, relative, content, t.disk[relative], t.imageAliases)
               else t.disk[relative] == content)
    && (forall p :: p in s.disk && p != relative && (p in REWRITE_FILES ==> relative in REWRITE_FILES) ==>
        t.disk[p] == s.disk[p])
  }

  /** Writing another text leaves an up to date markdown up to date. */
  lemma StaysCurrent(lower: Lower, alnum: Alphabet, rewriteJson: JsonRewriter, s: BundleState, t: BundleState,
                     relative: Path, content: string, faults: Faults, ok: bool)
    requires WriteEffect(lower, alnum, rewriteJson, s, t, relative, content, faults, ok)
    requires !Touches(relative)
    requires MARKDOWN in s.disk ==> s.disk[MARKDOWN] == Rewritten(alnum, s.lastText, s.imageAliases)
    ensures MARKDOWN in t.disk ==> t.disk[MARKDOWN] == Rewritten(alnum, t.lastText, t.imageAliases)
  {
    MarkdownIsText();
    hide MARKDOWN, REWRITE_FILES, Rewritten, IsRewrite;
  }

  lemma EffectOf(lower: Lower, alnum: Alphabet, rewriteJson: JsonRewriter, s: BundleState, stored: BundleState,
                 t: BundleState, relative: Path, content: string, faults: Faults, ok: bool)
    requires stored.disk == s.disk[relative := content] && stored.textPaths == s.textPaths <= REWRITE_FILES
    requires stored.imageAliases == s.imageAliases && stored.imageAliasKeys == s.imageAliasKeys
    requires stored.lastText == (if relative == MARKDOWN then content else s.lastText)
    requires Refreshed(lower, alnum, rewriteJson, stored, t, relative, faults, ok)
    ensures WriteEffect(lower, alnum, rewriteJson, s, t, relative, content, faults, ok)
  {
    hide REWRITE_FILES, FIXED_FILES, MARKDOWN, IsRewrite, AliasesAfter;
  }

  /** Whether a write rewrites the markdown, if there is one. */
  predicate Touches(relative: Path) {
    relative == MARKDOWN || relative !in REWRITE_FILES
  }

  /** The texts a write rewrites. */
  function TextsFor(textPaths: set<Path>, relative: Path): set<Path> {
    if relative in REWRITE_FILES then {relative} else textPaths
  }

  function AliasesAfter(lower: Lower, aliases: Aliases, keys: map<string, string>, relative: Path): Aliases {
    if relative in REWRITE_FILES then aliases else AliasesWith(lower, aliases, keys, relative)
  }

  lemma AliasesAfterFile(lower: Lower, files: set<Path>, aliases: Aliases, keys: map<string, string>, aliasBytes: nat,
                         p: Path)
    requires AliasesValid(lower, aliases, keys, aliasBytes) && AliasesOfFiles(files, aliases)
    requires AliasRoom(lower, aliases, keys, aliasBytes, p)
    ensures AliasesOfFiles(files + {p}, AliasesAfter(lower, aliases, keys, p))
  {
    hide REWRITE_FILES, FIXED_FILES, MARKDOWN, AliasesValid, AliasesOfFiles, AliasesWith, Bytes;
    if p in REWRITE_FILES {
      AliasesWithText(files, aliases, p);
    } else {
      AliasesWithFile(lower, files, aliases, keys, aliasBytes, p);
    }
  }

  lemma NoEmptyAlias(lower: Lower, aliases: Aliases, keys: map<string, string>, aliasBytes: nat)
    requires AliasesValid(lower, aliases, keys, aliasBytes)
    ensures "" !in aliases
  {
  }

  // ---------------------------------------------------------------- the markdown text

  predicate CleanName(alnum: Alphabet, relative: Path) {
    AliasOf(relative).Some? ==> IsName(alnum, AliasOf(relative).value.0)
  }

  /** The markdown file is the text last handed in with the names in `applied` replaced, which are some of `aliases`. */
  ghost predicate KnownText(alnum: Alphabet, aliases: Aliases, applied: Aliases, lastText: string,
                            disk: map<Path, string>) {
    && Clean(alnum, aliases) && Clean(alnum, applied) && Grows(applied, aliases)
    && (MARKDOWN in disk ==> disk[MARKDOWN] == Rewritten(alnum, lastText, applied))
  }

  lemma TextPathsAfter(files: set<Path>, relative: Path)
    ensures (files + {relative}) * REWRITE_FILES ==
            if relative in REWRITE_FILES then files * REWRITE_FILES + {relative} else files * REWRITE_FILES
    ensures files * REWRITE_FILES <= files
  {
    hide REWRITE_FILES;
  }

  lemma MarkdownIsText()
    ensures MARKDOWN in REWRITE_FILES
  {
  }

  /** The aliases in the markdown after a refreshing that may have stopped half way. */
  ghost function AppliedAfter(aliases: Aliases, applied: Aliases, before: map<Path, string>, after: map<Path, string>,
                              texts: set<Path>, ok: bool): Aliases {
    if MARKDOWN in texts && MARKDOWN in before && MARKDOWN in after && (ok || after[MARKDOWN] != before[MARKDOWN])
    then aliases else applied
  }

  lemma RefreshKeepsKnown(alnum: Alphabet, rewriteJson: JsonRewriter, aliases: Aliases, applied: Aliases,
                          lastText: string,
                          before: map<Path, string>, after: map<Path, string>, texts: set<Path>, ok: bool)
    requires KnownText(alnum, aliases, applied, lastText, before)
    requires TextsRewritten(alnum, rewriteJson, aliases, before, after, texts, ok)
    ensures KnownText(alnum, aliases, AppliedAfter(aliases, applied, before, after, texts, ok), lastText, after)
    ensures after.Keys == before.Keys
    ensures MARKDOWN in after && ok && MARKDOWN in texts ==>
        AppliedAfter(aliases, applied, before, after, texts, ok) == aliases
  {
    hide MARKDOWN, KnownText, IsRewrite;
    if MARKDOWN in texts && MARKDOWN in before && (ok || after[MARKDOWN] != before[MARKDOWN]) {
      RewriteKeepsKnown(alnum, rewriteJson, aliases, applied, lastText, before, after);
    } else {
      SameMarkdownKnown(alnum, aliases, applied, lastText, before, after);
    }
  }

  lemma RefreshedIs(lower: Lower, alnum: Alphabet, rewriteJson: JsonRewriter, s: BundleState, t: BundleState,
                    relative: Path, faults: Faults, ok: bool)
    requires TextsRewritten(alnum, rewriteJson, t.imageAliases, s.disk, t.disk,
                 Readable(TextsFor(s.textPaths, relative), faults), ok)
    requires t.imageAliases == AliasesAfter(lower, s.imageAliases, s.imageAliasKeys, relative)
    requires t.lastText == s.lastText
    ensures Refreshed(lower, alnum, rewriteJson, s, t, relative, faults, ok)
  {
    hide IsRewrite, AliasesAfter, REWRITE_FILES;
  }

  lemma TextsCoverMarkdown(files: set<Path>, relative: Path, faults: Faults)
    ensures MARKDOWN in files + {relative} && Touches(relative) && faults(MARKDOWN).BreaksAt? ==>
              MARKDOWN in Readable(TextsFor(files * REWRITE_FILES, relative), faults)
  {
    MarkdownIsText();
    hide MARKDOWN, REWRITE_FILES;
  }

  lemma KnownMeans(alnum: Alphabet, aliases: Aliases, applied: Aliases, lastText: string, disk: map<Path, string>)
    requires KnownText(alnum, aliases, applied, lastText, disk)
    ensures MARKDOWN in disk ==> disk[MARKDOWN] == Rewritten(alnum, lastText, applied)
  {
  }

  lemma StoreKeepsKnown(alnum: Alphabet, lower: Lower, aliases: Aliases, keys: map<string, string>, aliasBytes: nat,
                        applied: Aliases, lastText: string,
                        disk: map<Path, string>, relative: Path, content: string)
    requires KnownText(alnum, aliases, applied, lastText, disk) && CleanName(alnum, relative)
    requires AliasesValid(lower, aliases, keys, aliasBytes)
    ensures var after, stored := AliasesAfter(lower, aliases, keys, relative), disk[relative := content];
            if relative == MARKDOWN then KnownText(alnum, after, map[], content, stored)
            else KnownText(alnum, after, applied, lastText, stored)
  {
    hide IsName, Rewritten;
    RewriteNothing(alnum, content);
  }

  lemma RewriteKeepsKnown(alnum: Alphabet, rewriteJson: JsonRewriter, aliases: Aliases, applied: Aliases,
                          lastText: string,
                          stored: map<Path, string>, disk: map<Path, string>)
    requires KnownText(alnum, aliases, applied, lastText, stored) && MARKDOWN in stored && MARKDOWN in disk
    requires IsRewrite(alnum, rewriteJson, MARKDOWN, stored[MARKDOWN], disk[MARKDOWN], aliases)
    ensures KnownText(alnum, aliases, aliases, lastText, disk)
  {
    hide IsRewrite, Clean, Rewritten;
    RewriteOfMarkdown(alnum, rewriteJson, stored[MARKDOWN], disk[MARKDOWN], aliases);
    RewriteTwice(alnum, lastText, applied, aliases);
  }

  lemma SameMarkdownKnown(alnum: Alphabet, aliases: Aliases, applied: Aliases, lastText: string,
                          stored: map<Path, string>, disk: map<Path, string>)
    requires KnownText(alnum, aliases, applied, lastText, stored) && stored.Keys == disk.Keys
    requires MARKDOWN in disk ==> disk[MARKDOWN] == stored[MARKDOWN]
    ensures KnownText(alnum, aliases, applied, lastText, disk)
  {
  }

  predicate NoAccountingError(failure: Failure) {
    failure.error !in {Inconsistent, AccountingOverLimit, TooManyFiles}
  }

  /** Recording the path with the directories it needs would exceed a limit. */
  ghost predicate Overfull(lower: Lower, s: PathState, p: Path) {
    exists dirs :: AreNew(lower, s.directories, p, dirs) && !WithinLimits(lower, s, p, dirs)
  }

  /** Why a write may fail before the rewriting. */
  ghost predicate Refused(lower: Lower, limit: nat, s: BundleState, relative: Path, chunks: seq<string>, broken: nat,
                          stage: Stage) {
    match stage
    case Checking => !AliasRoom(lower, s.imageAliases, s.imageAliasKeys, s.aliasBytes, relative)
    case Reserving => Conflicts(lower, s.paths, relative) || Overfull(lower, s.paths, relative)
    case Storing => broken <= |chunks| || !Fits(limit, s.total, s.sizes, relative, Bytes(Join(chunks)))
    case Rewriting => false
  }

  /** Why it may fail in the rewriting: one of the texts that can be read back is blocked. */
  ghost predicate RewritingBlocked(lower: Lower, alnum: Alphabet, rewriteJson: JsonRewriter, limit: nat,
                                   s: BundleState, relative: Path, content: string, faults: Faults) {
    SomeBlocked(alnum, rewriteJson, limit, AliasesAfter(lower, s.imageAliases, s.imageAliasKeys, relative),
                s.disk[relative := content], Readable(TextsFor(s.textPaths, relative), faults), faults)
  }

  lemma BlockedAfterStoring(lower: Lower, alnum: Alphabet, rewriteJson: JsonRewriter, limit: nat, s: BundleState,
                            stored: BundleState, relative: Path, content: string, faults: Faults)
    requires stored.disk == s.disk[relative := content] && stored.textPaths == s.textPaths
    requires stored.imageAliases == s.imageAliases && stored.imageAliasKeys == s.imageAliasKeys
    ensures RewritingBlocked(lower, alnum, rewriteJson, limit, s, relative, content, faults) <==>
            SomeBlocked(alnum, rewriteJson, limit,
                        AliasesAfter(lower, stored.imageAliases, stored.imageAliasKeys, relative), stored.disk,
                        Readable(TextsFor(stored.textPaths, relative), faults), faults)
  {
    hide SomeBlocked, Readable, TextsFor, AliasesAfter;
  }

  /** Between `s` and `t` one file was stored, under a path that is now recorded. */
  ghost predicate Stored(lower: Lower, limit: nat, s: BundleState, t: BundleState, relative: Path, content: string) {
    && ValidPaths(lower, t.paths)
    && Accounts(limit, t.total, t.sizes, t.disk)
    && t.paths.fileNames.Values == t.sizes.Keys
    && t.disk == s.disk[relative := content]
    && t.textPaths == s.textPaths && t.imageAliases == s.imageAliases
    && t.imageAliasKeys == s.imageAliasKeys && t.aliasBytes == s.aliasBytes && t.lastText == s.lastText
  }

  /** Reserving a path leaves room for its size: the limit on the number of files cannot be what refuses it. */
  lemma RoomForFile(lower: Lower, s: PathState, p: Path, dirs: seq<Path>, sizes: map<Path, nat>)
    requires ValidPaths(lower, s) && WithinLimits(lower, s, p, dirs) && !Conflicts(lower, s, p)
    requires s.fileNames.Values == sizes.Keys
    ensures p in sizes || |sizes| < MAX_BUNDLE_ENTRIES
  {
    hide NamesUnderKeys, ParentsRecorded, NoSpareDirectories, WeightOf, Key;
    ValuesWithinKeys(s.fileNames);
  }

  lemma {:induction false} ValuesWithinKeys<K, V>(m: map<K, V>)
    ensures |m.Values| <= |m.Keys|
    decreases |m|
  {
    if m != map[] {
      var k :| k in m;
      ValuesWithinKeys(m - {k});
      ValuesPut(m - {k}, k, m[k]);
      assert m == (m - {k})[k := m[k]];
      assert m.Keys == (m - {k}).Keys + {k};
    }
  }

  lemma StoredIs(lower: Lower, limit: nat, s: BundleState, t: BundleState, p: Path, dirs: seq<Path>, content: string)
    requires s.paths.fileNames.Values == s.sizes.Keys && !Conflicts(lower, s.paths, p)
    requires ValidPaths(lower, s.paths)
    requires t.paths == Reserved(lower, s.paths, p, dirs) && ValidPaths(lower, t.paths)
    requires Accounts(limit, t.total, t.sizes, t.disk) && Accounts(limit, s.total, s.sizes, s.disk)
    requires t.disk == s.disk[p := content]
    requires t.textPaths == s.textPaths && t.imageAliases == s.imageAliases
    requires t.imageAliasKeys == s.imageAliasKeys && t.aliasBytes == s.aliasBytes && t.lastText == s.lastText
    ensures Stored(lower, limit, s, t, p, content)
  {
    hide REWRITE_FILES, FIXED_FILES, MARKDOWN, ValidPaths, Accounts, Conflicts, Reserved;
    SameKeys(limit, s.total, s.sizes, s.disk);
    SameKeys(limit, t.total, t.sizes, t.disk);
    ReservedFile(lower, s.paths, p, dirs);
  }

  lemma ReservedFile(lower: Lower, s: PathState, p: Path, dirs: seq<Path>)
    requires ValidPaths(lower, s) && !Conflicts(lower, s, p)
    ensures Reserved(lower, s, p, dirs).fileNames.Values == s.fileNames.Values + {p}
  {
    hide Fresh, FreshBytes, Key, NameBytes, NamesUnderKeys, ParentsRecorded, NoSpareDirectories, WeightOf, Conflicts;
    NoConflictKeepsName(lower, s, p);
    ValuesPut(s.fileNames, Key(lower, p), p);
    assert Reserved(lower, s, p, dirs).fileNames == s.fileNames[Key(lower, p) := p];
  }

  lemma ValuesPut<K, V>(m: map<K, V>, k: K, v: V)
    requires k in m ==> m[k] == v
    ensures m[k := v].Values == m.Values + {v}
  {
    var after := m[k := v];
    assert after[k] == v;
    forall x | x in m.Values ensures x in after.Values {
      var i :| i in m && m[i] == x;
      assert after[i] == x;
    }
  }

  predicate AliasRoom(lower: Lower, aliases: Aliases, keys: map<string, string>, aliasBytes: nat, relative: Path) {
    AliasOf(relative).Some? ==>
      var (name, target) := AliasOf(relative).value;
      if lower(name) in keys then keys[lower(name)] == name
      else |keys| < MAX_BUNDLE_ENTRIES && |aliases| < MAX_BUNDLE_ENTRIES
           && aliasBytes + Bytes(name) + Bytes(target) <= MAX_BUNDLE_NAME_BUDGET
  }

  lemma AliasesPut(lower: Lower, aliases: Aliases, keys: map<string, string>, aliasBytes: nat, relative: Path)
    requires AliasesValid(lower, aliases, keys, aliasBytes) && IsRelative(relative)
    requires AliasRoom(lower, aliases, keys, aliasBytes, relative)
    requires AliasOf(relative).Some? && lower(AliasOf(relative).value.0) !in keys
    ensures var (name, target) := AliasOf(relative).value;
            AliasesValid(lower, aliases[name := target], keys[lower(name) := name], aliasBytes + Bytes(name)
                + Bytes(target))
  {
    hide Bytes, WeightOf, IsRelative, AliasOf;
    RelativeName(relative);
    WeightPut(aliases, AliasWeight, AliasOf(relative).value.0, AliasOf(relative).value.1);
  }

  lemma RelativeName(p: Path)
    requires IsRelative(p)
    ensures p != [] && (AliasOf(p).Some? ==> AliasOf(p).value.0 != "")
  {
  }

  lemma JoinOne(content: string)
    ensures Join([content]) == content
  {
    assert [content][..0] == [];
    assert Join([content][..0]) == "";
  }

  lemma SameKeys(limit: nat, total: int, sizes: map<Path, nat>, disk: map<Path, string>)
    requires Accounts(limit, total, sizes, disk)
    ensures sizes.Keys == disk.Keys
  {
  }

  lemma JoinNothing(chunks: seq<string>)
    ensures Join(chunks[..0]) == "" && Bytes("") == 0
  {
  }

  lemma TotalWithinLimit(limit: nat, total: int, sizes: map<Path, nat>, disk: map<Path, string>)
    requires Accounts(limit, total, sizes, disk)
    ensures 0 <= total <= limit
    ensures forall p :: Fits(limit, total, sizes, p, 0)
  {
    forall p ensures Fits(limit, total, sizes, p, 0) {
      SizeWithinTotal(limit, total, sizes, disk, p);
    }
  }

  method AddedBytes(directories: seq<Path>) returns (bytes: nat)
    ensures bytes == FreshBytes(directories, |directories|)
  {
    bytes := 0;
    for k := 0 to |directories|
      invariant bytes == FreshBytes(directories, k)
    {
      bytes := bytes + NameBytes(directories[k]);
    }
  }

  lemma NewStep(lower: Lower, directories: set<Path>, p: Path, i: nat, dirs: seq<Path>)
    requires 1 <= i < |p| && AreNew(lower, directories, p[..i], dirs)
    ensures AreNew(lower, directories, p[..i + 1], if Key(lower, p[..i]) !in directories then dirs + [p[..i]] else dirs)
  {
    hide Key;
    var shorter, longer := p[..i], p[..i + 1];
    assert forall n :: 0 <= n <= i ==> shorter[..n] == longer[..n] == p[..n];
    assert longer[..i] == p[..i];
  }

  lemma FreshStep(lower: Lower, dirs: seq<Path>, k: nat, directories: set<Path>, names: map<Path, Path>)
    requires k < |dirs|
    ensures names + Fresh(lower, dirs, k + 1) == (names + Fresh(lower, dirs, k))[Key(lower, dirs[k]) := dirs[k]]
    ensures directories + Fresh(lower, dirs, k + 1).Keys ==
        directories + Fresh(lower, dirs, k).Keys + {Key(lower, dirs[k])}
  {
    hide Key;
  }

  lemma FreshIsReserved(lower: Lower, before: PathState, p: Path, dirs: seq<Path>, k: nat)
    requires AreNew(lower, before.directories, p, dirs) && k < |dirs|
    ensures Key(lower, dirs[k]) in Reserved(lower, before, p, dirs).directories
    ensures Key(lower, dirs[k]) !in Fresh(lower, dirs, k)
    ensures Fresh(lower, dirs, k + 1).Keys == Fresh(lower, dirs, k).Keys + {Key(lower, dirs[k])}
  {
    hide Key, AreNew, NameBytes, FreshBytes;
    FreshKeys(lower, before.directories, p, dirs, |dirs|);
    FreshKeyIsNew(lower, before.directories, p, dirs, k);
  }

  lemma FileIsReserved(lower: Lower, before: PathState, p: Path, dirs: seq<Path>)
    ensures Key(lower, p) !in before.files ==> Key(lower, p) in Reserved(lower, before, p, dirs).files
  {
  }

  lemma LimitsExceeded(lower: Lower, s: PathState, p: Path, dirs: seq<Path>)
    requires AreNew(lower, s.directories, p, dirs)
    requires |s.directories| + |s.files| + |dirs| + (if Key(lower, p) !in s.files then 1 else 0) > MAX_BUNDLE_ENTRIES ||
             s.nameBytes + FreshBytes(dirs, |dirs|) + (if Key(lower, p) !in s.files then NameBytes(p) else 0)
                > MAX_BUNDLE_NAME_BUDGET
    ensures Overfull(lower, s, p)
  {
    hide AreNew;
    assert !WithinLimits(lower, s, p, dirs);
  }

  lemma LimitsMet(lower: Lower, s: PathState, p: Path, dirs: seq<Path>)
    requires |s.directories| + |s.files| + |dirs| + (if Key(lower, p) !in s.files then 1 else 0) <= MAX_BUNDLE_ENTRIES
    requires s.nameBytes + FreshBytes(dirs, |dirs|)
        + (if Key(lower, p) !in s.files then NameBytes(p) else 0) <= MAX_BUNDLE_NAME_BUDGET
    ensures WithinLimits(lower, s, p, dirs)
  {
  }

  // ---------------------------------------------------------------- whole runs

  /** A write with the steps at which the operating system fails. */
  datatype Request = Request(relative: Path, chunks: seq<string>, broken: nat, faults: Faults)

  /** The markdown text handed in last among the first `n` requests. */
  function LastText(requests: seq<Request>, n: nat): string
    requires n <= |requests|
  {
    if n == 0 then "" else if requests[n - 1].relative == MARKDOWN then Join(requests[n - 1].chunks)
        else LastText(requests, n - 1)
  }

  function Written(requests: seq<Request>, n: nat): set<Path>
    requires n <= |requests|
  {
    if n == 0 then {} else Written(requests, n - 1) + {requests[n - 1].relative}
  }

  /** The last of the first `n` requests that rewrote the markdown could read it back. */
  predicate ReadBack(requests: seq<Request>, n: nat)
    requires n <= |requests|
  {
    n > 0 ==> if Touches(requests[n - 1].relative) then requests[n - 1].faults(MARKDOWN).BreaksAt?
              else ReadBack(requests, n - 1)
  }

  /** What a successful run leaves: the files, their aliases, and the markdown as one rewrite of its last text. */
  ghost predicate Saved(alnum: Alphabet, disk: map<Path, string>, aliases: Aliases, requests: seq<Request>) {
    && disk.Keys == Written(requests, |requests|) && AliasesOfFiles(disk.Keys, aliases)
    && (MARKDOWN in disk && ReadBack(requests, |requests|) ==>
         disk[MARKDOWN] == Rewritten(alnum, LastText(requests, |requests|), aliases))
  }

  /**
   Writes everything to a new bundle, in the order in which it arrives.  When no write fails and the names are
   clean, the markdown is one rewrite of the text handed in last, with the aliases of all files written.
   */
  method SaveAll(limit: nat, lower: Lower, alnum: Alphabet, rewriteJson: JsonRewriter, requests: seq<Request>)
    returns (writer: BundleWriter, r: Result<(), Failure>)
    requires limit > 0
    requires AllToken(alnum, IMAGES) && forall i :: 0 <= i < |requests| ==>
        IsRelative(requests[i].relative) && CleanName(alnum, requests[i].relative)
    ensures writer.Valid()
    ensures r.Ok? ==> Saved(alnum, writer.disk, writer.imageAliases, requests)
  {
    hide MARKDOWN, REWRITE_FILES, FIXED_FILES, ValidPaths, Accounts, AliasesValid, AliasesOfFiles, AliasesAfter,
      IsRelative, CleanName, Rewritten, Join, IsRewrite, Touches, KnownText;
    writer := new BundleWriter(limit, lower, alnum, rewriteJson);
    for i := 0 to |requests|
      invariant fresh(writer) && writer.Valid() && writer.Known() && writer.alnum == alnum
      invariant ReadBack(requests, i) ==> writer.Current()
      invariant writer.disk.Keys == Written(requests, i) && writer.lastText == LastText(requests, i)
    {
      var request := requests[i];
      r := writer.Write(request.relative, request.chunks, request.broken, request.faults);
      if r.Err? {
        return;
      }
    }
    SameKeys(writer.limit, writer.total, writer.sizes, writer.disk);
    r := Ok(());
  }

  /** No two files give the same name, as a fixed file and an image of that name would. */
  ghost predicate NamesUnique(files: set<Path>) {
    forall p, q, name :: p in files && q in files && Gives(p, name) && Gives(q, name) ==> p == q
  }

  ghost predicate Determined(files: set<Path>) {
    forall a, b :: AliasesOfFiles(files, a) && AliasesOfFiles(files, b) ==> a == b
  }

  lemma UniqueDetermines(files: set<Path>, a: Aliases, b: Aliases)
    requires NamesUnique(files) && AliasesOfFiles(files, a) && AliasesOfFiles(files, b)
    ensures a == b
  {
    hide REWRITE_FILES, AliasOf;
    forall name | name in a ensures name in b && a[name] == b[name] {
      var p :| p in files && Gives(p, name) && AliasOf(p).value.1 == a[name];
      var q :| q in files && Gives(q, name) && AliasOf(q).value.1 == b[name];
    }
    assert forall name :: name in b ==> name in a;
  }

  ghost predicate IsNamed(files: set<Path>, name: string) {
    exists p :: p in files && Gives(p, name)
  }

  ghost function GiverOf(files: set<Path>, name: string): (p: Path)
    requires IsNamed(files, name)
    ensures p in files && Gives(p, name)
  {
    var p :| p in files && Gives(p, name);
    p
  }

  ghost function NamesOfFiles(files: set<Path>): set<string> {
    set p | p in files && AliasOf(p).Some? && p !in REWRITE_FILES :: AliasOf(p).value.0
  }

  lemma NamedIsName(files: set<Path>, name: string)
    ensures name in NamesOfFiles(files) <==> IsNamed(files, name)
  {
    hide REWRITE_FILES;
  }

  /** Aliases for the files, with the file of one name chosen. */
  ghost function ChosenAliases(files: set<Path>, chosen: Path, name: string): (aliases: Aliases)
    requires chosen in files && Gives(chosen, name)
    ensures AliasesOfFiles(files, aliases) && name in aliases && aliases[name] == AliasOf(chosen).value.1
  {
    hide REWRITE_FILES;
    var aliases := map n | n in NamesOfFiles(files) ::
        (NamedIsName(files, n); AliasOf(if n == name then chosen else GiverOf(files, n)).value.1);
    assert forall n :: n in aliases <==> IsNamed(files, n) by {
      forall n ensures n in aliases <==> IsNamed(files, n) { NamedIsName(files, n); }
    }
    aliases
  }

  lemma TargetsDiffer(p: Path, q: Path, name: string)
    requires Gives(p, name) && Gives(q, name) && p != q
    ensures AliasOf(p).value.1 != AliasOf(q).value.1
  {
    assert |p| == 1 ==> p == [name];
    assert |p| == 2 ==> p == ["images", name];
    assert |q| == 1 ==> q == [name];
    assert |q| == 2 ==> q == ["images", name];
    assert |IMAGES + name| == 7 + |name|;
  }

  /** The files written determine the aliases exactly when no two of them give the same name. */
  lemma FilesDetermineAliases(files: set<Path>)
    ensures NamesUnique(files) <==> Determined(files)
  {
    hide REWRITE_FILES, AliasOf, AliasesOfFiles;
    if NamesUnique(files) {
      forall a, b | AliasesOfFiles(files, a) && AliasesOfFiles(files, b) ensures a == b {
        UniqueDetermines(files, a, b);
      }
    } else {
      var p, q, name :| p in files && q in files && Gives(p, name) && Gives(q, name) && p != q;
      TargetsDiffer(p, q, name);
      assert ChosenAliases(files, p, name) != ChosenAliases(files, q, name);
    }
  }

  /**
   The order of the writes does not matter: two successful runs that write the same files, none of them sharing a
   name, and hand in the same text last end with the same markdown and the same aliases.
   */
  lemma OrderDoesNotMatter(alnum: Alphabet, a: seq<Request>, b: seq<Request>, diskA: map<Path, string>,
                           diskB: map<Path, string>, aliasesA: Aliases, aliasesB: Aliases)
    requires Saved(alnum, diskA, aliasesA, a) && Saved(alnum, diskB, aliasesB, b)
    requires Written(a, |a|) == Written(b, |b|) && NamesUnique(Written(a, |a|))
    requires LastText(a, |a|) == LastText(b, |b|) && ReadBack(a, |a|) && ReadBack(b, |b|)
    ensures aliasesA == aliasesB
    ensures MARKDOWN in diskA <==> MARKDOWN in diskB
    ensures MARKDOWN in diskA ==> diskA[MARKDOWN] == diskB[MARKDOWN]
  {
    hide REWRITE_FILES, MARKDOWN, AliasesOfFiles, NamesUnique, Rewritten, ReadBack;
    UniqueDetermines(Written(a, |a|), aliasesA, aliasesB);
  }

  /**
   With a file and an image of one name, the order does matter: whatever was written before, the alias is that of
   whichever of the two came first.
   */
  lemma FirstAliasStays(lower: Lower, aliases: Aliases, keys: map<string, string>, p: Path, q: Path, name: string)
    requires p != q && Gives(p, name) && Gives(q, name) && lower(name) !in keys
    ensures var pFirst := AliasesWith(lower, AliasesWith(lower, aliases, keys, p), KeysWith(lower, keys, p), q);
            var qFirst := AliasesWith(lower, AliasesWith(lower, aliases, keys, q), KeysWith(lower, keys, q), p);
            && name in pFirst && pFirst[name] == AliasOf(p).value.1
            && name in qFirst && qFirst[name] == AliasOf(q).value.1
            && pFirst != qFirst
  {
    hide REWRITE_FILES;
    TargetsDiffer(p, q, name);
  }
}
