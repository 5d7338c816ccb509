/**
 What sizes, names and aliases of a bundle mean, said of the bytes and characters they stand for.
 */
module BundleNames {
  import opened BundlePaths
  import opened BundleWriter
  import opened ReferenceTokens
  import opened Wrappers

  // ---------------------------------------------------------------- UTF-8, section 3 of RFC 3629

  type Octets = seq<nat>

  predicate AreOctets(octets: Octets) {
    |octets| <= 4 && forall i :: 0 <= i < |octets| ==> octets[i] < 256
  }

  function Encoded(code: nat): Octets {
    if code < 128 then [code]
    else if code < 2048 then [192 + code / 64, 128 + code % 64]
    else if code < 65536 then [224 + code / 4096, 128 + code / 64 % 64, 128 + code % 64]
    else [240 + code / 262144, 128 + code / 4096 % 64, 128 + code / 64 % 64, 128 + code % 64]
  }

  /** The number that a sequence of octets encodes, told from the first of them, if they are as many as it says. */
  function Decoded(octets: Octets): Option<nat> {
    if octets == [] then None
    else
      var first := octets[0];
      if first < 128 && |octets| == 1 then Some(first)
      else if 192 <= first < 224 && |octets| == 2 then Some((first - 192) * 64 + Low(octets[1]))
      else if 224 <= first < 240 && |octets| == 3 then
        Some(((first - 224) * 64 + Low(octets[1])) * 64 + Low(octets[2]))
      else if 240 <= first < 248 && |octets| == 4 then
        Some((((first - 240) * 64 + Low(octets[1])) * 64 + Low(octets[2])) * 64 + Low(octets[3]))
      else None
  }

  function Low(octet: nat): nat {
    octet % 64
  }

  lemma Halves(code: nat)
    ensures Low(128 + code % 64) == code % 64
    ensures code / 64 * 64 + code % 64 == code
  {
  }

  lemma Quotients(code: nat)
    ensures code / 64 / 64 == code / 4096 && code / 4096 / 64 == code / 262144
  {
  }

  lemma EncodingReadsBack(code: nat)
    requires code < 0x110000
    ensures Decoded(Encoded(code)) == Some(code)
  {
    var high := code / 64;
    Quotients(code);
    Halves(code);
    Halves(high);
    Halves(high / 64);
  }

  lemma EncodingIsOctets(code: nat)
    requires code < 0x110000
    ensures AreOctets(Encoded(code))
  {
  }

  /** A character takes as many bytes as its encoding has, and the encoding can be read back. */
  lemma WidthIsEncoded(c: char)
    ensures Utf8Width(c) == |Encoded(c as nat)| && Decoded(Encoded(c as nat)) == Some(c as nat)
    ensures AreOctets(Encoded(c as nat))
  {
    hide Decoded;
    EncodingReadsBack(c as nat);
    EncodingIsOctets(c as nat);
  }

  function EncodedText(s: string): Octets {
    if s == "" then [] else EncodedText(s[..|s| - 1]) + Encoded(s[|s| - 1] as nat)
  }

  /** The size of a text is that of its encoding. */
  lemma {:induction false} BytesAreEncoded(s: string)
    ensures Bytes(s) == |EncodedText(s)|
  {
    if s != "" {
      BytesAreEncoded(s[..|s| - 1]);
      WidthIsEncoded(s[|s| - 1]);
    }
  }

  // ---------------------------------------------------------------- paths as they are written

  /** A path with slashes between its parts. */
  function Written(p: Path): string {
    if |p| == 0 then "" else if |p| == 1 then p[0] else Written(p[..|p| - 1]) + "/" + p[|p| - 1]
  }

  /** The length of a path is that of what is written. */
  lemma {:induction false} NameIsWritten(p: Path)
    ensures NameBytes(p) == |EncodedText(Written(p))|
  {
    BytesAreEncoded(Written(p));
    if |p| > 0 {
      var rest, last := p[..|p| - 1], p[|p| - 1];
      NameIsWritten(rest);
      BytesAreEncoded(Written(rest));
      if |p| == 1 {
        assert rest == [];
      } else {
        BytesConcat(Written(rest) + "/", last);
        BytesConcat(Written(rest), "/");
        assert Bytes("/") == Bytes("") + Utf8Width('/');
      }
    }
  }

  /** Paths have the same key when they have as many parts and these differ at most in case. */
  lemma KeysAlike(lower: Lower, p: Path, q: Path)
    ensures Key(lower, p) == Key(lower, q) <==> |p| == |q| && forall i :: 0 <= i < |p| ==> lower(p[i]) == lower(q[i])
  {
    if Key(lower, p) == Key(lower, q) {
      assert forall i :: 0 <= i < |p| ==> Key(lower, p)[i] == lower(p[i]) && Key(lower, q)[i] == lower(q[i]);
    }
  }

  // ---------------------------------------------------------------- aliases

  /**
   A file directly under `images`, and a file at the top, has its last part as an alias for its written path; a file
   further down has none.
   */
  lemma AliasIsLastPart(p: Path)
    ensures AliasOf(p).Some? <==> |p| == 1 || (|p| == 2 && p[0] == "images")
    ensures AliasOf(p).Some? ==> AliasOf(p).value == (p[|p| - 1], Written(p))
  {
    if |p| == 2 {
      assert Written(p[..1]) == p[0];
      assert "images" + "/" == IMAGES;
    }
  }

  const REWRITTEN_NAMES: seq<string> := ["markdown.md", "middle_json.json", "structured_content.json"]

  const KEPT_NAMES: seq<string> := ["model_output.json", "operation.json", "render.json", "render.bin"]

  /** The files a bundle may hold: three texts that are rewritten, four more at the top, and anything under `images`. */
  lemma FilesListed(p: Path)
    ensures p in REWRITE_FILES <==> |p| == 1 && p[0] in REWRITTEN_NAMES
    ensures p in FIXED_FILES <==> |p| == 1 && (p[0] in REWRITTEN_NAMES || p[0] in KEPT_NAMES)
    ensures IsRelative(p) <==> p in FIXED_FILES || (|p| >= 2 && p[0] == "images" && "" !in p)
  {
    if |p| == 1 {
      assert p == [p[0]];
    }
  }

  const OTHER_TOKEN_CHARACTERS: set<int> := {45, 46, 47, 92, 95}

  /** Besides letters and digits, `-`, `.`, `/`, the backslash and `_` are parts of tokens. */
  lemma TokenCharactersListed(alnum: Alphabet, c: char)
    ensures TokenChar(alnum, c) <==> alnum(c) || c as int in OTHER_TOKEN_CHARACTERS
  {
    var code := c as int;
    assert c == code as char;
  }

  /** A clean name has a character, and none that is a slash or ends a token. */
  lemma NameIsOneToken(alnum: Alphabet, name: string)
    ensures IsName(alnum, name) <==>
              |name| > 0 && forall c :: c in name ==> c as int != 47 && (alnum(c) || c as int in OTHER_TOKEN_CHARACTERS)
  {
    forall c: char ensures TokenChar(alnum, c) <==> alnum(c) || c as int in OTHER_TOKEN_CHARACTERS {
      TokenCharactersListed(alnum, c);
    }
    forall c | c in name ensures c != '/' <==> c as int != 47 {
      var code := c as int;
      assert c == code as char;
    }
    assert forall i :: 0 <= i < |name| ==> name[i] in name;
  }

  /** A file has a clean name if its last part is one, where texts use that part as its alias. */
  lemma FileHasCleanName(alnum: Alphabet, p: Path)
    ensures CleanName(alnum, p) <==> |p| == 0 || |p| > 2 || (|p| == 2 && p[0] != "images") || IsName(alnum, p[|p| - 1])
  {
    hide IsName;
    AliasIsLastPart(p);
  }

  /** Names of equal length are tried in the order of the first character in which they differ. */
  lemma {:induction false} LexLessMeans(a: string, b: string)
    requires |a| == |b|
    ensures LexLess(a, b) <==> exists k :: 0 <= k < |a| && a[..k] == b[..k] && a[k] < b[k]
  {
    if a != "" && a[0] == b[0] {
      LexLessMeans(a[1..], b[1..]);
      if k :| 0 <= k < |a| && a[..k] == b[..k] && a[k] < b[k] {
        assert a[1..][..k - 1] == a[..k][1..] && b[1..][..k - 1] == b[..k][1..];
        assert a[1..][k - 1] < b[1..][k - 1];
      }
      if k :| 0 <= k < |a[1..]| && a[1..][..k] == b[1..][..k] && a[1..][k] < b[1..][k] {
        assert a[..k + 1] == [a[0]] + a[1..][..k] && b[..k + 1] == [b[0]] + b[1..][..k];
        assert a[k + 1] < b[k + 1];
      }
    } else if a != "" {
      assert a[..0] == b[..0];
      forall k | 0 < k < |a| ensures a[..k] != b[..k] {
        assert a[..k][0] != b[..k][0];
      }
    }
  }

  // ---------------------------------------------------------------- sizes

  /** The chunks of a file one behind the other. */
  lemma {:induction false} ChunksJoin(a: seq<string>, b: seq<string>, c: string)
    ensures Join(a + b) == Join(a) + Join(b) && Join([c]) == c && Join([]) == ""
    decreases |b|
  {
    assert [c][..0] == [];
    if b == [] {
      assert a + b == a;
    } else {
      ChunksJoin(a, b[..|b| - 1], c);
      assert (a + b)[..|a + b| - 1] == a + b[..|b| - 1];
    }
  }

  const TEXT_LIMIT := 67108864

  /** A file fits when all files together are within the limit with it, and a fixed file also within its own. */
  lemma FitMeans(limit: nat, total: int, sizes: map<Path, nat>, disk: map<Path, string>, p: Path, size: nat)
    requires Accounts(limit, total, sizes, disk)
    ensures Fits(limit, total, sizes, p, size) <==>
              && WeightOf(sizes[p := size], SizeWeight) <= limit
              && (p in FIXED_FILES ==> size <= limit && size <= TEXT_LIMIT)
  {
    hide WeightOf, FIXED_FILES;
    WeightPut(sizes, SizeWeight, p, size);
  }

  /** A reservation is within the limits exactly when the paths recorded after it are: 8192 of them, 32 MiB of names. */
  lemma ReservationFits(lower: Lower, s: PathState, p: Path, dirs: seq<Path>)
    requires ValidPaths(lower, s) && AreNew(lower, s.directories, p, dirs)
    ensures var t := Reserved(lower, s, p, dirs);
            WithinLimits(lower, s, p, dirs) <==> |t.directories| + |t.files| <= 8192 && t.nameBytes <= 33554432
  {
    hide ValidPaths, AreNew, AreAdded, Fresh, FreshBytes, Key, NameBytes;
    AddedCount(lower, s, p, dirs);
  }

  lemma AddedCount(lower: Lower, s: PathState, p: Path, dirs: seq<Path>)
    requires AreNew(lower, s.directories, p, dirs)
    ensures |s.directories + Fresh(lower, dirs, |dirs|).Keys| == |s.directories| + |dirs|
  {
    hide AreNew, Fresh, Key;
    var added := Fresh(lower, dirs, |dirs|).Keys;
    FreshAreAdded(lower, s.directories, p, dirs);
    assert added !! s.directories && |added| == |dirs|;
  }
}
