/**
 * Inline asset references in note text: the pattern `\[(image|file):([^]]+)\]`,
 * the regex scan that finds its leftmost non-overlapping matches, the asset path
 * conversion, which replaces everything up to the last '/' of the path's first
 * line by "assets/", and the substitution that rewrites every reference into
 * `[<converted path>]`.
 */
module AssetRefs {
  import opened Wrappers

  datatype Kind = Image | File

  /** The literal text that opens a reference of the given kind. */
  function Opener(k: Kind): string {
    match k
    case Image => "[image:"
    case File => "[file:"
  }

  /** One match: the captured kind and path, and the span [start, end) of the whole match. */
  datatype Match = Match(kind: Kind, path: string, start: nat, end: nat)

  /** m is a match of the pattern in s: an opener, a non-empty run without ']', then ']'. */
  ghost predicate IsMatch(s: string, m: Match) {
    m.start <= m.end <= |s| &&
    s[m.start..m.end] == Opener(m.kind) + m.path + "]" &&
    |m.path| > 0 && ']' !in m.path
  }

  predicate HasPrefixAt(s: string, i: nat, p: string) {
    i + |p| <= |s| && s[i..i + |p|] == p
  }

  /** The kind whose opener stands at position i, if any. */
  function KindAt(s: string, i: nat): Option<Kind> {
    if HasPrefixAt(s, i, "[image:") then Some(Image)
    else if HasPrefixAt(s, i, "[file:") then Some(File)
    else None
  }

  /** The two openers differ in their second character, so at most one stands at i. */
  lemma KindAtExact(s: string, i: nat, k: Kind)
    requires HasPrefixAt(s, i, Opener(k))
    ensures KindAt(s, i) == Some(k)
  {
    if k == File {
      assert s[i + 1] == Opener(File)[1];
    }
  }

  /** The first ']' at or after position j, if any. */
  function FindClose(s: string, j: nat): (r: Option<nat>)
    requires j <= |s|
    decreases |s| - j
    ensures r.Some? ==> j <= r.value < |s| && s[r.value] == ']' && ']' !in s[j..r.value]
    ensures r.None? ==> ']' !in s[j..]
  {
    if j == |s| then None
    else if s[j] == ']' then Some(j)
    else
      var r := FindClose(s, j + 1);
      assert r.Some? ==> s[j..r.value] == [s[j]] + s[j + 1..r.value];
      assert s[j..] == [s[j]] + s[j + 1..];
      r
  }

  /** The match that the regex finds when tried at position i. */
  function MatchAt(s: string, i: nat): (r: Option<Match>)
    ensures r.Some? ==> r.value.start == i < r.value.end <= |s|
  {
    match KindAt(s, i)
    case None => None
    case Some(k) =>
      var b := i + |Opener(k)|;
      match FindClose(s, b)
      case None => None
      case Some(j) => if j == b then None else Some(Match(k, s[b..j], i, j + 1))
  }

  /** What MatchAt finds is a match of the pattern. */
  lemma MatchAtSound(s: string, i: nat)
    requires MatchAt(s, i).Some?
    ensures IsMatch(s, MatchAt(s, i).value)
  {
    var m := MatchAt(s, i).value;
    var k := m.kind;
    assert KindAt(s, i) == Some(k);
    assert HasPrefixAt(s, i, Opener(k));
    var b := i + |Opener(k)|;
    var j := m.end - 1;
    assert FindClose(s, b) == Some(j);
    assert m.path == s[b..j];
    assert s[i..b] == Opener(k);
    assert s[j..j + 1] == "]";
    assert s[i..j + 1] == s[i..b] + s[b..j] + s[j..j + 1];
  }

  lemma SliceSplit(s: string, a: nat, c: nat, x: string, y: string)
    requires a <= c <= |s| && s[a..c] == x + y
    ensures s[a..a + |x|] == x && s[a + |x|..c] == y
  {
    assert s[a..a + |x|] == s[a..c][..|x|];
    assert s[a + |x|..c] == s[a..c][|x|..];
  }

  lemma FindCloseFirst(s: string, b: nat, e: nat)
    requires b <= e < |s| && s[e] == ']' && ']' !in s[b..e]
    ensures FindClose(s, b) == Some(e)
  {
  }

  /** The converse: every match of the pattern starting at i is the one MatchAt finds. */
  lemma MatchAtComplete(s: string, m: Match)
    requires IsMatch(s, m)
    ensures MatchAt(s, m.start) == Some(m)
  {
    var i, k := m.start, m.kind;
    var b := i + |Opener(k)|;
    var e := m.end - 1;
    SliceSplit(s, i, m.end, Opener(k) + m.path, "]");
    SliceSplit(s, i, e, Opener(k), m.path);
    KindAtExact(s, i, k);
    assert s[e] == s[e..m.end][0];
    FindCloseFirst(s, b, e);
  }

  /** No match of the pattern starts at any position in [a, b). */
  ghost predicate NoMatchIn(s: string, a: nat, b: nat) {
    forall j :: a <= j < b ==> MatchAt(s, j).None?
  }

  /**
   * ms is the result of a left-to-right regex scan of s from position `from`:
   * no match starts before the first element, the first element is the match
   * found at its start, and the rest is the scan resumed at its end.
   */
  ghost predicate IsScanOf(s: string, ms: seq<Match>, from: nat)
    decreases |ms|
  {
    from <= |s| &&
    if ms == [] then NoMatchIn(s, from, |s|)
    else
      from <= ms[0].start && NoMatchIn(s, from, ms[0].start) &&
      MatchAt(s, ms[0].start) == Some(ms[0]) && IsScanOf(s, ms[1..], ms[0].end)
  }

  /**
   * The matches re.findall and re.sub see from position i on: tried left to
   * right, resuming after each match, one character further after each failure.
   */
  function Scan(s: string, i: nat): (ms: seq<Match>)
    requires i <= |s|
    decreases |s| - i
    ensures IsScanOf(s, ms, i)
  {
    if i == |s| then []
    else match MatchAt(s, i)
      case Some(m) =>
        assert ([m] + Scan(s, m.end))[1..] == Scan(s, m.end);
        [m] + Scan(s, m.end)
      case None =>
        var ms := Scan(s, i + 1);
        assert ms != [] ==> NoMatchIn(s, i, ms[0].start) by {
          if ms != [] {
            forall j | i <= j < ms[0].start ensures MatchAt(s, j).None? {
              if j > i { assert i + 1 <= j; }
            }
          }
        }
        assert ms == [] ==> NoMatchIn(s, i, |s|) by {
          if ms == [] {
            forall j | i <= j < |s| ensures MatchAt(s, j).None? {
              if j > i { assert i + 1 <= j; }
            }
          }
        }
        ms
  }

  /** A scan from a position where the pattern matches starts with that match. */
  lemma ScanHead(s: string, ms: seq<Match>, i: nat)
    requires IsScanOf(s, ms, i) && i < |s| && MatchAt(s, i).Some?
    ensures ms != [] && ms[0] == MatchAt(s, i).value && IsScanOf(s, ms[1..], ms[0].end)
  {
    assert !NoMatchIn(s, i, i + 1);
  }

  /** The scan is determined by its specification: any sequence meeting it is Scan's result. */
  lemma {:induction false} ScanUnique(s: string, ms: seq<Match>, i: nat)
    requires IsScanOf(s, ms, i)
    ensures ms == Scan(s, i)
    decreases |s| - i
  {
    if i == |s| {
      ScanAtEnd(s, ms);
    } else if MatchAt(s, i).Some? {
      var m := MatchAt(s, i).value;
      ScanHead(s, ms, i);
      ScanUnique(s, ms[1..], m.end);
      SplitHead(ms);
    } else {
      ScanSkip(s, ms, i);
      ScanUnique(s, ms, i + 1);
    }
  }

  lemma SplitHead(ms: seq<Match>)
    requires ms != []
    ensures ms == [ms[0]] + ms[1..]
  {
  }

  /** Nothing is found at the end of the text. */
  lemma ScanAtEnd(s: string, ms: seq<Match>)
    requires IsScanOf(s, ms, |s|)
    ensures ms == []
  {
  }

  /** A position where the pattern does not match contributes nothing to the scan. */
  lemma ScanSkip(s: string, ms: seq<Match>, i: nat)
    requires IsScanOf(s, ms, i) && i < |s| && MatchAt(s, i).None?
    ensures IsScanOf(s, ms, i + 1)
  {
    if ms != [] {
      assert i != ms[0].start;
    }
  }

  /** Every element of a scan is a genuine match at or after its starting point. */
  lemma {:induction false} ScanElementsAreMatches(s: string, ms: seq<Match>, i: nat, k: nat)
    requires IsScanOf(s, ms, i) && k < |ms|
    ensures IsMatch(s, ms[k]) && i <= ms[k].start < ms[k].end <= |s|
    ensures k + 1 < |ms| ==> ms[k].end <= ms[k + 1].start
    decreases k
  {
    ScanFirst(s, ms, i);
    if k > 0 {
      ScanElementsAreMatches(s, ms[1..], ms[0].end, k - 1);
      assert ms[1..][k - 1] == ms[k];
    }
  }

  /** The first element of a scan is a match, and the rest is the scan from its end. */
  lemma ScanFirst(s: string, ms: seq<Match>, i: nat)
    requires IsScanOf(s, ms, i) && ms != []
    ensures IsMatch(s, ms[0]) && i <= ms[0].start < ms[0].end <= |s|
    ensures IsScanOf(s, ms[1..], ms[0].end)
    ensures |ms| > 1 ==> ms[0].end <= ms[1].start
  {
    MatchAtSound(s, ms[0].start);
    if |ms| > 1 {
      assert ms[1..][0] == ms[1];
    }
  }

  /** All matches in the whole text, in order. */
  function Matches(s: string): seq<Match> {
    Scan(s, 0)
  }

  /** The end of the first line of p: the index of its first '\n', or |p|. */
  function FirstLineEnd(p: string): (n: nat)
    ensures n <= |p| && '\n' !in p[..n] && (n < |p| ==> p[n] == '\n')
  {
    if p == [] then 0
    else if p[0] == '\n' then 0
    else
      var n := FirstLineEnd(p[1..]) + 1;
      assert p[..n] == [p[0]] + p[1..][..n - 1];
      n
  }

  /** The index of the last '/' in p[..n], if any. */
  function LastSlash(p: string, n: nat): (r: Option<nat>)
    requires n <= |p|
    ensures r.Some? ==> r.value < n && p[r.value] == '/' && '/' !in p[r.value + 1..n]
    ensures r.None? ==> '/' !in p[..n]
  {
    if n == 0 then None
    else if p[n - 1] == '/' then Some(n - 1)
    else
      var r := LastSlash(p, n - 1);
      assert r.Some? ==> p[r.value + 1..n] == p[r.value + 1..n - 1] + [p[n - 1]];
      assert p[..n] == p[..n - 1] + [p[n - 1]];
      r
  }

  /**
   * Note.convert_asset_path: the greedy anchored pattern "any characters but
   * '\n', then '/'" matches the prefix of p up to the last '/' of its first
   * line, and that prefix is replaced by "assets/"; a path with no '/' on its
   * first line matches nowhere and comes back unchanged.
   */
  function ConvertAssetPath(p: string): (r: string)
    ensures |r| <= |p| + 6
  {
    match LastSlash(p, FirstLineEnd(p))
    case None => p
    case Some(k) => "assets/" + p[k + 1..]
  }

  /** k is the last '/' on the first line of p. */
  ghost predicate IsLastDirSlash(p: string, k: nat) {
    k < FirstLineEnd(p) && p[k] == '/' && '/' !in p[k + 1..FirstLineEnd(p)]
  }

  lemma {:induction false} LastSlashIs(p: string, n: nat, k: nat)
    requires k < n <= |p| && p[k] == '/' && '/' !in p[k + 1..n]
    ensures LastSlash(p, n) == Some(k)
  {
    if k < n - 1 {
      assert p[n - 1] == p[k + 1..n][n - 2 - k];
      assert p[k + 1..n - 1] == p[k + 1..n][..n - 2 - k];
      LastSlashIs(p, n - 1, k);
    }
  }

  lemma FirstLineWhole(p: string)
    requires '\n' !in p
    ensures FirstLineEnd(p) == |p|
  {
  }

  /** A path with a '/' on its first line: "assets/" and everything after the last such '/'. */
  lemma ConvertStripsDirectories(p: string, k: nat)
    requires IsLastDirSlash(p, k)
    ensures ConvertAssetPath(p) == "assets/" + p[k + 1..]
  {
    LastSlashIs(p, FirstLineEnd(p), k);
  }

  /** A path without '/' on its first line is returned unchanged, with no "assets/" prefix. */
  lemma ConvertKeepsPlainNames(p: string)
    requires '/' !in p[..FirstLineEnd(p)]
    ensures ConvertAssetPath(p) == p
  {
  }

  /** What Note.text_with_converted_asset_paths replaces a match by: the kind tag is dropped and the path converted. */
  function Replacement(m: Match): string {
    "[" + ConvertAssetPath(m.path) + "]"
  }

  /**
   * re.sub with a replacement function, from position i: left to right, each
   * match is replaced by repl of it and every character outside a match is copied.
   */
  function SubFrom(s: string, i: nat, repl: Match -> string): string
    requires i <= |s|
    decreases |s| - i
  {
    if i == |s| then []
    else match MatchAt(s, i)
      case Some(m) => repl(m) + SubFrom(s, m.end, repl)
      case None => [s[i]] + SubFrom(s, i + 1, repl)
  }

  /** Note.text_with_converted_asset_paths. */
  function TextWithConvertedAssetPaths(s: string): string {
    SubFrom(s, 0, Replacement)
  }

  /** Spans that lie in order, without overlap, in s[from..]. */
  ghost predicate Ordered(s: string, ms: seq<Match>, from: nat)
    decreases |ms|
  {
    from <= |s| &&
    (ms != [] ==> from <= ms[0].start <= ms[0].end <= |s| && Ordered(s, ms[1..], ms[0].end))
  }

  lemma {:induction false} ScanIsOrdered(s: string, ms: seq<Match>, i: nat)
    requires IsScanOf(s, ms, i)
    ensures Ordered(s, ms, i)
    decreases |ms|
  {
    if ms != [] {
      ScanIsOrdered(s, ms[1..], ms[0].end);
    }
  }

  /**
   * The text s[from..] with each of the given spans replaced by repl of it: the
   * text before, between and after them is copied as it stands.
   */
  ghost function Splice(s: string, ms: seq<Match>, from: nat, repl: Match -> string): string
    requires Ordered(s, ms, from)
    decreases |ms|
  {
    if ms == [] then s[from..]
    else s[from..ms[0].start] + repl(ms[0]) + Splice(s, ms[1..], ms[0].end, repl)
  }

  lemma SpliceStep(s: string, ms: seq<Match>, i: nat, repl: Match -> string)
    requires i < |s| && Ordered(s, ms, i + 1)
    ensures Ordered(s, ms, i) && Splice(s, ms, i, repl) == [s[i]] + Splice(s, ms, i + 1, repl)
  {
    assert Ordered(s, ms, i);
    if ms == [] {
      assert s[i..] == [s[i]] + s[i + 1..];
    } else {
      var a, r := s[i + 1..ms[0].start], repl(ms[0]);
      var t := Splice(s, ms[1..], ms[0].end, repl);
      assert s[i..ms[0].start] == [s[i]] + a;
      calc {
        Splice(s, ms, i, repl);
        ([s[i]] + a) + r + t;
        [s[i]] + (a + r + t);
        [s[i]] + Splice(s, ms, i + 1, repl);
      }
    }
  }

  /**
   * The streaming substitution equals the segment-wise replacement of the scanned
   * matches: every match is replaced and all other text is copied.
   */
  lemma {:induction false} SubIsSplice(s: string, i: nat, repl: Match -> string)
    requires i <= |s|
    ensures Ordered(s, Scan(s, i), i)
    ensures SubFrom(s, i, repl) == Splice(s, Scan(s, i), i, repl)
    decreases |s| - i
  {
    ScanIsOrdered(s, Scan(s, i), i);
    if i < |s| {
      match MatchAt(s, i)
      case Some(m) =>
        SubIsSplice(s, m.end, repl);
        var ms := Scan(s, i);
        assert ms[1..] == Scan(s, m.end);
        assert s[i..m.start] == [];
      case None =>
        SubIsSplice(s, i + 1, repl);
        SpliceStep(s, Scan(s, i + 1), i, repl);
    }
  }

  /**
   * The rewritten text is the original with each match replaced by
   * `[<converted path>]` and the text around the matches copied verbatim.
   */
  lemma RewriteIsSplice(s: string)
    ensures Ordered(s, Matches(s), 0)
    ensures TextWithConvertedAssetPaths(s) == Splice(s, Matches(s), 0, Replacement)
  {
    SubIsSplice(s, 0, Replacement);
  }

  /** A text without any asset reference is returned unchanged. */
  lemma NoMatchUnchanged(s: string)
    requires Matches(s) == []
    ensures TextWithConvertedAssetPaths(s) == s
  {
    SubIsSplice(s, 0, Replacement);
  }

  /** A single reference becomes `[<converted path>]`: the kind prefix is dropped. */
  lemma SingleReference(k: Kind, p: string)
    requires |p| > 0 && ']' !in p
    ensures TextWithConvertedAssetPaths(Opener(k) + p + "]") == "[" + ConvertAssetPath(p) + "]"
  {
    var s := Opener(k) + p + "]";
    var m := Match(k, p, 0, |s|);
    assert s[0..|s|] == s;
    MatchAtComplete(s, m);
    assert SubFrom(s, |s|, Replacement) == [];
  }

  /** A one-line path: the directory part and its '/' are replaced by "assets/". */
  lemma ConvertOneLinePath(dir: string, base: string)
    requires '\n' !in dir && '\n' !in base && '/' !in base
    ensures ConvertAssetPath(dir + "/" + base) == "assets/" + base
  {
    var p := dir + "/" + base;
    assert forall j :: 0 <= j < |p| ==> p[j] == (if j < |dir| then dir[j] else if j == |dir| then '/' else base[j - |dir| - 1]);
    FirstLineWhole(p);
    assert p[|dir| + 1..] == base;
    ConvertStripsDirectories(p, |dir|);
  }

  /**
   * A reference to a file in a subdirectory becomes `[assets/<base name>]`: the
   * kind tag and every directory component are dropped.
   */
  lemma ReferenceLosesDirectories(k: Kind, dir: string, base: string)
    requires '\n' !in dir && '\n' !in base && '/' !in base
    requires ']' !in dir && ']' !in base
    ensures TextWithConvertedAssetPaths(Opener(k) + (dir + "/" + base) + "]") == "[" + ("assets/" + base) + "]"
  {
    ConvertOneLinePath(dir, base);
    SingleReference(k, dir + "/" + base);
  }

  /** Facts about the literal parts of the subdirectory example, kept apart so
      that the example itself only chains them. */
  lemma ExampleParts(dir: string, base: string)
    requires dir == "sub/dir" && base == "name.png"
    ensures '\n' !in dir && ']' !in dir && '\n' !in base && '/' !in base && ']' !in base
    ensures "[image:sub/dir/name.png]" == Opener(Image) + (dir + "/" + base) + "]"
    ensures "[" + ("assets/" + base) + "]" == "[assets/name.png]"
  {
  }

  /** A reference into a subdirectory: `[image:sub/dir/name.png]` becomes `[assets/name.png]`. */
  lemma SubdirectoryImageExample()
    ensures TextWithConvertedAssetPaths("[image:sub/dir/name.png]") == "[assets/name.png]"
  {
    var dir, base := "sub/dir", "name.png";
    ExampleParts(dir, base);
    ReferenceLosesDirectories(Image, dir, base);
  }
}
