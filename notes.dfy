/**
 * Note records as the database hands them over, the live-note filter of
 * BearDb.all_notes, Note.last_modified, and Note.asset_filenames: the set of
 * source paths of the assets a note's text references.
 */
module Notes {
  import opened Wrappers
  import opened Paths
  import opened AssetRefs

  /** One ZSFNOTE row: primary key, title, text, modification time in seconds since 2001-01-01, and the trashed flag (None for SQL NULL). */
  datatype Note = Note(pk: int, title: string, text: string, modDate: int, trashed: Option<int>)

  /**
   * The condition `ZTRASHED != 1`: under SQL's three-valued logic a NULL flag
   * makes the comparison unknown, so such a row is not selected either.
   */
  predicate IsLive(n: Note) {
    n.trashed.Some? && n.trashed.value != 1
  }

  /**
   * BearDb.all_notes over the rows of the table, in the order the query
   * returns them: exactly the live rows, as often as they occur, in order.
   */
  function LiveNotes(rows: seq<Note>): (live: seq<Note>)
    ensures |live| <= |rows|
    ensures forall n :: n in live <==> n in rows && IsLive(n)
  {
    if rows == [] then []
    else if IsLive(rows[0]) then [rows[0]] + LiveNotes(rows[1..])
    else LiveNotes(rows[1..])
  }

  /** Each live row is kept as often as it occurs, and no other row is kept. */
  lemma {:induction false} LiveNotesCount(rows: seq<Note>)
    ensures forall n :: multiset(LiveNotes(rows))[n] == if IsLive(n) then multiset(rows)[n] else 0
    decreases |rows|
  {
    if rows != [] {
      assert rows == [rows[0]] + rows[1..];
      LiveNotesCount(rows[1..]);
    }
  }

  /** The filter keeps the order of the rows: it works on each part of a split separately. */
  lemma {:induction false} LiveNotesAppend(a: seq<Note>, b: seq<Note>)
    ensures LiveNotes(a + b) == LiveNotes(a) + LiveNotes(b)
    decreases |a|
  {
    if a == [] {
      assert a + b == b;
    } else {
      var s := a + b;
      assert s[0] == a[0] && s[1..] == a[1..] + b;
      LiveNotesAppend(a[1..], b);
      var h := if IsLive(a[0]) then [a[0]] else [];
      assert LiveNotes(s) == h + LiveNotes(s[1..]);
      assert LiveNotes(a) == h + LiveNotes(a[1..]);
      AppendAssociative(h, LiveNotes(a[1..]), LiveNotes(b));
    }
  }

  /** A single row is kept exactly when it is live. */
  lemma LiveNotesSingle(n: Note)
    ensures LiveNotes([n]) == if IsLive(n) then [n] else []
  {
    assert [n][1..] == [];
  }

  /** Seconds between the Unix epoch and 2001-01-01 00:00:00 UTC, the epoch of the note database. */
  const AppleEpoch: int := 978307200

  /**
   * The offset is the 31 years 1970 to 2000 of 365 days each, plus one day
   * for each of the 8 leap years 1972, 1976, ..., 1996 and 2000, in seconds.
   */
  lemma AppleEpochDerived()
    ensures AppleEpoch == (31 * 365 + 8) * 86400
  {
  }

  /** Note.last_modified, as Unix seconds. */
  function LastModified(n: Note): (t: int)
    ensures t - AppleEpoch == n.modDate
  {
    n.modDate + AppleEpoch
  }

  /** Shifting both times by the same epoch keeps their order, so comparisons can be made in either scale. */
  lemma LastModifiedOrder(a: Note, b: Note)
    ensures LastModified(a) <= LastModified(b) <==> a.modDate <= b.modDate
    ensures LastModified(a) == LastModified(b) <==> a.modDate == b.modDate
  {
  }

  /** The two directories assets live in: `imagepath` and `filepath`. */
  datatype Config = Config(imageRoot: string, fileRoot: string)

  /** The roots below the application's local-files directory. */
  function ConfigFor(assetRoot: string): (cfg: Config)
    requires assetRoot != [] && !EndsWith(assetRoot, "/")
    ensures cfg.imageRoot == assetRoot + "/" + "Note Images"
    ensures cfg.fileRoot == assetRoot + "/" + "Note Files"
  {
    var images, files := "Note Images", "Note Files";
    assert images[0] != '/' && files[0] != '/';
    Config(Join(assetRoot, images), Join(assetRoot, files))
  }

  /** The directory references of the given kind are resolved against. */
  function RootFor(cfg: Config, k: Kind): string {
    match k
    case Image => cfg.imageRoot
    case File => cfg.fileRoot
  }

  /** The source path of one reference: its path, as written, joined to its kind's root. */
  function SourcePath(cfg: Config, m: Match): string {
    Join(RootFor(cfg, m.kind), m.path)
  }

  /**
   * A relative path lands below its kind's root (file references under the
   * file root, image references under the image root); an absolute one is
   * taken as it stands.
   */
  lemma SourcePathUnderRoot(cfg: Config, m: Match)
    ensures !StartsWith(m.path, "/") ==>
      StartsWith(SourcePath(cfg, m), RootFor(cfg, m.kind)) && EndsWith(SourcePath(cfg, m), m.path)
    ensures StartsWith(m.path, "/") ==> SourcePath(cfg, m) == m.path
  {
  }

  /** SourcePath for a fixed configuration, as a function value. */
  function SourceOf(cfg: Config): Match -> string {
    m => SourcePath(cfg, m)
  }

  /** The images under f of the elements of ms, collected into a set. */
  function Collect(f: Match -> string, ms: seq<Match>): set<string>
    decreases |ms|
  {
    if ms == [] then {} else Collect(f, ms[..|ms| - 1]) + {f(ms[|ms| - 1])}
  }

  /** The set Note.asset_filenames returns. */
  function AssetSources(cfg: Config, text: string): set<string> {
    Collect(SourceOf(cfg), Matches(text))
  }

  /** Note.asset_filenames: every reference the scanner finds adds its source path to a set. */
  method AssetFilenames(cfg: Config, text: string) returns (filenames: set<string>)
    ensures filenames == AssetSources(cfg, text)
  {
    var ms := Matches(text);
    filenames := {};
    var i := 0;
    while i < |ms|
      invariant 0 <= i <= |ms|
      invariant filenames == Collect(SourceOf(cfg), ms[..i])
    {
      var m := ms[i];
      match m.kind {
        case File =>
          filenames := filenames + {Join(cfg.fileRoot, m.path)};
        case Image =>
          filenames := filenames + {Join(cfg.imageRoot, m.path)};
      }
      assert filenames == Collect(SourceOf(cfg), ms[..i]) + {SourceOf(cfg)(m)};
      assert ms[..i + 1][..i] == ms[..i];
      i := i + 1;
    }
    assert ms[..i] == ms;
  }

  /** The image of each element is collected. */
  lemma {:induction false} CollectHas(f: Match -> string, ms: seq<Match>, k: nat)
    requires k < |ms|
    ensures f(ms[k]) in Collect(f, ms)
    decreases |ms|
  {
    var n := |ms| - 1;
    if k < n {
      CollectHas(f, ms[..n], k);
      assert ms[..n][k] == ms[k];
    }
  }

  /** Everything collected is the image of some element. */
  lemma {:induction false} CollectFrom(f: Match -> string, ms: seq<Match>, x: string)
    requires x in Collect(f, ms)
    ensures exists k :: 0 <= k < |ms| && x == f(ms[k])
    decreases |ms|
  {
    var n := |ms| - 1;
    if x != f(ms[n]) {
      var pre := ms[..n];
      CollectFrom(f, pre, x);
      var k :| 0 <= k < |pre| && x == f(pre[k]);
      assert ms[k] == pre[k];
    }
  }

  /** x is collected exactly when it is the image of some element of ms. */
  lemma CollectMembers(f: Match -> string, ms: seq<Match>, x: string)
    ensures x in Collect(f, ms) <==> exists k :: 0 <= k < |ms| && x == f(ms[k])
  {
    if x in Collect(f, ms) {
      CollectFrom(f, ms, x);
    }
    if exists k :: 0 <= k < |ms| && x == f(ms[k]) {
      var k :| 0 <= k < |ms| && x == f(ms[k]);
      CollectHas(f, ms, k);
    }
  }

  /**
   * Every source path comes from a genuine reference in the text, a match of
   * the pattern whose path is joined to the root of its kind, and every
   * reference the scanner finds contributes its path.
   */
  lemma AssetSourcesAreReferences(cfg: Config, text: string, x: string)
    ensures x in AssetSources(cfg, text) <==>
      exists k :: 0 <= k < |Matches(text)| && x == Join(RootFor(cfg, Matches(text)[k].kind), Matches(text)[k].path)
    ensures forall k :: 0 <= k < |Matches(text)| ==> IsMatch(text, Matches(text)[k])
  {
    var ms := Matches(text);
    CollectMembers(SourceOf(cfg), ms, x);
    forall k | 0 <= k < |ms| ensures IsMatch(text, ms[k]) {
      ScanElementsAreMatches(text, ms, 0, k);
    }
  }

  /** At most one new element per element of ms. */
  lemma {:induction false} CollectCard(f: Match -> string, ms: seq<Match>)
    ensures |Collect(f, ms)| <= |ms|
    decreases |ms|
  {
    if ms != [] {
      CollectCard(f, ms[..|ms| - 1]);
    }
  }

  /** Two elements with the same image make the set strictly smaller than the sequence. */
  lemma {:induction false} CollectCardStrict(f: Match -> string, ms: seq<Match>, i: nat, j: nat)
    requires i < j < |ms| && f(ms[i]) == f(ms[j])
    ensures |Collect(f, ms)| < |ms|
    decreases |ms|
  {
    var n := |ms| - 1;
    var pre := ms[..n];
    if j == n {
      assert pre[i] == ms[i];
      CollectMembers(f, pre, f(ms[j]));
      CollectCard(f, pre);
    } else {
      assert pre[i] == ms[i] && pre[j] == ms[j];
      CollectCardStrict(f, pre, i, j);
    }
  }

  /** There are never more asset sources than references found in the text. */
  lemma AssetSourcesBound(cfg: Config, text: string)
    ensures |AssetSources(cfg, text)| <= |Matches(text)|
  {
    CollectCard(SourceOf(cfg), Matches(text));
  }

  /** Two references that resolve to the same source give one element. */
  lemma DuplicateReferencesCollapse(cfg: Config, text: string, i: nat, j: nat)
    requires i < j < |Matches(text)|
    requires Matches(text)[i].kind == Matches(text)[j].kind && Matches(text)[i].path == Matches(text)[j].path
    ensures |AssetSources(cfg, text)| < |Matches(text)|
  {
    CollectCardStrict(SourceOf(cfg), Matches(text), i, j);
  }
}
