/**
 * Note.zip_note: the entries a note's `.bearnote` archive receives, in the
 * order they are written. The archive is an object whose entry list grows by
 * one entry per write; the ZIP format and compression are not part of it.
 */
module Archive {
  import opened Wrappers
  import opened Paths
  import opened AssetRefs
  import opened Filenames
  import opened Notes

  /** What an entry holds: a string written directly, or the bytes of a file on disk. */
  datatype Content = Text(data: string) | Copy(source: string)

  datatype Entry = Entry(name: string, content: Content)

  /** json.dumps of a string holding no character that needs escaping. */
  function JsonString(v: string): string {
    "\"" + v + "\""
  }

  /** json.dumps of a dictionary of such strings, in insertion order, with the default separators ", " and ": ". */
  function JsonObject(members: seq<(string, string)>): string {
    "{" + JsonMembers(members) + "}"
  }

  function JsonMembers(members: seq<(string, string)>): string
    decreases |members|
  {
    if members == [] then []
    else
      var m := JsonString(members[0].0) + ": " + JsonString(members[0].1);
      if |members| == 1 then m else m + ", " + JsonMembers(members[1..])
  }

  /** The info.json text, `{"type": "public.plain-text", "version": "2"}`. */
  const InfoJson: string := JsonObject([("type", "public.plain-text"), ("version", "2")])

  /** An open zipfile.ZipFile in write mode. */
  class ZipArchive {
    const path: string
    var entries: seq<Entry>

    constructor (path: string)
      ensures this.path == path && entries == []
    {
      this.path := path;
      entries := [];
    }

    /** ZipFile.writestr. */
    method WriteStr(name: string, data: string)
      modifies this
      ensures entries == old(entries) + [Entry(name, Text(data))]
    {
      entries := entries + [Entry(name, Text(data))];
    }

    /**
     * ZipFile.write: copies the file `source` into the entry `arcname`. A
     * source that is not on disk makes it fail before anything is added.
     */
    method Write(source: string, arcname: string, onDisk: set<string>) returns (ok: bool)
      modifies this
      ensures ok <==> source in onDisk
      ensures entries == if ok then old(entries) + [Entry(arcname, Copy(source))] else old(entries)
    {
      ok := source in onDisk;
      if ok {
        entries := entries + [Entry(arcname, Copy(source))];
      }
    }
  }

  /** The two entries every archive starts with: info.json, then the rewritten text. */
  function Header(path: string, text: string): seq<Entry> {
    [Entry(Join(path, "info.json"), Text(InfoJson)),
     Entry(Join(path, "text.txt"), Text(TextWithConvertedAssetPaths(text)))]
  }

  /**
   * The entry for one asset. The loop variable of zip_note shadows the
   * archive name, so the entry is named after the source path itself:
   * join(source, convert_asset_path(source)).
   */
  function AssetEntry(src: string): Entry {
    Entry(Join(src, ConvertAssetPath(src)), Copy(src))
  }

  /** AssetEntry as a function value. */
  function AssetEntryOf(): string -> Entry {
    src => AssetEntry(src)
  }

  /** The images under f of the sources, in order. */
  function EntriesOf(f: string -> Entry, order: seq<string>): (es: seq<Entry>)
    ensures |es| == |order|
  {
    if order == [] then [] else [f(order[0])] + EntriesOf(f, order[1..])
  }

  lemma {:induction false} EntriesOfAt(f: string -> Entry, order: seq<string>, i: nat)
    requires i < |order|
    ensures EntriesOf(f, order)[i] == f(order[i])
    decreases |order|
  {
    if i > 0 {
      EntriesOfAt(f, order[1..], i - 1);
    }
  }

  lemma EntriesOfAppend(f: string -> Entry, order: seq<string>, src: string)
    ensures EntriesOf(f, order + [src]) == EntriesOf(f, order) + [f(src)]
  {
    var a, b := EntriesOf(f, order + [src]), EntriesOf(f, order) + [f(src)];
    assert |a| == |b|;
    forall i | 0 <= i < |a| ensures a[i] == b[i] {
      EntriesOfAt(f, order + [src], i);
      if i < |order| {
        EntriesOfAt(f, order, i);
        assert (order + [src])[i] == order[i];
      }
    }
  }

  /** The asset entries, one per source, in visiting order. */
  function AssetEntries(order: seq<string>): (es: seq<Entry>)
    ensures |es| == |order|
  {
    EntriesOf(AssetEntryOf(), order)
  }

  /** The i-th asset entry is the entry of the i-th source visited. */
  lemma AssetEntriesAt(order: seq<string>, i: nat)
    requires i < |order|
    ensures AssetEntries(order)[i] == AssetEntry(order[i])
  {
    EntriesOfAt(AssetEntryOf(), order, i);
  }

  /** Visiting one more source adds its entry at the end. */
  lemma AssetEntriesAppend(order: seq<string>, src: string)
    ensures AssetEntries(order + [src]) == AssetEntries(order) + [AssetEntry(src)]
  {
    EntriesOfAppend(AssetEntryOf(), order, src);
  }

  /** The entries of an archive whose assets were visited in the given order. */
  function ArchiveEntries(path: string, text: string, order: seq<string>): seq<Entry> {
    Header(path, text) + AssetEntries(order)
  }

  predicate Distinct(s: seq<string>) {
    forall i, j :: 0 <= i < j < |s| ==> s[i] != s[j]
  }

  datatype ZipError = BadName(PathError) | MissingAsset(path: string)

  /** One write of the asset loop: the source under the name AssetEntry gives it. */
  method WriteAsset(archive: ZipArchive, src: string, onDisk: set<string>) returns (ok: bool)
    modifies archive
    ensures ok <==> src in onDisk
    ensures archive.entries == if ok then old(archive.entries) + [AssetEntry(src)] else old(archive.entries)
  {
    ok := archive.Write(src, Join(src, ConvertAssetPath(src)), onDisk);
  }

  /**
   * The asset loop of zip_note: each source of the set, taken in an arbitrary
   * order, is copied into the archive until one is missing from disk.
   */
  method WriteAssets(archive: ZipArchive, assets: set<string>, onDisk: set<string>)
    returns (order: seq<string>, missing: Option<string>)
    modifies archive
    ensures archive.entries == old(archive.entries) + AssetEntries(order)
    ensures Distinct(order) && forall x :: x in order ==> x in assets && x in onDisk
    ensures missing.None? <==> assets <= onDisk
    ensures missing.None? ==> |order| == |assets| && forall x :: x in assets ==> x in order
    ensures missing.Some? ==> missing.value in assets && missing.value !in onDisk
  {
    var remaining := assets;
    order, missing := [], None;
    while remaining != {} && missing.None?
      invariant Visiting(assets, remaining, order, onDisk)
      invariant missing.Some? ==> missing.value in assets && missing.value !in onDisk
      invariant archive.entries == old(archive.entries) + AssetEntries(order)
      decreases |remaining|, missing.None?
    {
      var src :| src in remaining;
      var ok := WriteAsset(archive, src, onDisk);
      if ok {
        AssetEntriesAppend(order, src);
        VisitOne(assets, remaining, order, onDisk, src);
        order := order + [src];
        remaining := remaining - {src};
      } else {
        missing := Some(src);
      }
    }
    VisitEnd(assets, remaining, order, onDisk, missing);
  }

  /**
   * The state of the asset loop: the sources seen so far, each once and each
   * on disk, and those still to visit, together make up the whole set.
   */
  ghost predicate Visiting(assets: set<string>, remaining: set<string>, order: seq<string>, onDisk: set<string>) {
    remaining <= assets &&
    (forall x :: x in assets <==> x in remaining || x in order) &&
    (forall x :: x in order ==> x !in remaining && x in onDisk) &&
    Distinct(order) && |order| + |remaining| == |assets|
  }

  /** When the loop stops, either every source was written or the one it stopped at is missing. */
  lemma VisitEnd(assets: set<string>, remaining: set<string>, order: seq<string>, onDisk: set<string>, missing: Option<string>)
    requires Visiting(assets, remaining, order, onDisk)
    requires missing.Some? ==> missing.value in assets && missing.value !in onDisk
    requires remaining == {} || missing.Some?
    ensures Distinct(order) && forall x :: x in order ==> x in assets && x in onDisk
    ensures missing.None? <==> assets <= onDisk
    ensures missing.None? ==> |order| == |assets| && forall x :: x in assets ==> x in order
  {
  }

  lemma VisitOne(assets: set<string>, remaining: set<string>, order: seq<string>, onDisk: set<string>, src: string)
    requires Visiting(assets, remaining, order, onDisk) && src in remaining && src in onDisk
    ensures Visiting(assets, remaining - {src}, order + [src], onDisk)
  {
    DistinctAppend(order, src);
  }

  lemma DistinctAppend(s: seq<string>, x: string)
    requires Distinct(s) && x !in s
    ensures Distinct(s + [x])
  {
    var t := s + [x];
    forall i, j | 0 <= i < j < |t| ensures t[i] != t[j] {
      assert t[i] == s[i];
    }
  }

  /**
   * Note.zip_note. The archive is named after the note's title; it receives
   * info.json and text.txt, then one entry per asset source, visited in the
   * arbitrary order of a set (returned as `order`). An empty title fails
   * before the archive is opened; a missing asset file stops the writes,
   * leaving the archive with what it has so far.
   */
  method ZipNote(note: Note, cfg: Config, onDisk: set<string>)
    returns (archive: ZipArchive?, order: seq<string>, err: Option<ZipError>)
    ensures archive == null <==> note.title == []
    ensures archive == null ==> err == Some(BadName(EmptyName))
    ensures archive != null ==> fresh(archive) && FullFilename(note.title) == Ok(archive.path)
    ensures archive != null ==> archive.entries == ArchiveEntries(archive.path, note.text, order)
    ensures archive != null ==>
      Distinct(order) && forall x :: x in order ==> x in AssetSources(cfg, note.text) && x in onDisk
    ensures archive != null ==> (err.None? <==> AssetSources(cfg, note.text) <= onDisk)
    ensures archive != null && err.None? ==>
      |order| == |AssetSources(cfg, note.text)| && forall x :: x in AssetSources(cfg, note.text) ==> x in order
    ensures archive != null && err.Some? ==>
      err.value.MissingAsset? && err.value.path in AssetSources(cfg, note.text) && err.value.path !in onDisk
  {
    FullFilenameIs(note.title);
    var name := FullFilename(note.title);
    if name.Err? {
      return null, [], Some(BadName(name.error));
    }
    archive := new ZipArchive(name.value);
    archive.WriteStr(Join(name.value, "info.json"), InfoJson);
    archive.WriteStr(Join(name.value, "text.txt"), TextWithConvertedAssetPaths(note.text));
    assert archive.entries == Header(archive.path, note.text);
    var assets := AssetFilenames(cfg, note.text);
    var missing;
    order, missing := WriteAssets(archive, assets, onDisk);
    err := if missing.None? then None else Some(MissingAsset(missing.value));
  }

  /**
   * The layout of an archive named by full_filename: info.json with the
   * fixed JSON first, the rewritten text second, then one entry per asset in
   * visiting order, and nothing else.
   */
  lemma ArchiveLayout(path: string, text: string, order: seq<string>)
    requires path != [] && !EndsWith(path, "/")
    ensures |ArchiveEntries(path, text, order)| == 2 + |order|
    ensures ArchiveEntries(path, text, order)[0] == Entry(path + "/" + "info.json", Text(InfoJson))
    ensures ArchiveEntries(path, text, order)[1] == Entry(path + "/" + "text.txt", Text(TextWithConvertedAssetPaths(text)))
    ensures forall i :: 0 <= i < |order| ==> ArchiveEntries(path, text, order)[2 + i] == AssetEntry(order[i])
  {
    HeaderNames(path, text);
    AssetPart(path, text, order);
  }

  lemma AssetPart(path: string, text: string, order: seq<string>)
    ensures |ArchiveEntries(path, text, order)| == 2 + |order|
    ensures ArchiveEntries(path, text, order)[..2] == Header(path, text)
    ensures forall i :: 0 <= i < |order| ==> ArchiveEntries(path, text, order)[2 + i] == AssetEntry(order[i])
  {
    forall i | 0 <= i < |order| ensures ArchiveEntries(path, text, order)[2 + i] == AssetEntry(order[i]) {
      AssetEntriesAt(order, i);
    }
  }

  /** With a directory name that does not end in '/', both header entries lie directly below it. */
  lemma HeaderNames(path: string, text: string)
    requires path != [] && !EndsWith(path, "/")
    ensures Header(path, text) ==
      [Entry(path + "/" + "info.json", Text(InfoJson)), Entry(path + "/" + "text.txt", Text(TextWithConvertedAssetPaths(text)))]
  {
    var info, text := "info.json", "text.txt";
    assert info[0] != '/' && text[0] != '/';
  }

  /** The name full_filename produces is a valid archive directory for ArchiveLayout. */
  lemma FullFilenameIsDirectoryName(title: string)
    requires FullFilename(title).Ok?
    ensures FullFilename(title).value != [] && !EndsWith(FullFilename(title).value, "/")
  {
    FullFilenameGlobbable(title);
    var r := FullFilename(title).value;
    assert r[|r| - 1] == ".bearnote"[8];
  }

  /** Visiting each asset source once gives two entries more than there are sources. */
  lemma ArchiveEntryCount(path: string, text: string, order: seq<string>, assets: set<string>)
    requires Distinct(order) && forall x :: x in assets <==> x in order
    ensures |ArchiveEntries(path, text, order)| == 2 + |assets|
  {
    DistinctCard(order, assets);
  }

  lemma {:induction false} DistinctCard(order: seq<string>, assets: set<string>)
    requires Distinct(order) && forall x :: x in assets <==> x in order
    ensures |order| == |assets|
    decreases |order|
  {
    if order != [] {
      var rest := order[1..];
      assert forall x :: x in assets - {order[0]} <==> x in rest by {
        forall x ensures x in assets - {order[0]} <==> x in rest {
          if x in rest {
            var k :| 0 <= k < |rest| && rest[k] == x;
            assert order[k + 1] == x;
          }
          if x in assets - {order[0]} {
            var k :| 0 <= k < |order| && order[k] == x;
            assert k > 0 && rest[k - 1] == x;
          }
        }
      }
      DistinctCard(rest, assets - {order[0]});
    } else {
      assert forall x :: x !in assets;
      assert assets == {};
    }
  }

  /**
   * Where an asset entry lands: under the source path itself, not under the
   * archive's directory. A source whose first line contains '/' ends up as
   * <source>/assets/<part after the last '/'>.
   */
  lemma AssetArcnameUnderSource(src: string, k: nat)
    requires '\n' !in src && k + 1 < |src| && src[k] == '/' && '/' !in src[k + 1..]
    ensures AssetEntry(src).name == src + "/" + ("assets/" + src[k + 1..])
    ensures StartsWith(AssetEntry(src).name, src + "/")
  {
    FirstLineWhole(src);
    ConvertStripsDirectories(src, k);
    var c := "assets/" + src[k + 1..];
    assert c[0] == 'a';
    assert src[|src| - 1] == src[k + 1..][|src| - k - 2];
    assert !EndsWith(src, "/");
    var r := src + "/" + c;
    assert r[..|src| + 1] == src + "/";
  }
}
