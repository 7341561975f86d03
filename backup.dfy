/**
 * The backup driver: the staleness check Note.existing_file_is_newer, the
 * per-note skip / report / archive decision of the main loop, and the
 * optional removal of archives whose notes are gone. The destination
 * directory is an object holding a map from file name to modification time;
 * the archive writes and deletions change that map.
 */
module Backup {
  import opened Wrappers
  import opened Paths
  import opened AssetRefs
  import opened Filenames
  import opened Notes
  import opened Archive

  /**
   * Note.existing_file_is_newer against a directory listing: false when no
   * archive of that name exists, false when the archive is older than the
   * note, true otherwise. An empty title makes full_filename fail.
   */
  function ExistingFileIsNewer(files: map<string, int>, n: Note): (r: Result<bool, PathError>)
    ensures r.Err? <==> n.title == []
    ensures r.Ok? ==>
      FullFilename(n.title).Ok? &&
      (r.value <==> FullFilename(n.title).value in files && files[FullFilename(n.title).value] >= LastModified(n))
  {
    FullFilenameIs(n.title);
    match FullFilename(n.title)
    case Err(e) => Err(e)
    case Ok(name) =>
      if name !in files then Ok(false)
      else if files[name] < LastModified(n) then Ok(false)
      else Ok(true)
  }

  /** An archive modified at the same second as its note counts as up to date. */
  lemma EqualTimesAreUpToDate(files: map<string, int>, n: Note)
    requires n.title != []
    requires FullFilename(n.title).Ok? && FullFilename(n.title).value in files
    requires files[FullFilename(n.title).value] == LastModified(n)
    ensures ExistingFileIsNewer(files, n) == Ok(true)
  {
  }

  /** The command-line switches that shape the loop: --force and --dry-run. */
  datatype Options = Options(force: bool, dryRun: bool)

  /** Why a run stops early: a ValueError from with_suffix, or a FileNotFoundError from zip_file.write. */
  datatype Crash = EmptyTitle | AssetMissing

  /** What the loop does with one note: leave it, only say it would back it up, or write its archive. */
  datatype Action = Skip | Report | Write

  /** The decision the main loop makes for one note. */
  function Decide(files: map<string, int>, n: Note, opts: Options): Result<Action, Crash> {
    if !opts.force && ExistingFileIsNewer(files, n).Err? then Err(EmptyTitle)
    else if !opts.force && ExistingFileIsNewer(files, n).value then Ok(Skip)
    else if opts.dryRun then Ok(Report)
    else Ok(Write)
  }

  /**
   * A note is taken up exactly when --force is given or its archive is not
   * newer; under --dry-run it is only reported, otherwise written.
   */
  lemma DecideSelects(files: map<string, int>, n: Note, opts: Options)
    requires opts.force || n.title != []
    ensures Decide(files, n, opts).Ok?
    ensures Decide(files, n, opts).value != Skip <==> opts.force || ExistingFileIsNewer(files, n) == Ok(false)
    ensures Decide(files, n, opts).value == Write <==> Decide(files, n, opts).value != Skip && !opts.dryRun
  {
  }

  /** The only way the decision fails: no --force and an empty title. */
  lemma DecideFails(files: map<string, int>, n: Note, opts: Options)
    ensures Decide(files, n, opts).Err? <==> !opts.force && n.title == []
  {
  }

  /**
   * The state after some notes: the directory listing, the sanitised names of
   * the notes taken up (reported or written) in order, and the crash, if any.
   */
  datatype Outcome = Outcome(files: map<string, int>, taken: seq<string>, crash: Option<Crash>)

  /**
   * One iteration of the main loop. Writing an archive creates its file, so
   * the archive's modification time becomes `now` even when a missing asset
   * then stops the run.
   */
  function NoteStep(files: map<string, int>, n: Note, cfg: Config, onDisk: set<string>, opts: Options, now: int): Outcome {
    match Decide(files, n, opts)
    case Err(c) => Outcome(files, [], Some(c))
    case Ok(Skip) => Outcome(files, [], None)
    case Ok(Report) => Outcome(files, [Filename(n.title)], None)
    case Ok(Write) =>
      match FullFilename(n.title)
      case Err(_) => Outcome(files, [Filename(n.title)], Some(EmptyTitle))
      case Ok(name) =>
        Outcome(files[name := now], [Filename(n.title)],
                if AssetSources(cfg, n.text) <= onDisk then None else Some(AssetMissing))
  }

  /** One iteration leaves the directory alone or stamps the note's own archive with `now`. */
  lemma StepWrites(files: map<string, int>, n: Note, cfg: Config, onDisk: set<string>, opts: Options, now: int)
    ensures var o := NoteStep(files, n, cfg, onDisk, opts, now);
      o.files == files || (n.title != [] && o.files == files[ArchiveName(n) := now])
  {
    FullFilenameIs(n.title);
  }

  /**
   * The two ways one iteration crashes: an empty title, unless --force and
   * --dry-run together spare it both with_suffix calls; and a missing asset
   * when the archive is written.
   */
  lemma NoteStepCrash(files: map<string, int>, n: Note, cfg: Config, onDisk: set<string>, opts: Options, now: int)
    ensures NoteStep(files, n, cfg, onDisk, opts, now).crash == Some(EmptyTitle) <==>
      n.title == [] && !(opts.force && opts.dryRun)
    ensures NoteStep(files, n, cfg, onDisk, opts, now).crash == Some(AssetMissing) <==>
      n.title != [] && Decide(files, n, opts) == Ok(Write) && !(AssetSources(cfg, n.text) <= onDisk)
  {
    FullFilenameIs(n.title);
  }

  /** Prefixes the notes taken up earlier to an outcome. */
  function After(taken: seq<string>, o: Outcome): Outcome {
    Outcome(o.files, taken + o.taken, o.crash)
  }

  /** The main loop over the live notes, in order, stopping at the first crash. */
  function RunBackup(files: map<string, int>, notes: seq<Note>, cfg: Config, onDisk: set<string>, opts: Options, now: int): Outcome
    decreases |notes|
  {
    if notes == [] then Outcome(files, [], None)
    else
      var o := NoteStep(files, notes[0], cfg, onDisk, opts, now);
      if o.crash.Some? then o
      else After(o.taken, RunBackup(o.files, notes[1..], cfg, onDisk, opts, now))
  }

  /** Under --dry-run the directory is left exactly as it was. */
  lemma {:induction false} DryRunWritesNothing(files: map<string, int>, notes: seq<Note>, cfg: Config, onDisk: set<string>, opts: Options, now: int)
    requires opts.dryRun
    ensures RunBackup(files, notes, cfg, onDisk, opts, now).files == files
    decreases |notes|
  {
    if notes != [] {
      DryRunWritesNothing(files, notes[1..], cfg, onDisk, opts, now);
    }
  }

  /** The archive name of a note with a non-empty title, which the glob of the removal step lists. */
  function ArchiveName(n: Note): (name: string)
    requires n.title != []
    ensures IsArchiveName(name)
  {
    FullFilenameIs(n.title);
    FullFilenameGlobbable(n.title);
    FullFilename(n.title).value
  }

  /** The run only ever writes the archives of its notes; every other file keeps its time. */
  lemma {:induction false} RunTouchesOnlyArchives(files: map<string, int>, notes: seq<Note>, cfg: Config, onDisk: set<string>, opts: Options, now: int, k: string)
    requires k in files
    requires forall i :: 0 <= i < |notes| ==> FullFilename(notes[i].title) != Ok(k)
    ensures k in RunBackup(files, notes, cfg, onDisk, opts, now).files
    ensures RunBackup(files, notes, cfg, onDisk, opts, now).files[k] == files[k]
    decreases |notes|
  {
    if notes != [] {
      var o := NoteStep(files, notes[0], cfg, onDisk, opts, now);
      StepWrites(files, notes[0], cfg, onDisk, opts, now);
      assert k in o.files && o.files[k] == files[k];
      if o.crash.None? {
        RunTouchesOnlyArchives(o.files, notes[1..], cfg, onDisk, opts, now, k);
      }
    }
  }

  /**
   * The loop runs over the live notes only, so a file that is the archive of
   * no live row (that of a trashed note, say) keeps its time.
   */
  lemma TrashedArchivesUntouched(files: map<string, int>, rows: seq<Note>, cfg: Config, onDisk: set<string>, opts: Options, now: int, k: string)
    requires k in files
    requires forall n :: n in rows && IsLive(n) ==> FullFilename(n.title) != Ok(k)
    ensures k in RunBackup(files, LiveNotes(rows), cfg, onDisk, opts, now).files
    ensures RunBackup(files, LiveNotes(rows), cfg, onDisk, opts, now).files[k] == files[k]
  {
    var live := LiveNotes(rows);
    forall i | 0 <= i < |live| ensures FullFilename(live[i].title) != Ok(k) {
      assert live[i] in live;
    }
    RunTouchesOnlyArchives(files, live, cfg, onDisk, opts, now, k);
  }

  /** A run that ends without a crash and not under --dry-run only had notes with titles. */
  lemma {:induction false} CleanRunHasTitles(files: map<string, int>, notes: seq<Note>, cfg: Config, onDisk: set<string>, opts: Options, now: int)
    requires !opts.dryRun && RunBackup(files, notes, cfg, onDisk, opts, now).crash.None?
    ensures forall i :: 0 <= i < |notes| ==> notes[i].title != []
    decreases |notes|
  {
    if notes != [] {
      var o := NoteStep(files, notes[0], cfg, onDisk, opts, now);
      FullFilenameIs(notes[0].title);
      CleanRunHasTitles(o.files, notes[1..], cfg, onDisk, opts, now);
      forall i | 0 <= i < |notes| ensures notes[i].title != [] {
        if i > 0 {
          assert notes[i] == notes[1..][i - 1];
        }
      }
    }
  }

  /** A run never deletes: every file listed before it is listed after it. */
  lemma {:induction false} RunKeepsFiles(files: map<string, int>, notes: seq<Note>, cfg: Config, onDisk: set<string>, opts: Options, now: int, k: string)
    requires k in files
    ensures k in RunBackup(files, notes, cfg, onDisk, opts, now).files
    decreases |notes|
  {
    if notes != [] {
      var o := NoteStep(files, notes[0], cfg, onDisk, opts, now);
      StepWrites(files, notes[0], cfg, onDisk, opts, now);
      if o.crash.None? {
        RunKeepsFiles(o.files, notes[1..], cfg, onDisk, opts, now, k);
      }
    }
  }

  /**
   * An iteration outside --dry-run that does not crash leaves the note's
   * archive in place: it was skipped because the archive exists, or written.
   */
  lemma StepLeavesArchive(files: map<string, int>, n: Note, cfg: Config, onDisk: set<string>, opts: Options, now: int)
    requires !opts.dryRun && NoteStep(files, n, cfg, onDisk, opts, now).crash.None?
    ensures n.title != [] && ArchiveName(n) in NoteStep(files, n, cfg, onDisk, opts, now).files
  {
    FullFilenameIs(n.title);
  }

  /** After a complete run that was not a dry run, every note's archive exists, whatever the clock says. */
  lemma {:induction false} CleanRunLeavesAllPresent(files: map<string, int>, notes: seq<Note>, cfg: Config, onDisk: set<string>, opts: Options, now: int)
    requires !opts.dryRun && RunBackup(files, notes, cfg, onDisk, opts, now).crash.None?
    ensures forall i :: 0 <= i < |notes| ==>
      notes[i].title != [] && ArchiveName(notes[i]) in RunBackup(files, notes, cfg, onDisk, opts, now).files
    decreases |notes|
  {
    if notes != [] {
      var res := RunBackup(files, notes, cfg, onDisk, opts, now);
      var o := NoteStep(files, notes[0], cfg, onDisk, opts, now);
      var rest := notes[1..];
      var tail := RunBackup(o.files, rest, cfg, onDisk, opts, now);
      assert o.crash.None? && res.files == tail.files && tail.crash.None?;
      StepLeavesArchive(files, notes[0], cfg, onDisk, opts, now);
      RunKeepsFiles(o.files, rest, cfg, onDisk, opts, now, ArchiveName(notes[0]));
      CleanRunLeavesAllPresent(o.files, rest, cfg, onDisk, opts, now);
      forall i | 0 <= i < |notes| ensures notes[i].title != [] && ArchiveName(notes[i]) in res.files {
        if i > 0 {
          assert notes[i] == rest[i - 1];
        }
      }
    }
  }

  /** A note whose archive is up to date stays so while later writes stamp archives with a time not before its own. */
  ghost predicate UpToDate(files: map<string, int>, n: Note) {
    n.title != [] && ArchiveName(n) in files && files[ArchiveName(n)] >= LastModified(n)
  }

  lemma {:induction false} UpToDateKept(files: map<string, int>, notes: seq<Note>, cfg: Config, onDisk: set<string>, opts: Options, now: int, n: Note)
    requires UpToDate(files, n) && now >= LastModified(n)
    ensures UpToDate(RunBackup(files, notes, cfg, onDisk, opts, now).files, n)
    decreases |notes|
  {
    if notes != [] {
      var o := NoteStep(files, notes[0], cfg, onDisk, opts, now);
      StepWrites(files, notes[0], cfg, onDisk, opts, now);
      assert UpToDate(o.files, n);
      if o.crash.None? {
        UpToDateKept(o.files, notes[1..], cfg, onDisk, opts, now, n);
      }
    }
  }

  /**
   * After a complete run that was not a dry run, with the clock not behind
   * any note, every note's archive exists and is not older than the note.
   */
  lemma {:induction false} CleanRunLeavesAllUpToDate(files: map<string, int>, notes: seq<Note>, cfg: Config, onDisk: set<string>, opts: Options, now: int)
    requires !opts.dryRun && RunBackup(files, notes, cfg, onDisk, opts, now).crash.None?
    requires forall i :: 0 <= i < |notes| ==> now >= LastModified(notes[i])
    ensures forall i :: 0 <= i < |notes| ==> UpToDate(RunBackup(files, notes, cfg, onDisk, opts, now).files, notes[i])
    decreases |notes|
  {
    if notes != [] {
      var res := RunBackup(files, notes, cfg, onDisk, opts, now);
      var o := NoteStep(files, notes[0], cfg, onDisk, opts, now);
      var rest := notes[1..];
      var tail := RunBackup(o.files, rest, cfg, onDisk, opts, now);
      assert o.crash.None? && res.files == tail.files && tail.crash.None?;
      CleanRunHasTitles(files, notes, cfg, onDisk, opts, now);
      FullFilenameIs(notes[0].title);
      assert UpToDate(o.files, notes[0]);
      UpToDateKept(o.files, rest, cfg, onDisk, opts, now, notes[0]);
      forall i | 0 <= i < |rest| ensures now >= LastModified(rest[i]) {
        assert rest[i] == notes[i + 1];
      }
      CleanRunLeavesAllUpToDate(o.files, rest, cfg, onDisk, opts, now);
      forall i | 0 <= i < |notes| ensures UpToDate(res.files, notes[i]) {
        if i > 0 {
          assert notes[i] == rest[i - 1];
        }
      }
    }
  }

  /** Notes whose archives are all up to date are all skipped by a run without --force. */
  lemma {:induction false} UpToDateRunIsIdle(files: map<string, int>, notes: seq<Note>, cfg: Config, onDisk: set<string>, dryRun: bool, now: int)
    requires forall i :: 0 <= i < |notes| ==> UpToDate(files, notes[i])
    ensures RunBackup(files, notes, cfg, onDisk, Options(false, dryRun), now) == Outcome(files, [], None)
    decreases |notes|
  {
    if notes != [] {
      FullFilenameIs(notes[0].title);
      assert NoteStep(files, notes[0], cfg, onDisk, Options(false, dryRun), now) == Outcome(files, [], None);
      forall i | 0 <= i < |notes| - 1 ensures UpToDate(files, notes[1..][i]) {
        assert notes[1..][i] == notes[i + 1];
      }
      UpToDateRunIsIdle(files, notes[1..], cfg, onDisk, dryRun, now);
    }
  }

  /**
   * Running the backup again without --force right after a complete run,
   * with the clock not behind any note, writes and reports nothing. A note
   * dated after the clock gets an archive older than itself, so every run
   * writes it again.
   */
  lemma SecondRunIsIdle(files: map<string, int>, notes: seq<Note>, cfg: Config, onDisk: set<string>, opts: Options, now: int, later: int, dryRun: bool)
    requires !opts.dryRun && RunBackup(files, notes, cfg, onDisk, opts, now).crash.None?
    requires forall i :: 0 <= i < |notes| ==> now >= LastModified(notes[i])
    ensures var first := RunBackup(files, notes, cfg, onDisk, opts, now).files;
      RunBackup(first, notes, cfg, onDisk, Options(false, dryRun), later) == Outcome(first, [], None)
  {
    var first := RunBackup(files, notes, cfg, onDisk, opts, now).files;
    CleanRunLeavesAllUpToDate(files, notes, cfg, onDisk, opts, now);
    UpToDateRunIsIdle(first, notes, cfg, onDisk, dryRun, later);
  }

  /** `keep_notes`: the archive names of all live notes, skipped or not; an empty title makes it fail. */
  function KeepSet(notes: seq<Note>): (r: Result<set<string>, Crash>)
    decreases |notes|
  {
    if notes == [] then Ok({})
    else match FullFilename(notes[0].title)
      case Err(_) => Err(EmptyTitle)
      case Ok(name) =>
        match KeepSet(notes[1..])
        case Err(c) => Err(c)
        case Ok(rest) => Ok({name} + rest)
  }

  /** The keep set exists exactly when every title is non-empty. */
  lemma {:induction false} KeepSetDefined(notes: seq<Note>)
    ensures KeepSet(notes).Ok? <==> forall i :: 0 <= i < |notes| ==> notes[i].title != []
    decreases |notes|
  {
    if notes != [] {
      var rest := notes[1..];
      KeepSetDefined(rest);
      FullFilenameIs(notes[0].title);
      assert forall i :: 0 < i < |notes| ==> notes[i] == rest[i - 1];
    }
  }

  /** The keep set holds exactly the archive names of the notes. */
  lemma {:induction false} KeepSetMembers(notes: seq<Note>, x: string)
    requires KeepSet(notes).Ok?
    ensures x in KeepSet(notes).value <==> exists i :: 0 <= i < |notes| && FullFilename(notes[i].title) == Ok(x)
    decreases |notes|
  {
    if notes != [] {
      var rest := notes[1..];
      KeepSetMembers(rest, x);
      var name := FullFilename(notes[0].title).value;
      assert KeepSet(notes).value == {name} + KeepSet(rest).value;
      if x in KeepSet(notes).value {
        if x == name {
          assert FullFilename(notes[0].title) == Ok(x);
        } else {
          var i :| 0 <= i < |rest| && FullFilename(rest[i].title) == Ok(x);
          assert FullFilename(notes[i + 1].title) == Ok(x);
        }
      }
      if exists i :: 0 <= i < |notes| && FullFilename(notes[i].title) == Ok(x) {
        var i :| 0 <= i < |notes| && FullFilename(notes[i].title) == Ok(x);
        if i > 0 {
          assert notes[i] == rest[i - 1];
        }
      }
    }
  }

  /** glob("*.bearnote") in the destination: visible names ending in ".bearnote". */
  predicate IsArchiveName(name: string) {
    EndsWith(name, ".bearnote") && name[0] != '.'
  }

  function Globbed(files: map<string, int>): set<string> {
    set k | k in files && IsArchiveName(k)
  }

  /** `delete_notes`: the archives present that belong to no live note. */
  function Orphans(files: map<string, int>, keep: set<string>): set<string> {
    Globbed(files) - keep
  }

  /**
   * After the orphans are deleted, a file remains exactly when it is not an
   * archive or belongs to a live note, and it keeps its time.
   */
  lemma RemovalKeeps(files: map<string, int>, keep: set<string>, x: string)
    ensures x in files - Orphans(files, keep) <==> x in files && (!IsArchiveName(x) || x in keep)
    ensures x in files - Orphans(files, keep) ==> (files - Orphans(files, keep))[x] == files[x]
  {
  }

  /**
   * Every note's archive survives a complete backup followed by orphan
   * removal: kept names are never deleted, including those of skipped notes.
   */
  lemma BackupThenRemoveKeepsAll(files: map<string, int>, notes: seq<Note>, cfg: Config, onDisk: set<string>, opts: Options, now: int, i: nat)
    requires !opts.dryRun && RunBackup(files, notes, cfg, onDisk, opts, now).crash.None?
    requires i < |notes|
    ensures KeepSet(notes).Ok?
    ensures var after := RunBackup(files, notes, cfg, onDisk, opts, now).files;
      notes[i].title != [] && ArchiveName(notes[i]) in after - Orphans(after, KeepSet(notes).value)
  {
    var after := RunBackup(files, notes, cfg, onDisk, opts, now).files;
    CleanRunLeavesAllPresent(files, notes, cfg, onDisk, opts, now);
    KeepSetDefined(notes);
    KeepSetMembers(notes, ArchiveName(notes[i]));
    FullFilenameIs(notes[i].title);
    RemovalKeeps(after, KeepSet(notes).value, ArchiveName(notes[i]));
  }

  /** Deleting one more pending name extends the set of names deleted so far. */
  lemma RemoveOneMore(m: map<string, int>, doomed: set<string>, pending: set<string>, x: string)
    requires x in pending && pending <= doomed
    ensures (m - (doomed - pending)) - {x} == m - (doomed - (pending - {x}))
  {
    var l, r := (m - (doomed - pending)) - {x}, m - (doomed - (pending - {x}));
    assert forall k :: k in l <==> k in r;
    assert forall k :: k in l ==> l[k] == r[k];
  }

  /** The destination directory of a backup. */
  class Destination {
    /** The directory's files, each with its modification time in Unix seconds. */
    var files: map<string, int>

    constructor (files: map<string, int>)
      ensures this.files == files
    {
      this.files := files;
    }

    /** The main loop over the live notes. */
    method BackupAll(notes: seq<Note>, cfg: Config, onDisk: set<string>, opts: Options, now: int)
      returns (taken: seq<string>, crash: Option<Crash>)
      modifies this
      ensures RunBackup(old(files), notes, cfg, onDisk, opts, now) == Outcome(files, taken, crash)
    {
      taken := [];
      crash := None;
      var i := 0;
      while i < |notes|
        invariant 0 <= i <= |notes|
        invariant RunBackup(old(files), notes, cfg, onDisk, opts, now) ==
          After(taken, RunBackup(files, notes[i..], cfg, onDisk, opts, now))
      {
        var n := notes[i];
        assert notes[i..][1..] == notes[i + 1..];
        var step := BackupNote(n, cfg, onDisk, opts, now);
        taken := taken + step.taken;
        if step.crash.Some? {
          crash := step.crash;
          return;
        }
        i := i + 1;
      }
    }

    /** One iteration: the staleness check, then reporting or writing the archive. */
    method BackupNote(n: Note, cfg: Config, onDisk: set<string>, opts: Options, now: int) returns (step: Outcome)
      modifies this
      ensures step == NoteStep(old(files), n, cfg, onDisk, opts, now) && files == step.files
    {
      FullFilenameIs(n.title);
      var newer: Result<bool, PathError> := Ok(false);
      if !opts.force {
        newer := ExistingFileIsNewer(files, n);
      }
      if newer.Err? {
        step := Outcome(files, [], Some(EmptyTitle));
      } else if newer.value {
        step := Outcome(files, [], None);
      } else if opts.dryRun {
        step := Outcome(files, [Filename(n.title)], None);
      } else {
        assert Decide(files, n, opts) == Ok(Write);
        var archive, order, err := ZipNote(n, cfg, onDisk);
        if archive == null {
          step := Outcome(files, [Filename(n.title)], Some(EmptyTitle));
        } else {
          files := files[archive.path := now];
          step := Outcome(files, [Filename(n.title)], if err.None? then None else Some(AssetMissing));
        }
      }
    }

    /**
     * The --remove step: every globbed archive outside the keep set is
     * deleted, or under --dry-run only listed; `doomed` is the set handled.
     */
    method RemoveOrphans(notes: seq<Note>, dryRun: bool) returns (doomed: set<string>, crash: Option<Crash>)
      modifies this
      ensures KeepSet(notes).Err? ==> crash == Some(EmptyTitle) && doomed == {} && files == old(files)
      ensures KeepSet(notes).Ok? ==> crash.None? && doomed == Orphans(old(files), KeepSet(notes).value)
      ensures KeepSet(notes).Ok? ==> files == if dryRun then old(files) else old(files) - doomed
    {
      var keep := KeepSet(notes);
      if keep.Err? {
        return {}, Some(EmptyTitle);
      }
      doomed := Orphans(files, keep.value);
      crash := None;
      var pending := doomed;
      while pending != {}
        invariant pending <= doomed
        invariant files == if dryRun then old(files) else old(files) - (doomed - pending)
        decreases |pending|
      {
        var x :| x in pending;
        if !dryRun {
          RemoveOneMore(old(files), doomed, pending, x);
          files := files - {x};
        }
        pending := pending - {x};
      }
      assert doomed - pending == doomed;
    }

    /**
     * The main block after the notes are loaded: the backup loop, then, with
     * --remove and only if the loop finished, the orphan removal.
     */
    method Run(notes: seq<Note>, cfg: Config, onDisk: set<string>, opts: Options, remove: bool, now: int)
      returns (taken: seq<string>, doomed: set<string>, crash: Option<Crash>)
      modifies this
      ensures var b := RunBackup(old(files), notes, cfg, onDisk, opts, now);
        taken == b.taken &&
        (b.crash.Some? || !remove ==> files == b.files && doomed == {} && crash == b.crash) &&
        (b.crash.None? && remove && KeepSet(notes).Err? ==> files == b.files && doomed == {} && crash == Some(EmptyTitle)) &&
        (b.crash.None? && remove && KeepSet(notes).Ok? ==>
          crash.None? && doomed == Orphans(b.files, KeepSet(notes).value) &&
          files == if opts.dryRun then b.files else b.files - doomed)
    {
      taken, crash := BackupAll(notes, cfg, onDisk, opts, now);
      doomed := {};
      if crash.None? && remove {
        doomed, crash := RemoveOrphans(notes, opts.dryRun);
      }
    }
  }
}
