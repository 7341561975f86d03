# bear_backup in Dafny

This project models the core of `bear_backup.py`, a script that backs up the
notes of the Bear note-taking application. Each note becomes one `.bearnote`
archive, which is a textbundle-like ZIP file.

The model covers:

- **Asset references.** A note's text refers to attachments with inline
  markers `[image:<path>]` and `[file:<path>]`. The model has the pattern
  `\[(image|file):([^]]+)\]` and the left-to-right, non-overlapping regex scan
  that `re.findall` and `re.sub` perform with it.
- **convert_asset_path.** `re.sub(r'^.*/', 'assets/', p)` rewrites a path.
- **text_with_converted_asset_paths.** This rewrites every reference into
  `[<converted path>]`.
- **asset_filenames.** This collects the source paths of the referenced
  files into a set, each resolved against the image root or the file root.
- **filename and full_filename.** These build an archive name from a note's
  title: two sanitising regex passes, then `pathlib`'s
  `with_suffix(".bearnote")`.
- **last_modified and existing_file_is_newer.** These are the staleness
  check against the destination directory.
- **zip_note.** An archive object receives `info.json`, `text.txt` and one
  entry per asset source, in this order. It stops at the first asset that
  is missing on disk.
- **all_notes.** This keeps only the notes with `ZTRASHED != 1`, under SQL's
  NULL semantics.
- **The driver.** The main loop skips, reports or writes each note. The
  `--remove` step then deletes the archives in the destination that belong
  to no live note.

The files are:

| file | contents |
|---|---|
| `wrappers.dfy` | `Option` and `Result` |
| `paths.dfy` | prefixes, suffixes and two-argument `os.path.join` |
| `asset_refs.dfy` | the pattern, the scan, `convert_asset_path` and the text rewrite |
| `filenames.dfy` | the character classes, the run-collapsing substitution, `filename`, `with_suffix` and `full_filename` |
| `notes.dfy` | the note record, the live filter, `last_modified` and the asset sources, with the `asset_filenames` loop |
| `archive.dfy` | the archive object (`ZipArchive`), its entry list and `zip_note` |
| `backup.dfy` | a functional model of the backup loop, a destination object whose map from file name to modification time the methods update, the orphan removal and the lemmas about whole runs |

In three places the code does something other than its own comments and
docstrings say. The model follows the code in each of them:

- **Asset entry names.** The docstrings describe the bearnote/textbundle
  layout, in which each asset lies in `assets/<basename>` inside the
  archive's folder (bear_backup.py:47-49, bear_backup.py:96-98). In zip_note
  the loop variable `filename` shadows the archive name. Each asset entry is
  therefore named `join(<source path>, convert_asset_path(<source path>))`,
  which is a name under the asset's own absolute source path.
  `Archive.AssetEntry` models this, and `Archive.AssetArcnameUnderSource`
  states where such an entry lands.
- **Word characters.** The comment says that anything that "isn't
  alphanumeric or spaces" is stripped (bear_backup.py:73). The class
  `[^\w\s]` also keeps `_`, since `_` is a word character. A run of such
  characters becomes a single `_`.
- **Directory stripping.** The docstring says "any path" is stripped
  (bear_backup.py:56). `convert_asset_path` strips directories only up to the
  last `/` on the path's *first line*, because `.` does not match a newline.
  It is not a general basename.

Reading a path that is missing on disk raises an exception that nothing
catches. So does `with_suffix` on an empty title. Either one ends the whole
run. The model gives each one an error value, `ZipError` in the archive and
`Crash` in the driver; after it, no later note is processed.

## Model

| member | source | states |
|---|---|---|
| Paths.Join | bear_backup.py:64-66 | an absolute second part replaces the first; otherwise the result starts with the first part, ends with the second, and is the first part, exactly one '/', then the second when the first part is non-empty and does not end in '/', and the plain concatenation when it is empty or ends in '/' |
| AssetRefs.FindClose | bear_backup.py:21 | the `[^]]+\]` tail: the index found is the first ']' at or after the start; None means there is no ']' |
| AssetRefs.MatchAt | bear_backup.py:21 | a match tried at i starts at i and ends within the text |
| AssetRefs.MatchAtSound | bear_backup.py:21 | what the matcher finds is a match of the pattern: an opener, a non-empty path without ']', then ']' |
| AssetRefs.MatchAtComplete | bear_backup.py:21 | conversely, every match of the pattern at a position is exactly the one the matcher returns there |
| AssetRefs.KindAtExact | bear_backup.py:21 | the two openers exclude each other, so the kind found at a position is the one whose opener stands there |
| AssetRefs.Scan | bear_backup.py:51-53 | the scan meets its specification: leftmost matches, tried in order, resuming after each match, with no match in the gaps |
| AssetRefs.ScanUnique | bear_backup.py:51-53 | any sequence meeting the scan specification equals the scan, so the specification determines the matches |
| AssetRefs.Matches | bear_backup.py:62 | `re.findall(asset_re, text)`: the scan from the start of the text; ScanElementsAreMatches and ScanUnique characterise it |
| AssetRefs.ScanElementsAreMatches | bear_backup.py:62 | every element the scan returns is a match of the pattern inside the scanned range, and consecutive matches do not overlap |
| AssetRefs.ScanIsOrdered | bear_backup.py:51-53 | the scanned spans lie in order and without overlap |
| AssetRefs.FirstLineEnd | bear_backup.py:58 | the result is the index of the first '\n' of the path, or its length if it has none |
| AssetRefs.LastSlash | bear_backup.py:58 | the result is the index of the last '/' before the bound, or None when that prefix has no '/' |
| AssetRefs.ConvertAssetPath | bear_backup.py:55-58 | the result is at most six characters longer than the path |
| AssetRefs.ConvertStripsDirectories | bear_backup.py:55-58 | with a '/' on the first line, the result is "assets/" followed by everything after the last such '/' |
| AssetRefs.ConvertKeepsPlainNames | bear_backup.py:55-58 | a path with no '/' on its first line is returned unchanged, without an "assets/" prefix |
| AssetRefs.ConvertOneLinePath | bear_backup.py:55-58 | a one-line `dir/base` becomes `assets/base` |
| AssetRefs.SubIsSplice | bear_backup.py:51-53 | the streaming substitution equals the scanned matches replaced one by one, with the text before, between and after them copied |
| AssetRefs.RewriteIsSplice | bear_backup.py:43-53 | the rewritten note text is the original with each reference replaced by `[<converted path>]` and all other text copied verbatim |
| AssetRefs.NoMatchUnchanged | bear_backup.py:43-53 | a text without any reference comes back unchanged |
| AssetRefs.SingleReference | bear_backup.py:51-53 | a lone reference `[image:p]` or `[file:p]` becomes `[<converted p>]`: the kind tag is dropped |
| AssetRefs.ReferenceLosesDirectories | bear_backup.py:43-58 | a reference to `dir/base` becomes `[assets/base]`: the kind tag and every directory component are dropped |
| AssetRefs.Replacement | bear_backup.py:52 | the text a match is replaced by; SingleReference and ReferenceLosesDirectories state what it is for concrete references |
| AssetRefs.SubFrom | bear_backup.py:51-53 | re.sub with a replacement function; SubIsSplice proves it equals the splice of the scanned matches |
| AssetRefs.TextWithConvertedAssetPaths | bear_backup.py:43-53 | the rewritten text; RewriteIsSplice and NoMatchUnchanged pin it down |
| AssetRefs.SubdirectoryImageExample | bear_backup.py:43-58 | `[image:sub/dir/name.png]` is rewritten to exactly `[assets/name.png]` |
| Filenames.ClassesDisjoint | bear_backup.py:74-76 | '_' is a word character and ' ' a space; no character is both, and the class `[^\w\s]` is everything else |
| Filenames.RunLength | bear_backup.py:74-76 | the run at the front is the longest prefix of characters in the class |
| Filenames.CollapseRuns | bear_backup.py:74-76 | a run-collapsing substitution never lengthens the text and gives an empty result exactly for an empty input |
| Filenames.CollapseRunsChars | bear_backup.py:74-76 | every character of the result is the replacement or a character of the input outside the class |
| Filenames.CollapseRunsSeparated | bear_backup.py:74-76 | when the replacement is itself in the class, no two adjacent result characters are in it: every run became a single character |
| Filenames.CollapseRunsIdentity | bear_backup.py:74-76 | a text whose class characters are all the replacement, each standing alone, is a fixed point of the substitution |
| Filenames.RunLengthRun | bear_backup.py:74-76 | a run of class characters followed by the end or by a character outside the class is consumed whole by the greedy `+` |
| Filenames.CollapseRunsFrontRun | bear_backup.py:74-76 | a run of any length at the front of the text becomes a single replacement character |
| Filenames.CollapseRunsRun | bear_backup.py:74-76 | the `+`: a whole run of class characters of any length, bounded by the ends of the text or by characters outside the class, becomes exactly one replacement character, with the text on either side collapsed independently |
| Filenames.CollapseRunsAppend | bear_backup.py:74-76 | the substitution distributes over a split after a character outside the class |
| Filenames.FilenameShape | bear_backup.py:69-77 | the sanitised name has only word characters and ' ', never two whitespace characters in a row, is no longer than the title, and is empty exactly when the title is |
| Filenames.FilenameHasNoDotOrSlash | bear_backup.py:69-77 | the sanitised name contains neither '.' nor '/' |
| Filenames.FilenameIdempotent | bear_backup.py:69-77 | sanitising a sanitised name changes nothing |
| Filenames.SanitisedUnchanged | bear_backup.py:74-76 | both passes leave a name of sanitised shape unchanged |
| Filenames.FirstPass | bear_backup.py:74 | the first pass on `w1: w2 & w3!`, for all-word w's, gives `w1_ w2 _ w3_` |
| Filenames.SecondPass | bear_backup.py:76 | the second pass leaves `w1_ w2 _ w3_` unchanged |
| Filenames.Filename | bear_backup.py:69-77 | the two passes; FilenameShape, FilenameHasNoDotOrSlash, FilenameIdempotent and GroceriesExample state its properties |
| Filenames.RunBetweenWords | bear_backup.py:69-77 | a run of other characters of any length between two words is sanitised to a single '_' |
| Filenames.RunExample | bear_backup.py:69-77 | the title "a!?b" gives the name "a_b" |
| Filenames.GroceriesExample | bear_backup.py:69-77 | the title "Groceries: Milk & Eggs!" gives the name "Groceries_ Milk _ Eggs_" |
| Filenames.LastDot | bear_backup.py:82 | the result is the index of the last '.' of the name, or None when it has none |
| Filenames.LastDotIs | bear_backup.py:82 | conversely, a '.' with no '.' after it is what LastDot finds |
| Filenames.Suffix | bear_backup.py:82 | a non-empty suffix is a proper tail of the name, at least two characters long, that starts with '.' and holds no other '.'; the suffix is empty only when no '.' strictly inside the name (neither first nor last) is the name's last '.' |
| Filenames.WithSuffix | bear_backup.py:82 | with_suffix fails with InvalidSuffix exactly when the suffix contains '/', is non-empty and lacks a leading '.', or is "."; with a valid suffix it fails with EmptyName exactly on an empty name; a result is the name without its old suffix, followed by the new suffix |
| Filenames.BearnoteSuffixValid | bear_backup.py:82 | ".bearnote" is a suffix with_suffix accepts |
| Filenames.WithSuffixAppends | bear_backup.py:82 | with a valid suffix, on a non-empty name without '.', with_suffix appends the suffix |
| Filenames.SuffixOfWithSuffix | bear_backup.py:82 | after with_suffix with a well-formed suffix ('.', at least one more character, no further '.' and no '/'), the suffix of the new name is that suffix |
| Filenames.FullFilename | bear_backup.py:79-82 | with_suffix(".bearnote") of the sanitised name; FullFilenameIs gives its value and FullFilenameGlobbable its shape |
| Filenames.FullFilenameIs | bear_backup.py:79-82 | an empty title fails with EmptyName; any other title gives its sanitised name followed by ".bearnote" |
| Filenames.FullFilenameGlobbable | bear_backup.py:182-183 | every archive name ends in ".bearnote" and does not start with '.', so `glob("*.bearnote")` lists it |
| Notes.IsLive | bear_backup.py:127 | `ZTRASHED != 1` under SQL NULL semantics; LiveNotes keeps exactly the rows it accepts |
| Notes.LiveNotes | bear_backup.py:125-129 | a row is kept exactly when its trashed flag is non-NULL and not 1; the result is no longer than the input; LiveNotesCount and LiveNotesAppend fix multiplicity and order |
| Notes.LiveNotesCount | bear_backup.py:125-129 | each live row occurs in the result exactly as often as in the rows, and no other row occurs |
| Notes.LiveNotesAppend | bear_backup.py:125-129 | filtering a concatenation concatenates the filtered parts, so the rows keep their order |
| Notes.LiveNotesSingle | bear_backup.py:125-129 | a single row is kept exactly when it is live |
| Notes.LastModified | bear_backup.py:39-41 | the Unix time minus the 2001 epoch offset is the stored modification time |
| Notes.AppleEpochDerived | bear_backup.py:25 | the epoch offset is 31 years of 365 days plus 8 leap days, in seconds |
| Notes.LastModifiedOrder | bear_backup.py:39-41 | shifting by the epoch keeps both the order and the equality of two notes' times |
| Notes.ConfigFor | bear_backup.py:17-19 | the image root is `<asset root>/Note Images` and the file root `<asset root>/Note Files` |
| Notes.SourcePath | bear_backup.py:63-66 | a reference resolved against its kind's root; SourcePathUnderRoot states where it lands |
| Notes.SourcePathUnderRoot | bear_backup.py:63-66 | a relative reference path lands below the root of its kind and ends with the path; an absolute one is taken as it stands |
| Notes.AssetSources | bear_backup.py:60-67 | the set asset_filenames returns; AssetSourcesAreReferences, AssetSourcesBound and DuplicateReferencesCollapse characterise it, and AssetFilenames computes it |
| Notes.AssetFilenames | bear_backup.py:60-67 | the loop returns the set of source paths AssetSources specifies |
| Notes.CollectMembers | bear_backup.py:60-67 | an element is collected exactly when it is the image of some element of the sequence |
| Notes.AssetSourcesAreReferences | bear_backup.py:60-67 | a path is an asset source exactly when some reference the scanner finds resolves to it, and every such reference is a genuine match of the pattern |
| Notes.AssetSourcesBound | bear_backup.py:60-67 | there are never more asset sources than references |
| Notes.DuplicateReferencesCollapse | bear_backup.py:60-67 | two references with the same kind and path give one source, so there are strictly fewer sources than references |
| Archive.InfoJson | bear_backup.py:106-109 | json.dumps of `{"type": "public.plain-text", "version": "2"}` with the default separators, keys in insertion order |
| Archive.ZipArchive.constructor | bear_backup.py:103-104 | a newly opened archive has the given name and no entries |
| Archive.ZipArchive.WriteStr | bear_backup.py:106-112 | writestr appends one text entry and leaves the others alone |
| Archive.ZipArchive.Write | bear_backup.py:115-117 | write succeeds exactly when the source is on disk, and then appends one copy entry; on failure the entries are unchanged |
| Archive.Header | bear_backup.py:105-112 | the info.json and text.txt entries; HeaderNames and ArchiveLayout give their names and contents |
| Archive.AssetEntry | bear_backup.py:114-117 | the entry for one source, under the shadowed name; AssetArcnameUnderSource states where it lands |
| Archive.AssetEntries | bear_backup.py:114-117 | there is one asset entry per visited source |
| Archive.AssetEntriesAt | bear_backup.py:114-117 | the i-th asset entry is the entry for the i-th source visited |
| Archive.AssetEntriesAppend | bear_backup.py:114-117 | visiting one more source adds its entry at the end |
| Archive.WriteAsset | bear_backup.py:115-117 | one loop iteration appends the source's entry exactly when the source is on disk |
| Archive.WriteAssets | bear_backup.py:114-117 | the entries grow by one entry per source visited, and each source is visited once and is on disk; the loop finishes exactly when every source is on disk, and then it has written all of them; otherwise it stops at a source that is missing |
| Archive.ZipNote | bear_backup.py:93-117 | an empty title fails before any archive exists; otherwise the archive is named by full_filename and holds info.json, text.txt and the asset entries, with the guarantees of WriteAssets about which assets were written and the missing one |
| Archive.ArchiveEntries | bear_backup.py:103-117 | the entry list zip_note builds: the two header entries, then one entry per visited source; ArchiveLayout and ArchiveEntryCount characterise it |
| Archive.ArchiveLayout | bear_backup.py:103-117 | entry 0 is `<archive>/info.json` with the fixed JSON, entry 1 is `<archive>/text.txt` with the rewritten text, then come the asset entries in visiting order and nothing else |
| Archive.FullFilenameIsDirectoryName | bear_backup.py:102-111 | the name full_filename produces is non-empty and does not end in '/', so the header entries lie directly below it |
| Archive.ArchiveEntryCount | bear_backup.py:114-117 | visiting each source once gives exactly two entries more than there are distinct sources |
| Archive.AssetArcnameUnderSource | bear_backup.py:114-117 | an asset entry is named `<source>/assets/<part after the last '/'>`, below the source path itself |
| Backup.ExistingFileIsNewer | bear_backup.py:84-91 | fails exactly on an empty title; otherwise true exactly when the archive exists and its time is not before the note's |
| Backup.EqualTimesAreUpToDate | bear_backup.py:88-91 | an archive with the same time as its note counts as up to date |
| Backup.Decide | bear_backup.py:169-179 | the skip / report / write decision; DecideSelects and DecideFails characterise it |
| Backup.NoteStep | bear_backup.py:169-179 | one iteration; StepWrites and NoteStepCrash state what it changes and when it crashes, and BackupNote computes it |
| Backup.RunBackup | bear_backup.py:169-179 | the whole loop, stopping at the first crash; the lemmas below and BackupAll are about it |
| Backup.DecideSelects | bear_backup.py:169-179 | a note is taken up exactly when --force is given or its archive is not newer; it is written exactly when taken up and not under --dry-run |
| Backup.DecideFails | bear_backup.py:169-172 | the staleness decision fails exactly without --force and with an empty title |
| Backup.NoteStepCrash | bear_backup.py:169-179 | one iteration crashes on an empty title exactly unless both --force and --dry-run are given (in the staleness check, or in zip_note's with_suffix), and on a missing asset exactly when a titled note's archive is written and some asset source is not on disk |
| Backup.StepWrites | bear_backup.py:174-179 | one iteration leaves the directory alone or stamps exactly the note's own archive |
| Backup.DryRunWritesNothing | bear_backup.py:174-175 | under --dry-run the directory stays exactly as it was |
| Backup.ArchiveName | bear_backup.py:182 | `str(note.full_filename())` of a titled note, which is always a name the glob of the removal step lists |
| Backup.RunTouchesOnlyArchives | bear_backup.py:169-179 | a file that is no note's archive keeps its time over the whole run |
| Backup.TrashedArchivesUntouched | bear_backup.py:161-179 | a run over the live notes of the table leaves the time of every file that is no live row's archive, a trashed note's for instance, unchanged |
| Backup.CleanRunHasTitles | bear_backup.py:169-179 | a run that completes, not under --dry-run, only had notes with titles |
| Backup.RunKeepsFiles | bear_backup.py:169-179 | the loop never deletes: every file present before the run is present after it |
| Backup.StepLeavesArchive | bear_backup.py:169-179 | an iteration outside --dry-run that does not crash leaves the note's archive present, since it was either skipped because the archive exists or written |
| Backup.CleanRunLeavesAllPresent | bear_backup.py:169-179 | after a complete run that is not a dry run, every note has a title and its archive exists, whatever the clock |
| Backup.UpToDateKept | bear_backup.py:169-179 | an up-to-date archive stays up to date while later writes stamp times not before the note's |
| Backup.CleanRunLeavesAllUpToDate | bear_backup.py:169-179 | after a complete run that is not a dry run, with the clock not behind any note, every note's archive exists and is not older than the note |
| Backup.UpToDateRunIsIdle | bear_backup.py:169-172 | a run without --force over up-to-date notes writes and reports nothing |
| Backup.SecondRunIsIdle | bear_backup.py:169-179 | with the clock not behind any note, running again without --force right after a complete run writes and reports nothing |
| Backup.KeepSet | bear_backup.py:182 | the archive names of all live notes; KeepSetDefined and KeepSetMembers characterise it |
| Backup.KeepSetDefined | bear_backup.py:182 | the keep set exists exactly when every note has a title |
| Backup.KeepSetMembers | bear_backup.py:182 | the keep set holds exactly the archive names of the notes |
| Backup.IsArchiveName | bear_backup.py:183 | the `*.bearnote` pattern: the name ends in ".bearnote" and does not start with '.', since a glob `*` does not match a leading dot |
| Backup.Globbed | bear_backup.py:183 | the names `glob("*.bearnote")` lists; FullFilenameGlobbable shows every archive name is among them |
| Backup.Orphans | bear_backup.py:184 | the globbed archives outside the keep set; RemovalKeeps states what removing them leaves |
| Backup.RemovalKeeps | bear_backup.py:181-191 | after removal, a file remains exactly when it is not a globbed archive or belongs to a live note, and it keeps its time |
| Backup.BackupThenRemoveKeepsAll | bear_backup.py:169-191 | after a complete run that is not a dry run, followed by removal, every note's archive is still present, whatever the clock |
| Backup.Destination.BackupNote | bear_backup.py:169-179 | one iteration of the loop changes the directory as NoteStep says |
| Backup.Destination.BackupAll | bear_backup.py:169-179 | the loop over the notes changes the directory, reports the notes taken up and crashes as RunBackup says |
| Backup.Destination.RemoveOrphans | bear_backup.py:181-191 | an empty title crashes before anything is deleted; otherwise exactly the globbed archives outside the keep set are handled, and they are deleted unless --dry-run is given |
| Backup.Destination.Run | bear_backup.py:169-191 | the backup loop, then removal only when --remove is given and the loop did not crash |

## Left out

- Regex `\w` is modelled on ASCII letters, digits and '_'. Python's `\w` on `str` also accepts every Unicode letter and digit. `\s` is Python's full whitespace list.
- `ZipFile.write` normalises the entry name it is given: `ZipInfo.from_file` applies `normpath` and strips a leading '/'. `writestr` keeps its name as given. In the model, every entry carries its name exactly as passed, so the asset entries' names are not normalised.
- `zip_note`'s optional `filename` argument is not modelled. The script never passes it; the model always uses the note's own name.
- `pathlib` parsing of names containing '/' is not modelled. `WithSuffix` treats its argument as one path component, which holds for the names `filename` produces.
- Times are whole seconds, with no time zone. `datetime.fromtimestamp` works in local time with fractional seconds; the comparison is modelled on integers.
- One `now` stamps every archive written in a run. Real writes happen at increasing times.
- SQLite, `BearDb.__init__` and `Note.__init__`: the model takes the rows as a sequence of `Note` values.
- NULL titles and texts are not modelled. Titles and texts are strings.
- Printing, `--verbose`, `--notify`, `--debug`, argument parsing, `makedirs` and `chdir` are I/O. `taken` lists the sanitised names of the notes a run takes up. That is what a run prints under `--verbose` or `--dry-run`; without them, a write prints nothing.
- `glob` would also list a directory named `*.bearnote`, and `os.remove` would then fail. The destination holds only plain files.
- The ZIP format and compression are not modelled; the archive is its list of entries. The archive is never closed, and what that does to the file on disk is not modelled.
- `Crash` and `ZipError` name the kind of exception. The driver's crash does not carry the missing path.
- Set iteration order is arbitrary in Python. `WriteAssets` chooses the next source nondeterministically and returns the order it used.
- The Homebrew formula under `Formula/` is packaging, not behaviour.
- AssetRefs.ConvertAssetPath: its own contract only bounds the length. What it computes is stated by ConvertStripsDirectories and ConvertKeepsPlainNames.
