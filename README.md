# mrpack-installer, modelled in Dafny

`mrpack-installer.py` keeps a Minecraft server's instance directory in step
with the latest version of a Modrinth modpack. `install(force)` does the
following, in order:

1. It asks the registry for the pack's versions and takes the newest one.
2. It compares that version with the id stored in `.modpack_version`. If they
   match and `force` is not set, it stops.
3. It picks the first `.mrpack` file of the version, fetches it and unzips it.
4. It reads `modrinth.index.json`.
5. It creates `mods/` and removes every `.jar` in it that no preserved
   pattern matches.
6. It classifies the index entries: not under `mods/`, client-only, or queued
   for download.
7. It downloads the queued mods. Each payload is checked against its
   declared size and SHA-512 (or SHA-1) digest, and only a payload that
   passes is written.
8. It merges the `overrides/` and `server-overrides/` trees into the
   instance. Jars from their `mods/` are copied flat, unless they are
   client-only. Every other entry is copied, and a directory replaces the
   instance's directory wholesale.
9. It writes the new version id to `.modpack_version`.

The model has two halves.

- **Specification functions** over an immutable filesystem tree. `Node` is
  `File(data) | Dir(children)`, and a directory is a `map<string, Node>`.
  Everything outside the filesystem is an explicit input:
  - the registry's answer;
  - the fetcher (one function from URL to payload);
  - the hash functions;
  - zip extraction and JSON parsing.

  `InstallRun` gives the whole `install` call as the value it returns and
  the instance directory it leaves behind. After an `OverrideConflict` the
  directory it gives is the one from before the override phase. That is not
  the directory the installer leaves (see "Left out").
- **The `ModpackInstaller` class.** It holds the instance directory in a
  mutable field. Its methods change it step by step, as the installer does:
  loops over the directory entries, the task list, the index entries and
  the override trees. Each method is proved to return the result that its
  specification function gives. It is also proved to end in the state that
  function gives, except after an `OverrideConflict`.

A fatal `sys.exit` or an uncaught exception becomes an `Err` carrying one
of the `Types.Error` constructors. Examples are `IsADirectoryError`,
`BadZipFile`, `JSONDecodeError` and the `IndexError` of `downloads[0]`. The files are:

| file | content |
|---|---|
| `types.dfy` | `Option`, `Result`, the error kinds |
| `fs.dfy` | the tree, `Path.name`, `Path.suffix`, `str.strip`, `startswith`/`endswith` |
| `filter.dfy` | `_is_client_only`, `_is_preserved` |
| `verify.dfy` | the size and hash check of `_download_file` |
| `manifest.dfy` | version files, index entries, choice of the `.mrpack`, classification |
| `downloads.dfy` | the download phase |
| `clean.dfy` | `clean_mods` |
| `overrides.dfy` | the override merge |
| `sync.dfy` | `get_latest_version`, `get_installed_version`, `_save_version`, `install` as functions |
| `installer.dfy` | the `ModpackInstaller` class and its loops |

Behaviour at the edges:

- **Server tag.** A manifest entry is client-only by tag exactly when
  `env["server"] == "unsupported"`.
- **Size check.** A declared size of `0` is not checked, because the code
  tests `if expected_size and ...`.
- **Override jars.** Only `.jar` files directly inside an override root's
  `mods/` are filtered. They are filtered by pattern alone: an override jar
  has no `env` tag. Other entries of that `mods/`, such as directories, are
  ignored.
- **Duplicate names.** Nothing keeps two queued downloads from targeting the
  same file name. The model writes them one after the other, so the last
  accepted payload stays.
- **Nested mod paths.** An index path under a subdirectory of `mods/`,
  such as `mods/sub/x.jar`, is downloaded to `mods/x.jar`: only the last
  component of the path is used.
- **Version ids with whitespace.** The stored id is stripped when read, but
  the registry's id is compared as given. When the latest id has whitespace
  around it, the comparison never matches, so every install without
  `force` runs again.
- **Missing index fields.** A missing field in an index entry is not
  checked up front. A queued entry with an empty `downloads` list makes
  `downloads[0]` raise, which gives `NoDownloadUrl`.

## Model

| member | source | states |
|---|---|---|
| Fs.Strip | mrpack-installer.py:188 | `read_text().strip()`: the result is a contiguous part of the text with only Python whitespace cut before and after it; it has no whitespace at either end, and a string that already has none is returned unchanged |
| Fs.Name | mrpack-installer.py:299 | `Path(file_path).name` never contains `/`; `NameOfJoin` gives its value |
| Fs.NameOfJoin | mrpack-installer.py:299 | the name of any path ending in `/f`, for a plain file name `f`, is `f`: a nested path such as `mods/sub/x.jar` names `x.jar` |
| Fs.ModsPathName | mrpack-installer.py:295-299 | a path that starts with `mods/` has a non-empty name, and `mods/f` names `f` for a plain file name `f` |
| Fs.HasJarSuffix | mrpack-installer.py:218 | definition: `Path.suffix == ".jar"`, which needs the name to be longer than `.jar` itself; used by `Cleaned` and `ModsOnlyGainCopiedJars` |
| ContentFilter.Lower | mrpack-installer.py:137 | `str.lower` keeps the length and leaves no capital letter; each character is either kept or is a capital replaced by its lower-case letter |
| ContentFilter.MatchesAny | mrpack-installer.py:138-142 | the early-return pattern loop answers true exactly when some pattern, lower-cased, occurs as a substring of the lower-cased name |
| ContentFilter.IsClientOnly | mrpack-installer.py:130-142 | client-only exactly when `env["server"] == "unsupported"` or some client-only pattern occurs in the name, ignoring case |
| ContentFilter.IsPreserved | mrpack-installer.py:144-150 | preserved exactly when some preserved pattern occurs in the name, ignoring case |
| ContentFilter.NoPatternsNoMatch | mrpack-installer.py:130-150 | with empty pattern lists nothing is preserved, and only the server tag makes a mod client-only |
| ContentFilter.EmptyPatternMatchesAll | mrpack-installer.py:139 | an empty pattern matches every name, so it preserves every mod and marks every mod client-only |
| ContentFilter.LowerIdempotent | mrpack-installer.py:137 | lower-casing twice is the same as lower-casing once |
| ContentFilter.MatchIgnoresCase | mrpack-installer.py:137-139 | the pattern decision for a name and for its lower-cased form is the same |
| ContentFilter.MatchSurvivesAffixes | mrpack-installer.py:139 | matching is by substring: a matched name is still matched with any text added before and after it |
| Verification.Check | mrpack-installer.py:105-120 | a payload is accepted exactly when its size matches (or no non-zero size is declared), its SHA-512 matches when one is declared, and otherwise its SHA-1 matches when one is declared; it is a size mismatch exactly when the size is wrong; a SHA-1 mismatch only happens when no SHA-512 is declared |
| Verification.Sha512TakesPrecedence | mrpack-installer.py:110-120 | with a SHA-512 digest declared, the declared SHA-1 digest has no effect on the verdict |
| Verification.UncheckedAcceptsAll | mrpack-installer.py:105-110 | without a declared size and hashes every payload is accepted (this is how the archive is fetched) |
| Manifest.FirstMrpack | mrpack-installer.py:246-250 | the index found is the first version file whose name ends in `.mrpack`; None exactly when there is none |
| Manifest.FindMrpack | mrpack-installer.py:246-250 | the loop with `break` returns the first `.mrpack` index, the same as `FirstMrpack` |
| Manifest.CountKind | mrpack-installer.py:286-305 | a skip counter never exceeds the number of index entries |
| Manifest.KindOf | mrpack-installer.py:295-305 | definition: other when the path does not start with `mods/`, client-only when the name is, queued otherwise; `QueuedMeans` states the queued case |
| Manifest.TaskOf | mrpack-installer.py:299-311 | definition: `(downloads[0], Path(path).name, fileSize, hashes)`; `QueueIsQueuedEntries` and `TaskNamesArePlain` state its properties |
| Manifest.Queue | mrpack-installer.py:286-311 | definition: `mods_to_download` in index order; `Classify`, `QueueIsQueuedEntries`, `PartitionSizes` and `ClientPatternNeverQueued` state its properties |
| Manifest.Classify | mrpack-installer.py:284-311 | the loop over `index["files"]` fails with `NoDownloadUrl` exactly when a queued entry has no download URL; otherwise it returns the queue of `(downloads[0], name, fileSize, hashes)` tasks in index order and the client-only and other counts |
| Manifest.StepPrefix | mrpack-installer.py:290-311 | one more index entry adds exactly one to the counter of its kind, and it adds its task to the queue exactly when it is queued |
| Manifest.PartitionSizes | mrpack-installer.py:286-311 | every entry is counted exactly once: other + client-only + queued = number of entries |
| Manifest.QueuedMeans | mrpack-installer.py:295-305 | an entry is queued exactly when its path starts with `mods/` and its name is not client-only |
| Manifest.QueueIsQueuedEntries | mrpack-installer.py:299-311 | every queued task comes from a queued entry, and every queued entry has its task in the queue |
| Manifest.ClientPatternNeverQueued | mrpack-installer.py:301-305 | no queued task carries a name that a client-only pattern matches, whatever the entry's tag |
| Downloads.Payload | mrpack-installer.py:101-124 | the payload offered for writing is the fetched data, and only when the check accepts it; every fetched and accepted payload is offered (whether it is written depends on `Writable`) |
| Downloads.Writable | mrpack-installer.py:121-126 | definition: `write_bytes` to `mods/<name>` succeeds unless the name is empty, `.`, `..` or an existing directory; `DirectoriesStay` relies on it |
| Downloads.Step | mrpack-installer.py:320-331 | definition: one task writes its accepted payload when it succeeds and changes nothing otherwise; `DownloadFile` is proved to do exactly this |
| Downloads.AfterDownloads | mrpack-installer.py:318-331 | definition: `mods/` after every task, one after the other; `DownloadAll`, `DirectoriesStay`, `UntouchedUnlessWritten`, `WrittenWasAccepted` and `LastSuccessWritten` state its properties |
| Downloads.LastSuccessWritten | mrpack-installer.py:318-331 | a task that succeeds, with no later task of the same name, leaves its accepted payload at its name |
| Downloads.Succeeded | mrpack-installer.py:325-331 | the success count never exceeds the number of tasks; it is the number of tasks when all succeed and 0 when none does |
| Downloads.DirectoriesStay | mrpack-installer.py:122-123 | downloads write only files: every directory of `mods/` is unchanged by the phase, and no new one appears |
| Downloads.SucceedsAfter | mrpack-installer.py:318-331 | whether a task succeeds does not depend on the tasks that ran before it |
| Downloads.UntouchedUnlessWritten | mrpack-installer.py:105-123 | a name whose payloads all fail the fetch or the check keeps its old entry: a rejected payload is never written |
| Downloads.WrittenWasAccepted | mrpack-installer.py:105-124 | every entry the phase changes holds the accepted payload of a task with that name |
| Downloads.SucceededAppend | mrpack-installer.py:325-331 | the count over two task lists together is the sum of their counts |
| Downloads.SucceededOrderFree | mrpack-installer.py:325-331 | any reordering of the tasks (`as_completed` order) gives the same number of successes |
| Cleanup.Cleaned | mrpack-installer.py:212-228 | `clean_mods` only deletes; it keeps every entry that is not a removable jar and removes every removable one; with `keep_preserved` every remaining jar file is preserved, and without it no jar file remains |
| Cleanup.Removable | mrpack-installer.py:218-222 | definition: a `.jar` file that `keep_preserved` does not spare; `Cleaned` removes exactly these |
| Cleanup.CleanIdempotent | mrpack-installer.py:212-223 | cleaning a cleaned directory changes nothing |
| Cleanup.DirectoriesKept | mrpack-installer.py:217-228 | `user/` and every other directory in `mods/` is kept as it was |
| Cleanup.CleanStep | mrpack-installer.py:217-223 | visiting one more entry removes it exactly when it is a removable jar |
| Overrides.ApplyRoot | mrpack-installer.py:340-373 | one existing override root: on success `mods/` is still a directory; the root is a directory without a `mods` file; names it does not ship keep their entries; a shipped directory replaces the instance's entry exactly; a shipped file lands where no directory stood, and is put inside the directory that stands at its name otherwise |
| Overrides.ApplyRootMods | mrpack-installer.py:344-358 | after one root, `mods/` holds the copied jar at each copied name, and every other name of `mods/` keeps its entry |
| Overrides.CopyClashes | mrpack-installer.py:355-356 | definition: copy2 (here and at line 372) into an existing directory fails when that directory already holds a directory of the same name |
| Overrides.Copied | mrpack-installer.py:355-356 | definition: copy2's result (here and at line 372), the file itself or the directory with the file put inside it; `ApplyRootMods` and `ServerJarWins` use it |
| Overrides.CopyJars | mrpack-installer.py:344-358 | definition: `mods/` after the non-client-only jars are copied; `CopyJarsInto` is proved equal to it, and `ApplyRootMods` states it name by name |
| Overrides.ItemClashes | mrpack-installer.py:361-373 | definition: rmtree of a file where a directory is copied, or a copy2 clash; `ApplyRoot`'s item step fails exactly when one holds |
| Overrides.CopyItems | mrpack-installer.py:361-373 | definition: every top-level entry but `mods` copied, a directory replacing its target; `ApplyRoot`, `DirectoryReplaced` and `CopyItemsStep` state its properties |
| Overrides.Merge | mrpack-installer.py:340-373 | after both roots `mods/` is still a directory |
| Overrides.ModsOnlyGainCopiedJars | mrpack-installer.py:344-358 | neither override root changes a name in `mods/` that a client-only pattern matches or that is not a `.jar` |
| Overrides.DirectoryReplaced | mrpack-installer.py:361-370 | a directory shipped by `server-overrides` ends up exactly that directory; one shipped only by `overrides` ends up exactly the `overrides` one |
| Overrides.ServerFileWins | mrpack-installer.py:340-373 | where neither the instance nor `overrides` has a directory at a top-level name, a file shipped there by `server-overrides` is what the instance ends up with |
| Overrides.ServerJarWins | mrpack-installer.py:340-358 | when both roots ship a copied jar `mods/<n>`, the second copy2 overwrites the first: `mods/<n>` ends up holding the `server-overrides` jar, provided no directory stood at `n` |
| Overrides.UnshippedUntouched | mrpack-installer.py:361-373 | a top-level name that neither root ships keeps its entry |
| Sync.LatestVersion | mrpack-installer.py:177-183 | the newest version is the first of the list; an unreachable registry gives `ApiUnavailable` and an empty list an error |
| Sync.ReadVersion | mrpack-installer.py:185-189 | reading fails exactly when `.modpack_version` is a directory; it is `None` exactly when the file is absent; a value read has no surrounding whitespace |
| Sync.WriteVersion | mrpack-installer.py:191-194 | writing succeeds exactly when `.modpack_version` is not a directory; it then holds the id, and every other entry is unchanged |
| Sync.VersionRoundTrip | mrpack-installer.py:185-194 | an id saved reads back stripped, and unchanged when it has no surrounding whitespace |
| Sync.EnsureModsDir | mrpack-installer.py:281 | `mkdir(exist_ok=True)` fails exactly when `mods` is a file, and otherwise leaves a `mods/` directory with the same entries and every other entry unchanged |
| Sync.ReadIndex | mrpack-installer.py:271-277 | definition: a missing `modrinth.index.json` gives `MissingIndex`, and an unreadable or malformed one gives `BadIndex`; `EarlyErrorsChangeNothing` covers both |
| Sync.InstallRun | mrpack-installer.py:230-392 | definition: `install(force)` as its result and its directory; `UpToDateIsNoop`, `ForceNeverSkips`, `EarlyErrorsChangeNothing`, `CompletedCommitsVersion` and `InstallIdempotent` state its properties |
| Sync.FullSync | mrpack-installer.py:245-392 | definition: from the choice of the `.mrpack` on; `FullSyncFacts` and `NoMrpackFailsEarly` state its properties |
| Sync.SyncTree | mrpack-installer.py:279-392 | definition: from `mkdir` on; `SyncTreeFacts`, `SummaryAccountsForEveryEntry` and `ClientOnlyNeverInstalled` state its properties |
| Sync.Deploy | mrpack-installer.py:284-331 | definition: classification, then downloads, then `Finish`; `Installer.ModpackInstaller.Deploy` is proved to follow it |
| Sync.Finish | mrpack-installer.py:333-392 | definition: the overrides, the version marker and the summary; `Installer.ModpackInstaller.Finish` is proved to follow it |
| Sync.UpToDateIsNoop | mrpack-installer.py:238-241 | when the stored id is the latest and `force` is off, install returns at once and changes nothing |
| Sync.SyncTreeFacts | mrpack-installer.py:279-392 | a sync that gets through completes and leaves `.modpack_version` holding the new id; one that fails before the clean-up leaves the instance unchanged; one that fails on a missing download URL after the clean-up leaves `.modpack_version` as it was |
| Sync.FullSyncFacts | mrpack-installer.py:245-392 | the commit and no-change facts of `SyncTreeFacts`, from the choice of the `.mrpack` onwards |
| Sync.ForceNeverSkips | mrpack-installer.py:238 | with `force` the install never answers "already installed" |
| Sync.EarlyErrorsChangeNothing | mrpack-installer.py:232-281 | every error before the clean-up (registry, version file, `.mrpack`, archive, index, a file called `mods`) leaves the instance as it was |
| Sync.NoMrpackFailsEarly | mrpack-installer.py:245-254 | a version without a `.mrpack` file fails with `NoMrpack` and changes nothing |
| Sync.CompletedCommitsVersion | mrpack-installer.py:380-381 | a completed install leaves `.modpack_version` holding the latest id, however many downloads failed |
| Sync.InstallIdempotent | mrpack-installer.py:230-241 | when the latest id has no surrounding whitespace, running install again from the same registry state, without `force`, returns "already installed" and changes nothing |
| Sync.SummaryAccountsForEveryEntry | mrpack-installer.py:284-331 | downloaded + failed = number of queued tasks, and downloaded + failed + client-skipped + other-skipped = number of index entries |
| Sync.ClientOnlyNeverInstalled | mrpack-installer.py:301-358 | a mod name that a client-only pattern matches gets into `mods/` neither from the index nor from either override root: `mods/` holds at that name what the clean-up left |
| Installer.ModpackInstaller.constructor | mrpack-installer.py:74-77 | the installer starts with the given configuration and instance directory |
| Installer.ModpackInstaller.SaveVersion | mrpack-installer.py:191-194 | the instance directory becomes what `WriteVersion` gives, and stays the same when writing fails |
| Installer.ModpackInstaller.CleanMods | mrpack-installer.py:212-228 | a missing `mods/` is left alone; a file called `mods` fails; otherwise `mods/` becomes `Cleaned` of its old entries |
| Installer.ModpackInstaller.DownloadFile | mrpack-installer.py:91-128 | called once `mods/` exists: returns true exactly when the fetch and the check succeed and `mods/<name>` can be written as a file; then exactly that file is written; otherwise nothing changes |
| Installer.ModpackInstaller.DownloadAll | mrpack-installer.py:313-331 | `mods/` ends as `AfterDownloads`; the success count is `Succeeded`; downloaded + failed = number of tasks |
| Installer.ModpackInstaller.CopyOverrideJars | mrpack-installer.py:344-358 | succeeds exactly when no jar copy clashes; then `mods/` becomes `CopyJars` and the counters are the numbers of copied and skipped jars |
| Installer.CopyJarsInto | mrpack-installer.py:346-358 | the loop over an override `mods/` succeeds exactly when no copy clashes, and then yields `CopyJars` of the old `mods/` with the copied and skipped counts |
| Installer.ModpackInstaller.CopyOverrideItems | mrpack-installer.py:360-373 | succeeds exactly when no item clashes, and then the instance directory becomes `CopyItems` |
| Installer.ModpackInstaller.ApplyOverrideRoot | mrpack-installer.py:340-373 | succeeds exactly when `ApplyRoot` does, with the same directory and counters |
| Installer.ModpackInstaller.MergeOverrides | mrpack-installer.py:333-373 | succeeds exactly when `Merge` does, with the same directory and summed counters |
| Installer.ModpackInstaller.Install | mrpack-installer.py:230-392 | returns the result of `InstallRun`, and leaves the directory `InstallRun` gives (unless an override conflict interrupted it) |
| Installer.ModpackInstaller.Synchronize | mrpack-installer.py:279-392 | from the `mkdir` on, it returns and leaves what `SyncTree` gives |
| Installer.ModpackInstaller.Deploy | mrpack-installer.py:284-331 | from the classification on, it returns and leaves what `Sync.Deploy` gives |
| Installer.ModpackInstaller.Finish | mrpack-installer.py:333-392 | from the overrides on, it returns and leaves what `Sync.Finish` gives |
| Installer.TaskNamesArePlain | mrpack-installer.py:299-321 | no queued file name contains `/`, so each download targets a file directly in `mods/` |
| Installer.JarsNone | mrpack-installer.py:346 | before the first override jar, nothing is copied, counted or clashing |
| Installer.JarCopied | mrpack-installer.py:355-357 | a copied jar adds one copy to `mods/` at its name, which is untouched so far; it adds one to the copied count, and it is the only new chance of a clash |
| Installer.JarSkipped | mrpack-installer.py:350-353 | a client-only jar adds one to the skipped count and changes nothing else |
| Installer.JarIgnored | mrpack-installer.py:347-348 | an entry that is not a jar file changes nothing |
| Installer.CopyFilesAdd | mrpack-installer.py:355-356 | one more copy2 into `mods/` puts that file at its name and adds only its own clash |
| Installer.JarsClashGrows | mrpack-installer.py:346-356 | a clash among some of the jars is a clash among all of them |
| Installer.CopyItemsStep | mrpack-installer.py:361-373 | one more top-level override entry is copied at its name, which is untouched so far, and adds only its own clash; `mods` is skipped |

## Left out

- **Outside services.** HTTP requests (`_api_request`, `urlopen`), timeouts and the `User-Agent` header are not modelled. The registry's answer and the fetcher are inputs, and a failed fetch is `None`.
- **Opaque helpers.** Zip extraction, JSON parsing, SHA-512 and SHA-1 are given functions. Malformed JSON or a bad zip is `None`.
- **Temporary directory.** The temporary directory and its removal are not modelled. Writing the archive to it is treated as a write that cannot fail.
- **Thread pool.** `ThreadPoolExecutor` concurrency becomes a sequential loop. `SucceededOrderFree` and `SucceedsAfter` show that the count does not depend on completion order. Two tasks with the same file name are not run concurrently: the later accepted one wins.
- **Permissions.** `_fix_permissions`, `Config.load`, `main`, argument parsing, `check_versions` and all printing are not part of this model.
- **File metadata.** `copy2` copies contents only: timestamps and permission bits are not part of the tree.
- **Symlinks.** Symlinks and special files are not modelled.
- **Case folding.** `str.lower` is modelled for ASCII letters only. Non-ASCII case folding is not modelled.
- **Bytes.** File contents are sequences of characters. Byte encoding (`read_text` decoding, `write_bytes`) is not modelled.
- **Missing keys.** A `KeyError` for a missing key is not modelled: the parsed index and version records always carry every field. This covers `files` (line 247), `version_number` (line 236), `id`, `filename`, `url`, `path` and `downloads` (line 308). Only an empty `downloads` list is modelled.
- **Other I/O failures.** Only a clash between a file and a directory makes a filesystem operation fail. Other failures are not modelled, such as a `PermissionError` from `unlink` (line 222), `rmtree`, `copytree` or `copy2` (lines 368-372) or `write_text` (line 193). Neither is a failed write that `_download_file` turns into `False` (line 126).
- **Path syntax.** Paths follow POSIX `pathlib`: only `/` separates components. On win32 (line 33) `Path(file_path).name` also splits at `\`, and that is not modelled.
- **Other path names.** A path under `mods/` whose name is `..` is modelled: the write fails. Other names that point outside `mods/` are not modelled, because `Path.name` never contains `/`.
- Installer.ModpackInstaller.Install: after an `OverrideConflict` the instance directory is not stated. The installer keeps everything copied before the failing copy. That includes the whole `overrides` pass when `server-overrides` fails, and every jar of a pass when one of its items fails. Within one pass it also depends on directory iteration order. The model's `InstallRun` (through `Merge` and `Sync.Finish`) gives the directory from before the override phase instead, so it is not the installer's state there.
- Installer.ModpackInstaller.MergeOverrides: on failure the resulting directory is not stated, for the same reason.
- Installer.ModpackInstaller.ApplyOverrideRoot: on failure the resulting directory is not stated, for the same reason.
- Installer.ModpackInstaller.CopyOverrideJars: on failure the resulting `mods/` is not stated, for the same reason.
- Installer.ModpackInstaller.CopyOverrideItems: on failure the resulting directory is not stated, for the same reason.
- Installer.CopyJarsInto: on failure the entries copied so far are returned but not stated, for the same reason.
- Installer.ModpackInstaller.Synchronize: after an `OverrideConflict` the directory is not stated, for the same reason.
- Installer.ModpackInstaller.Deploy: after an `OverrideConflict` the directory is not stated, for the same reason.
- Installer.ModpackInstaller.Finish: after an `OverrideConflict` the directory is not stated, for the same reason.
- Installer.ModpackInstaller.DownloadFile: requires `mods/` to exist and a name without `/`. `install` creates `mods/` (line 281) before any download. The installer only calls it with `Path(...).name`, as `TaskNamesArePlain` shows. The archive download into the temporary directory is modelled by `Payload` alone.
