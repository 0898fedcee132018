# run-node, modelled in Dafny

`run-node` is a launcher for a Node.js runtime that belongs to one project.
It fetches the release index from nodejs.org and picks a release. With no
lock, it takes the first entry that reads as LTS and records that release's
major number in `.node/version.txt`. With a lock, it takes the first LTS
entry of the locked major. It then makes sure the shared store under
`$HOME/.local/share/run-node` holds the release's archive (`archives/`) and
its extracted tree (`versions/<v>/`). Extraction drops the archive's top
folder. Next it rebuilds the project's `.node` directory as one symlink per
top-level entry of that tree, and finally `execv`s `.node/bin/node` with the
caller's arguments.

`main.cpp` and `run-node.cpp` hold the same program: lines 40-213 of
`main.cpp` are lines 129-302 of `run-node.cpp`. Rows below cite `main.cpp`.
`util/extract_tar_xz.cpp` is the extraction routine as a separate unit.

Modules, one file each:

* `Basics` (`basics.dfy`): `Option`, the C++ `int` range, and `std::string::find`.
* `ReleaseIndex` (`release_index.dfy`): one index entry is read as
  `ptree::get` and `std::stoi` read it. This covers the white-space and sign
  rules, the `int` range, and `substr(1, find('.', 1) - 1)`.
* `Resolver` (`resolver.dfy`): the resolution loop. It is a recursive
  specification `Resolve` plus the loop itself (`SelectVersion`), proved
  against it.
* `Extraction` (`extraction.dfy`): `extract_tar_xz`. The archive is given as
  the sequence of libarchive status codes it produces. The file holds a
  specification of both loops, the loops as methods proved against it, and
  the strip rule.
* `Store` (`store.dfy`): the store and `.node` as a value `Disk`, the
  reconciliation as a function `Reconcile`, and lemmas about repeated runs.
* `Launcher` (`launcher.dfy`): one whole invocation, `Run`. It covers the
  lock read and write, every exit path, and argument forwarding.
* `RunNode` (`run_node.dfy`): the same steps on a `FileSystem` object whose
  fields the methods update in place. `Download` ties `archives` to
  `ArchiveName` and the download's result; `ExtractVersion`,
  `CleanExposure` and `LinkVersion` tie their new state to `Extract`,
  `Cleaned` and `Linked`. `Reconcile` and `Invoke` tie theirs to
  `Store.Reconcile` and `Launcher.Run`.

### Behaviour as written

At these points the code does something other than what a reader of its
comments and messages would expect, and the model follows the code:

* **The version is picked by first match, not highest major.** With no lock,
  the first entry in index order that reads as LTS is chosen. Nothing
  compares majors, so an index that is not newest-first yields an older
  major.
* **Only the empty `lts` label means "not LTS".** The JSON literal `false`,
  which nodejs.org uses for current releases, becomes the text `false` in a
  property tree and so counts as LTS. `ReleaseIndex.ReadLtsIff` states this.
  `Resolver.SampleUnlocked` shows a current release being chosen.
* **There is no explicit version pin.** Every argument after `argv[0]` is
  forwarded to node.
* **An archive entry whose name has no `/` is kept under its own name; it
  is not skipped.** Only a name that strips to the empty string (the top
  folder `top/` itself) is skipped.
* **A top-level `version.txt` in the store tree replaces the lock.** The
  symlink loop does not skip `version.txt`, despite its comment, so such an
  entry replaces the lock file with a link. `Launcher.RunSecondTime`
  therefore requires that the tree holds no such entry.
* **A lock that reads as -1 is no lock.** The code uses -1 both as its "no
  lock" value and as a possible number read from the file, so a
  `version.txt` that reads as -1 behaves as if the file were absent.
* **Warnings do not fail an extraction.** An extraction succeeds as long as
  the archive opens and no header status is worse than `ARCHIVE_WARN`
  before `ARCHIVE_EOF`. This
  is true even if every write or data block failed. A failed extraction
  leaves what it wrote, and the next run does not download again. It
  extracts again only while `bin/node` is absent, since it checks
  `bin/node` and not an end marker. If `bin/node` was written before the
  failure, the partial tree is then used as complete: the next run rebuilds
  `.node` over it and can reach `execv` (`Store.ExtractionRetried`).
* **An entry name with `..` can escape the version directory.** The strip
  rule keeps `top/../../x` as `../../x`, and the disk writer is not asked to
  refuse `..` (`ARCHIVE_EXTRACT_SECURE_NODOTDOT` is not among its options).
  `Extraction.ExtractPathsPrefixed` therefore states only that each output
  path starts with the destination directory and a `/`, which is a test on
  the text.
* **A failed download may leave a partial archive.** That file is later
  treated as complete and is never fetched again.

## Model

| member | source | states |
|---|---|---|
| Basics.Find | main.cpp:124 | the result is the first index at or after `from` holding the character, and `None` exactly when none does |
| ReleaseIndex.SkipSpaces | main.cpp:124 | the result is a suffix of the input; every dropped character is white space and the first kept one is not |
| ReleaseIndex.DigitRun | main.cpp:124 | the length of the longest run of decimal digits at the start of the string |
| ReleaseIndex.SignedValue | main.cpp:124 | a value is produced only from a non-empty text and only within the `int` range |
| ReleaseIndex.SignedValueOf | main.cpp:124 | digits followed by a non-digit read as their decimal value, negated for a minus sign, and as `None` outside the `int` range |
| ReleaseIndex.Stoi | main.cpp:124 | `stoi` yields a value only for a non-empty string and only inside the `int` range |
| ReleaseIndex.StoiOfNumber | main.cpp:124 | `stoi` of white space, an optional sign, digits, then any text not starting with a digit is the signed decimal value of the digits when it fits an `int`, and throws when it does not |
| ReleaseIndex.StoiWithoutDigits | main.cpp:124 | `stoi` throws when no digit follows the white space and the optional sign |
| ReleaseIndex.MajorText | main.cpp:124 | `v.substr(1, v.find('.', 1) - 1)`: the text after the first character up to the first later `.`, or to the end when there is none |
| ReleaseIndex.MajorOf | main.cpp:124 | a major can be read only from a version of at least two characters |
| ReleaseIndex.Read | main.cpp:119-137 | an entry reads as LTS only with a non-empty label and a version whose major parses; it reads as not LTS exactly when the label is empty; anything else is the swallowed exception |
| ReleaseIndex.ReadLtsIff | main.cpp:121-124 | both directions: an entry is LTS iff its label is non-empty and its version's major parses, so the label `false` counts as LTS |
| ReleaseIndex.StoiOfDigits | main.cpp:124 | `stoi` of a digit string within range returns exactly its decimal value |
| ReleaseIndex.MajorOfRelease | main.cpp:123-124 | for `vA.B…` the major is the number A between the first character and the first dot |
| ReleaseIndex.ReadRelease | main.cpp:119-124 | an entry with a non-empty label and version `vA.B…` reads as LTS of major A |
| ReleaseIndex.MajorOfUndotted | main.cpp:124 | a version with no dot after its first character takes the whole remainder as the major |
| ReleaseIndex.MajorIgnoresLead | main.cpp:124 | the first byte of a version is never examined |
| Resolver.Readings | main.cpp:118-137 | the index with each entry replaced by what its `try` block makes of it, in index order |
| Resolver.Picks | main.cpp:121-135 | the loop stops at an entry exactly when it reads as LTS and either no lock was read or its major is the lock |
| Resolver.PickedAt | main.cpp:126-135 | stopping at an entry yields its version, and a lock write of its major exactly when no lock was read |
| Resolver.Resolve | main.cpp:118-138 | on the entries as read: a lock is written iff none was read |
| Resolver.ResolveIsFirstPick | main.cpp:118-138 | the result is determined by the first entry at which the loop stops |
| Resolver.ResolveNoneIff | main.cpp:118-143 | no release is found exactly when no entry is one the loop stops at |
| Resolver.ResolveHasFirstPick | main.cpp:118-138 | any result comes from an entry the loop stops at, and no earlier entry is one |
| Resolver.UnlockedTakesFirstLts | main.cpp:126-131 | without a lock the first LTS entry in index order wins and its major becomes the lock |
| Resolver.LockedTakesFirstOfMajor | main.cpp:132-135 | with lock L the first LTS entry of major L wins, whatever precedes it, and nothing is written |
| Resolver.ResolveStable | main.cpp:110-138 | resolving again under the lock the first resolution left gives the same release and writes nothing, unless the lock written is -1 |
| Resolver.ResolveMajor | main.cpp:118-135 | the chosen version is the `version` of an entry with a non-empty label; its major parses; under a lock it is the lock; a written lock is its major |
| Resolver.SampleUnlocked | main.cpp:118-131 | on a newest-first index whose current release is marked `false`, that current release and its major are chosen |
| Resolver.SampleLocked | main.cpp:132-135 | with lock 20 the first major-20 release is chosen over newer majors |
| Resolver.SelectVersion | main.cpp:110-143 | the loop returns the resolution of the specification; an empty version means none was found, and then nothing is written |
| Extraction.StripFirstComponent | util/extract_tar_xz.cpp:43-47 | the path name with everything through its first `/` removed, or unchanged when it has no `/` |
| Extraction.StripFirstComponentShape | util/extract_tar_xz.cpp:42-47 | everything up to and including the first `/` is removed; a name without `/` is unchanged |
| Extraction.StripTopFolder | util/extract_tar_xz.cpp:42-47 | `top/rest` becomes `rest` when `top` has no `/` |
| Extraction.BlocksWritten | util/extract_tar_xz.cpp:57-63 | the copy loop never writes more blocks than the entry has |
| Extraction.EntryOutput | util/extract_tar_xz.cpp:49-64 | a handed-over entry is named `destDir + "/"` plus its stripped name, counts as created when `archive_write_header` reports at least `ARCHIVE_WARN`, and has data copied only when that status is at least `ARCHIVE_OK` and the size is positive |
| Extraction.ExtractHeaders | util/extract_tar_xz.cpp:29-66 | the loop hands no more entries to the disk writer than there are headers |
| Extraction.ExtractPathsPrefixed | util/extract_tar_xz.cpp:42-50 | every path handed to the disk writer starts with the destination directory and `/` and has a non-empty remainder |
| Extraction.ExtractOutputsFromHeaders | util/extract_tar_xz.cpp:42-52 | each output is `destDir/` plus the stripped name of some header whose stripped name is not empty |
| Extraction.ExtractFailsIff | util/extract_tar_xz.cpp:29-40 | extraction fails iff a header reports worse than `ARCHIVE_WARN` before any `ARCHIVE_EOF` |
| Extraction.ExtractIgnoresData | util/extract_tar_xz.cpp:52-65 | the result depends on header statuses only and the output names on statuses and names only |
| Extraction.HeaderStatusSamples | util/extract_tar_xz.cpp:30-40 | a header status of `ARCHIVE_FAILED` or `ARCHIVE_FATAL` aborts the extraction; `ARCHIVE_RETRY` and `ARCHIVE_WARN` leave the result to the remaining headers |
| Extraction.EofEndsExtraction | util/extract_tar_xz.cpp:30-31 | nothing after an `ARCHIVE_EOF` header affects the result |
| Extraction.ExtractWrittenIsKept | util/extract_tar_xz.cpp:29-66 | the outputs are exactly the headers read before the loop stops whose stripped name is not empty, each as its output entry, in archive order |
| Extraction.Extract | util/extract_tar_xz.cpp:17-72 | an archive that does not open fails with no output; otherwise the header loop's result, with no more outputs than headers |
| Extraction.CopyBlocks | util/extract_tar_xz.cpp:53-64 | the data-block loop makes as many writes as the specification of the copy says |
| Extraction.HandOver | util/extract_tar_xz.cpp:42-65 | the loop body skips an entry whose stripped name is empty and otherwise hands over exactly the specified output |
| Extraction.ExtractTarXz | util/extract_tar_xz.cpp:7-73 | the C++ function's loops compute the specification's result and outputs |
| Store.ArchiveName | main.cpp:146 | the archive file name `node-<v>-linux-x64.tar.xz` |
| Store.RemoteTarget | main.cpp:147 | the request target `/dist/<v>/` followed by the archive name |
| Store.ExtractDir | main.cpp:150 | the version directory `<root>/versions/<v>` |
| Store.ArchiveNameRoundTrip | main.cpp:146 | the version can be recovered from the archive name |
| Store.ArchiveNameInjective | main.cpp:146-149 | two versions never share an archive file |
| Store.RemoteTargetFileName | main.cpp:146-147 | for a version without `/`, the request target's last `/`-separated segment is exactly the archive name |
| Store.RemoteTargetInjective | main.cpp:147 | distinct versions are requested from distinct targets |
| Store.PathExists | main.cpp:158 | `fs::exists` inside a version tree: the path itself was written, or something below it was |
| Store.FirstComponent | main.cpp:176-177 | the top-level name under which a relative path of the tree lives: the text before its first `/`, or the whole path |
| Store.TopNames | main.cpp:176-177 | the names `directory_iterator(extractDir)` lists: the non-empty first components of the tree's paths |
| Store.BinNodeUnderBin | main.cpp:176-188 | a tree holding `bin/node` lists `bin` at its top level |
| Store.Cleaned | main.cpp:169-173 | the cleanup keeps exactly the `version.txt` entry, if any, unchanged |
| Store.Linked | main.cpp:175-184 | the symlink loop adds the listed names, each a link into v, and leaves every other entry as it was |
| Store.LinkedStep | main.cpp:176-184 | linking one more name extends the set of linked names by it |
| Store.ReplaceEntry | main.cpp:180-183 | removing an entry and then creating it is the same as setting it |
| Store.Rebuilt | main.cpp:169-184 | `.node` after the cleanup and then the symlink loop over the top-level names of the version's tree |
| Store.RebuiltExactly | main.cpp:169-184 | after the rebuild `.node` holds one link into v per top-level entry and at most `version.txt` besides, kept as it was unless the tree has its name |
| Store.RebuiltIdempotent | main.cpp:169-184 | rebuilding twice for the same tree is rebuilding once |
| Store.BinaryExposed | main.cpp:186-187 | `.node/bin/node` exists: `.node/bin` is a link into the store whose version tree holds `bin/node` |
| Store.ExposedIffStored | main.cpp:176-190 | after the rebuild `.node/bin/node` exists iff `versions/<v>/bin/node` does |
| Store.Created | main.cpp:159-161 | the relative paths under the version directory of the entries the disk writer created |
| Store.Reconcile | main.cpp:146-190 | download when the archive is absent, extract when `bin/node` is absent, each failure ending the run, then cleanup, symlinks and the binary check |
| Store.ReconcileSkips | main.cpp:153-166 | the download runs iff the archive is absent; the extraction runs iff the download did not fail and `bin/node` is absent |
| Store.ReconcileAdditive | main.cpp:153-184 | no archive and no extracted path is ever removed |
| Store.ReconcileExposesOneVersion | main.cpp:153-190 | after a rebuild `.node` links only into v, one link per top-level entry, plus the old `version.txt`; Ready iff the store holds `bin/node` |
| Store.ReconcileIdempotent | main.cpp:153-190 | a second reconciliation after a Ready one downloads nothing, extracts nothing and changes nothing, whatever the network and archive do |
| Store.ExtractionRetried | main.cpp:158-164 | after a failed extraction the next run does not download and extracts iff `bin/node` is still absent |
| Launcher.Forwarded | main.cpp:197-201 | the vector is the project binary, then `argv[1..]` in order, then the null terminator |
| Launcher.ForwardedRoundTrip | main.cpp:197-201 | between the binary and the terminator lie exactly the caller's arguments after `argv[0]`, and the terminator is the only null |
| Launcher.BuildArgs | main.cpp:197-201 | the loop builds exactly the forwarded vector |
| Launcher.ProjectBinary | main.cpp:186 | the path `<project>/.node/bin/node` that is checked and run |
| Launcher.LockRead | main.cpp:110-116 | -1 without `version.txt`, the number of a lock this program wrote, and the given reading for anything else |
| Launcher.Run | main.cpp:105-204 | index fetch, lock read, resolution, lock write, reconciliation and the exit, in the order of the C++ `main` |
| Launcher.StoreExit | main.cpp:186-204 | each store outcome maps to its own exit; `execv` iff the binary is ready and there is at least one argument |
| Launcher.RunWithoutReleaseChangesNothing | main.cpp:105-143 | an invocation fails with "no suitable LTS" iff no entry qualifies; that failure, and a failed index fetch, leave the disk untouched |
| Launcher.RunHonoursLock | main.cpp:110-135 | the lock is written iff none was read, it holds the chosen major, and a lock that was read is obeyed |
| Launcher.RunExecIff | main.cpp:153-204 | `execv` happens iff a version v was resolved, the archive was present or its download succeeded, `bin/node` was present or the extraction of the archive succeeded, the store holds `bin/node` after reconciliation and arguments were given; it runs the project binary, and `.node` links only into the chosen version |
| Launcher.RunSecondTime | main.cpp:110-190 | a run that reached the binary settles the project, unless the lock written is -1 or the version's tree has a top-level `version.txt`: the next run picks the same version, writes no lock, downloads and extracts nothing and leaves the disk as it was |
| RunNode.FileSystem.Download | main.cpp:153-156 | the archive is present after a successful download, and after a failed one exactly when a partial file was left |
| RunNode.FileSystem.ExtractVersion | main.cpp:158-164 | the version directory gains exactly the entries the extraction created, and the result is the extraction's |
| RunNode.Cleaning | main.cpp:169-173 | the cleanup loop keeps exactly the `version.txt` entry, unchanged |
| RunNode.Linking | main.cpp:175-184 | the symlink loop yields the old entries with every listed name set to a link into v |
| RunNode.FileSystem.CleanExposure | main.cpp:169-173 | `.node` keeps only `version.txt` |
| RunNode.FileSystem.LinkVersion | main.cpp:175-184 | `.node` gets one link per top-level entry of the version's tree, replacing same-named entries |
| RunNode.FileSystem.ExposedBinaryExists | main.cpp:186-190 | true iff `.node/bin` is a store link whose target holds `bin/node` |
| RunNode.FileSystem.Reconcile | main.cpp:153-190 | the in-place steps reach the outcome and disk of `Store.Reconcile` |
| RunNode.FileSystem.Invoke | main.cpp:110-204 | the in-place invocation exits and leaves the disk as `Launcher.Run` says |

## Left out

- Text encoding is not modelled. A `string` stands for the bytes of a `std::string`, one `char` per byte. The version and path names of the index and the archive are taken to be ASCII, as those of nodejs.org are. A version whose first character takes several bytes in UTF-8 reads differently in the C++: `substr(1, …)` drops only one byte, and `stoi` then sees a stray byte and throws. So `ReleaseIndex.MajorIgnoresLead`, `MajorOfRelease`, `ReadRelease` and `MajorOfUndotted` hold of the C++ only for a one-byte lead.
- HTTPS transport (`https_get_string` and `https_download`) is not modelled. The fetched index is a parameter, `None` when fetching or parsing throws. The download result is a parameter too: it succeeded, or it failed after perhaps leaving a partial file. The HTTP status is never checked, so an error page saved as the archive counts as `Fetched`. Its contents then show up only in the archive parameter.
- JSON parsing is not modelled. The index is the list of its objects, each with the text of its `lts` and `version` fields, `None` when a field is missing.
- libarchive is not modelled. An archive is the sequence of status codes its reads and writes return. An entry counts as created on disk when `archive_write_header` returns at least `ARCHIVE_WARN`, which is an assumption about the disk writer. File contents, permissions, times and ACLs are not modelled.
- Path normalisation is not modelled: `..`, absolute entry names, and version strings containing `/`. A version tree is a set of relative paths, and a path exists if it or something below it is in the set.
- The text of `version.txt` is not parsed. A lock file this program wrote reads back as its number. Anything else under that name reads as the parameter `foreignRead`, which is what `fin >> cachedMajor` leaves.
- Writing the lock through a `version.txt` that is a link or a directory is left out. The model replaces the entry; the C++ `ofstream` follows a link.
- Failures of `create_directories`, `remove_all` and `create_symlink` are left out. In the C++ they throw and exit with status 1. The initial `create_directories` calls are also left out, since they only ensure the directories exist.
- The failure of `execv` itself (`perror`, status 1) is left out. `Exec` is the attempt.
- Console output, `getenv("HOME")` and `fs::current_path()` are left out. The last two are the constants `root` and `project`.
- Directory iteration order is left out. The loops pick names from sets, since their final result does not depend on the order.
- Concurrent invocations sharing a store are left out.
