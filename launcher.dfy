/** One invocation of `run-node` as a function of the disk it starts from
    and of what the outside world does: the fetched release index, the
    download, the archive's contents. It reads the lock, resolves the
    version, writes the lock when there was none, reconciles the store and
    the exposure, and ends either in `execv` of `.node/bin/node` with the
    forwarded arguments or in exit status 1 for one reason. */
module Launcher {
  import opened Basics
  import opened ReleaseIndex
  import opened Resolver
  import opened Extraction
  import opened Store

  /** Every way an invocation returns 1 before reaching `execv`. */
  datatype Failure =
    | IndexUnavailable   // fetching or parsing `/dist/index.json` threw
    | NoSuitableLts      // "No suitable Node.js LTS found."
    | DownloadError      // `https_download` threw
    | ExtractionError    // "Extraction failed"
    | BinaryNotFound     // "Node binary not found in .node/bin"
    | Usage              // fewer than two `argv` entries

  /** `execv(path, args)`, `args` ending in the null terminator (`None`); every
      `Fail` is exit status 1. */
  datatype Exit = Exec(path: string, args: seq<Option<string>>) | Fail(reason: Failure)

  /** `projectRoot / ".node" / "bin" / "node"`. */
  function ProjectBinary(project: string): string
  {
    project + "/.node/bin/node"
  }

  /** The `newArgs` vector: the project's binary in place of `argv[0]`, then
      `argv[1]` .. `argv[argc - 1]` in order, then the null terminator. */
  function Forwarded(bin: string, argv: seq<string>): (r: seq<Option<string>>)
    ensures |r| == (if argv == [] then 2 else |argv| + 1)
    ensures r[0] == Some(bin) && r[|r| - 1] == None
    ensures forall i :: 1 <= i < |argv| ==> r[i] == Some(argv[i])
  {
    [Some(bin)] + seq(if argv == [] then 0 else |argv| - 1, i requires 0 <= i < |argv| - 1 => Some(argv[i + 1])) + [None]
  }

  /** The strings of a null-free argument list. */
  function Unwrapped(args: seq<Option<string>>): seq<string>
    requires forall i :: 0 <= i < |args| ==> args[i].Some?
  {
    seq(|args|, i requires 0 <= i < |args| => args[i].value)
  }

  /** Nothing is lost, added or reordered: between the binary and the
      terminator lie exactly the caller's arguments after `argv[0]`, and
      the terminator is the only null. */
  lemma ForwardedRoundTrip(bin: string, argv: seq<string>)
    requires argv != []
    ensures var r := Forwarded(bin, argv);
            (forall i :: 0 <= i < |r| - 1 ==> r[i].Some?)
            && Unwrapped(r[1..|r| - 1]) == argv[1..]
  {
    var r := Forwarded(bin, argv);
    var mid := r[1..|r| - 1];
    assert forall i :: 0 <= i < |mid| ==> mid[i] == r[i + 1];
  }

  /** The loop that fills `newArgs`. */
  method BuildArgs(bin: string, argv: seq<string>) returns (newArgs: seq<Option<string>>)
    ensures newArgs == Forwarded(bin, argv)
  {
    newArgs := [Some(bin)];
    var i := 1;
    while i < |argv|
      invariant 1 <= i <= if argv == [] then 1 else |argv|
      invariant |newArgs| == i && newArgs[0] == Some(bin)
      invariant forall j :: 1 <= j < i ==> newArgs[j] == Some(argv[j])
    {
      newArgs := newArgs + [Some(argv[i])];
      i := i + 1;
    }
    newArgs := newArgs + [None];
    var f := Forwarded(bin, argv);
    assert |newArgs| == |f|;
    assert forall j :: 0 <= j < |f| ==> newArgs[j] == f[j];
  }

  /** What `fin >> cachedMajor` leaves: -1 when `.node/version.txt` does not
      exist, the number a lock file of this program holds, and `foreignRead`
      for anything else found under that name. */
  function LockRead(exposure: map<string, Node>, foreignRead: int): int
  {
    if VERSION_FILE !in exposure then NO_LOCK
    else match exposure[VERSION_FILE]
      case LockFile(k) => k
      case _ => foreignRead
  }

  /** How an invocation ends and what it leaves: the new disk, the version
      it settled on, the lock it wrote, and whether it downloaded or
      extracted. */
  datatype RunResult = RunResult(exit: Exit, disk: Disk, version: Option<string>, lockWritten: Option<int>,
                                 downloaded: bool, extracted: bool)

  /** An invocation from `project` with store `root`; `index` is `None` when
      fetching or parsing the release index throws. */
  function Run(d: Disk, root: string, project: string, index: Option<seq<Entry>>, argv: seq<string>,
               foreignRead: int, fetch: Fetch, archive: Archive): RunResult
  {
    if index.None? then RunResult(Fail(IndexUnavailable), d, None, None, false, false)
    else
      match Resolve(Readings(index.value), LockRead(d.exposure, foreignRead))
      case None => RunResult(Fail(NoSuitableLts), d, None, None, false, false)
      case Some(res) =>
        var d1 := if res.lockWrite.Some? then d.(exposure := d.exposure[VERSION_FILE := LockFile(res.lockWrite.value)]) else d;
        var rec := Reconcile(d1, root, res.version, fetch, archive);
        RunResult(StoreExit(rec.outcome, project, argv), rec.disk, Some(res.version), res.lockWrite,
                  rec.downloaded, rec.extracted)
  }

  /** How an invocation ends once the store has been reconciled: each store
      failure has its own message, and `execv` needs a ready binary and at
      least one argument after `argv[0]`. */
  function StoreExit(outcome: StoreOutcome, project: string, argv: seq<string>): (x: Exit)
    ensures x.Exec? <==> outcome == Ready && |argv| >= 2
    ensures x.Exec? ==> x == Exec(ProjectBinary(project), Forwarded(ProjectBinary(project), argv))
    ensures x == Fail(Usage) <==> outcome == Ready && |argv| < 2
    ensures x == Fail(DownloadError) <==> outcome == DownloadFailed
    ensures x == Fail(ExtractionError) <==> outcome == ExtractionFailed
    ensures x == Fail(BinaryNotFound) <==> outcome == BinaryMissing
    ensures x != Fail(IndexUnavailable) && x != Fail(NoSuitableLts)
  {
    match outcome
    case DownloadFailed => Fail(DownloadError)
    case ExtractionFailed => Fail(ExtractionError)
    case BinaryMissing => Fail(BinaryNotFound)
    case Ready =>
      if |argv| < 2 then Fail(Usage)
      else Exec(ProjectBinary(project), Forwarded(ProjectBinary(project), argv))
  }

  /** An invocation that finds no release changes nothing on disk, and
      neither does one whose index fetch fails. */
  lemma RunWithoutReleaseChangesNothing(d: Disk, root: string, project: string, index: Option<seq<Entry>>,
                                        argv: seq<string>, foreignRead: int, fetch: Fetch, archive: Archive)
    ensures var r := Run(d, root, project, index, argv, foreignRead, fetch, archive);
            (r.exit == Fail(IndexUnavailable) <==> index.None?)
            && (r.exit == Fail(NoSuitableLts) <==>
                  index.Some? && forall i :: 0 <= i < |index.value| ==> !Picks(Read(index.value[i]), LockRead(d.exposure, foreignRead)))
            && (r.exit == Fail(IndexUnavailable) || r.exit == Fail(NoSuitableLts) ==>
                  r.disk == d && r.lockWritten.None? && !r.downloaded && !r.extracted)
  {
    if index.Some? {
      var cm := LockRead(d.exposure, foreignRead);
      ResolveNoneIff(Readings(index.value), cm);
      assert forall i :: 0 <= i < |index.value| ==> Readings(index.value)[i] == Read(index.value[i]);
    }
  }

  /** The lock is written exactly when none was read, it holds the major of
      the version chosen, and a lock that was read is obeyed. */
  lemma RunHonoursLock(d: Disk, root: string, project: string, index: Option<seq<Entry>>,
                       argv: seq<string>, foreignRead: int, fetch: Fetch, archive: Archive)
    requires Run(d, root, project, index, argv, foreignRead, fetch, archive).version.Some?
    ensures var r := Run(d, root, project, index, argv, foreignRead, fetch, archive);
            var cm := LockRead(d.exposure, foreignRead);
            (r.lockWritten.Some? <==> cm == NO_LOCK)
            && (r.lockWritten.Some? ==> MajorOf(r.version.value) == r.lockWritten)
            && (cm != NO_LOCK ==> MajorOf(r.version.value) == Some(cm))
  {
    ResolveMajor(index.value, LockRead(d.exposure, foreignRead));
  }

  /** `execv` is reached exactly when a version was resolved, the archive
      was present or its download succeeded, `bin/node` was present or the
      extraction succeeded, the store then holds `bin/node` for
      that version and at least one argument follows `argv[0]`; it runs the
      project's binary, which the store holds under `versions/<v>/bin/node`,
      and `.node` links only into that version. */
  lemma {:induction false} RunExecIff(d: Disk, root: string, project: string, index: Option<seq<Entry>>,
                                      argv: seq<string>, foreignRead: int, fetch: Fetch, archive: Archive)
    ensures var r := Run(d, root, project, index, argv, foreignRead, fetch, archive);
            r.exit.Exec? <==> r.version.Some? && |argv| >= 2
                              && (ArchiveName(r.version.value) in d.archives || fetch.Fetched?)
                              && (PathExists(Tree(d, r.version.value), "bin/node")
                                  || Extract(archive, ExtractDir(root, r.version.value)).ok)
                              && PathExists(Tree(r.disk, r.version.value), "bin/node")
    ensures var r := Run(d, root, project, index, argv, foreignRead, fetch, archive);
            r.exit.Exec? ==>
              r.exit.path == ProjectBinary(project) && r.exit.args == Forwarded(ProjectBinary(project), argv)
              && forall n :: n in r.disk.exposure && n != VERSION_FILE ==> r.disk.exposure[n] == StoreLink(r.version.value)
  {
    var r := Run(d, root, project, index, argv, foreignRead, fetch, archive);
    if r.version.Some? {
      var res := Resolve(Readings(index.value), LockRead(d.exposure, foreignRead)).value;
      var d1 := if res.lockWrite.Some? then d.(exposure := d.exposure[VERSION_FILE := LockFile(res.lockWrite.value)]) else d;
      var rec := Reconcile(d1, root, res.version, fetch, archive);
      if rec.outcome == Ready || rec.outcome == BinaryMissing {
        ReconcileExposesOneVersion(d1, root, res.version, fetch, archive);
      }
    }
  }

  /** A run that got as far as `.node/bin/node` (it ended in `execv` or in
      the usage message) settles the project: the next run from the disk
      it left, with the same index and the same reading of a foreign lock,
      picks the same version, writes no lock, downloads and extracts
      nothing and leaves the disk as it found it, whatever the network and
      the archive would do and whatever arguments it gets. This needs the
      version's tree to hold no top-level `version.txt`, which would replace
      the lock with a link, and the lock not to be -1. */
  lemma RunSecondTime(d: Disk, root: string, project: string, index: Option<seq<Entry>>,
                      argv: seq<string>, foreignRead: int, fetch: Fetch, archive: Archive,
                      argv2: seq<string>, fetch2: Fetch, archive2: Archive)
    requires var r := Run(d, root, project, index, argv, foreignRead, fetch, archive);
             (r.exit.Exec? || r.exit == Fail(Usage))
             && r.lockWritten != Some(NO_LOCK)
             && VERSION_FILE !in TopNames(Tree(r.disk, r.version.value))
    ensures var r := Run(d, root, project, index, argv, foreignRead, fetch, archive);
            var r2 := Run(r.disk, root, project, index, argv2, foreignRead, fetch2, archive2);
            r2.disk == r.disk && r2.version == r.version && r2.lockWritten.None?
            && !r2.downloaded && !r2.extracted
            && r2.exit == (if |argv2| < 2 then Fail(Usage) else Exec(ProjectBinary(project), Forwarded(ProjectBinary(project), argv2)))
  {
    var r := Run(d, root, project, index, argv, foreignRead, fetch, archive);
    var cm := LockRead(d.exposure, foreignRead);
    var res := Resolve(Readings(index.value), cm).value;
    var d1 := if res.lockWrite.Some? then d.(exposure := d.exposure[VERSION_FILE := LockFile(res.lockWrite.value)]) else d;
    var v := res.version;
    assert Reconcile(d1, root, v, fetch, archive).outcome == Ready;
    ReconcileExposesOneVersion(d1, root, v, fetch, archive);
    var next := if res.lockWrite.Some? then res.lockWrite.value else cm;
    assert VERSION_FILE in r.disk.exposure;
    assert r.disk.exposure[VERSION_FILE] == d1.exposure[VERSION_FILE];
    assert LockRead(r.disk.exposure, foreignRead) == next;
    ResolveStable(Readings(index.value), cm);
    ReconcileIdempotent(d1, root, v, fetch, archive, fetch2, archive2);
  }
}
