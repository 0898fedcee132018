/** The C++ `main` as a sequence of steps that change the file system in
    place: the store's `archives/` and `versions/` directories and the
    project's `.node` directory are fields of one object, and each step is
    a method whose new state is tied to the value-level definitions of the
    `Store` and `Launcher` modules. */
module RunNode {
  import opened Basics
  import opened ReleaseIndex
  import opened Resolver
  import opened Extraction
  import opened Store
  import opened Launcher

  /** The loop of the cleanup over the entries of `.node`. */
  method Cleaning(e: map<string, Node>) returns (kept: map<string, Node>)
    ensures kept == Cleaned(e)
  {
    kept := e;
    var pending := e.Keys;
    while pending != {}
      invariant pending <= e.Keys
      invariant kept == map k | k in e && (k in pending || k == VERSION_FILE) :: e[k]
      decreases pending
    {
      var name :| name in pending;
      if name != VERSION_FILE {
        kept := map k | k in kept && k != name :: kept[k];
      }
      pending := pending - {name};
    }
  }

  /** The loop of the symlink step over the top-level names of a tree. */
  method Linking(e: map<string, Node>, v: string, names: set<string>) returns (linked: map<string, Node>)
    ensures linked == Linked(e, v, names)
  {
    linked := e;
    var pending := names;
    while pending != {}
      invariant pending <= names
      invariant linked == Linked(e, v, names - pending)
      decreases pending
    {
      var name :| name in pending;
      ghost var before := linked;
      if name in linked {
        linked := map k | k in linked && k != name :: linked[k];
        ReplaceEntry(before, name, StoreLink(v));
      }
      linked := linked[name := StoreLink(v)];
      LinkedStep(e, v, names - pending, name);
      assert names - (pending - {name}) == (names - pending) + {name};
      pending := pending - {name};
    }
  }

  class FileSystem {
    /** `$HOME/.local/share/run-node`. */
    const root: string
    /** `fs::current_path()`. */
    const project: string
    var archives: set<string>
    var versions: map<string, set<string>>
    var exposure: map<string, Node>

    function State(): Disk
      reads this
    {
      Disk(archives, versions, exposure)
    }

    constructor (root: string, project: string, d: Disk)
      ensures this.root == root && this.project == project && State() == d
    {
      this.root := root;
      this.project := project;
      archives, versions, exposure := d.archives, d.versions, d.exposure;
    }

    /** `https_download` into `archives/<filename>`: the file is opened for
        writing before the transfer, so a failed transfer may leave it. */
    method Download(v: string, fetch: Fetch) returns (ok: bool)
      modifies this
      ensures ok <==> fetch.Fetched?
      ensures archives == old(archives) + (if ok || fetch.partialLeft then {ArchiveName(v)} else {})
      ensures versions == old(versions) && exposure == old(exposure)
    {
      ok := fetch.Fetched?;
      if ok || fetch.partialLeft {
        archives := archives + {ArchiveName(v)};
      }
    }

    /** `fs::create_directories(extractDir)` and `extract_tar_xz` into it;
        the entries the disk writer created become part of the tree. */
    method ExtractVersion(v: string, archive: Archive) returns (ok: bool)
      modifies this
      ensures var result := Extract(archive, ExtractDir(root, v));
              ok == result.ok
              && versions == old(versions)[v := Tree(old(State()), v) + Created(ExtractDir(root, v), result.written)]
      ensures archives == old(archives) && exposure == old(exposure)
    {
      var dir := ExtractDir(root, v);
      var written;
      ok, written := ExtractTarXz(archive, dir);
      var tree := if v in versions then versions[v] else {};
      versions := versions[v := tree + Created(dir, written)];
    }

    /** The cleanup loop over `.node`: everything except `version.txt` is
        removed (`fs::remove_all` on a link removes the link only). */
    method CleanExposure()
      modifies this
      ensures exposure == Cleaned(old(exposure))
      ensures archives == old(archives) && versions == old(versions)
    {
      exposure := Cleaning(exposure);
    }

    /** The symlink loop over `versions/<v>`: a link per top-level entry,
        after removing whatever had its name. */
    method LinkVersion(v: string)
      modifies this
      ensures exposure == Linked(old(exposure), v, TopNames(Tree(old(State()), v)))
      ensures archives == old(archives) && versions == old(versions)
    {
      exposure := Linking(exposure, v, TopNames(if v in versions then versions[v] else {}));
    }

    /** `fs::exists(projectNodeDir / "bin" / "node")`. */
    method ExposedBinaryExists() returns (found: bool)
      ensures found <==> BinaryExposed(State())
    {
      found := false;
      if "bin" in exposure {
        match exposure["bin"]
        case StoreLink(target) =>
          var tree := if target in versions then versions[target] else {};
          found := PathExists(tree, "bin/node");
        case _ =>
      }
    }

    /** Download, extraction, cleanup, symlinks and the final check, in the
        order of the C++ `main`. */
    method Reconcile(v: string, fetch: Fetch, archive: Archive)
      returns (outcome: StoreOutcome, downloaded: bool, extracted: bool)
      modifies this
      ensures Reconciled(outcome, State(), downloaded, extracted) == Store.Reconcile(old(State()), root, v, fetch, archive)
    {
      downloaded, extracted := false, false;
      if ArchiveName(v) !in archives {
        downloaded := true;
        var ok := Download(v, fetch);
        if !ok {
          return DownloadFailed, downloaded, extracted;
        }
      }
      assert archives == old(archives) + {ArchiveName(v)};
      var tree := if v in versions then versions[v] else {};
      if !PathExists(tree, "bin/node") {
        extracted := true;
        var ok := ExtractVersion(v, archive);
        if !ok {
          return ExtractionFailed, downloaded, extracted;
        }
      }
      CleanExposure();
      LinkVersion(v);
      var found := ExposedBinaryExists();
      outcome := if found then Ready else BinaryMissing;
    }

    /** One invocation: read the lock, resolve, write the lock, reconcile,
        build the argument vector. */
    method Invoke(index: Option<seq<Entry>>, argv: seq<string>, foreignRead: int, fetch: Fetch, archive: Archive)
      returns (exit: Exit)
      modifies this
      ensures var r := Run(old(State()), root, project, index, argv, foreignRead, fetch, archive);
              exit == r.exit && State() == r.disk
    {
      if index.None? {
        return Fail(IndexUnavailable);
      }
      var cachedMajor := NO_LOCK;
      if VERSION_FILE in exposure {
        cachedMajor := match exposure[VERSION_FILE] case LockFile(k) => k case _ => foreignRead;
      }
      var targetVersion, written := SelectVersion(index.value, cachedMajor);
      if targetVersion == [] {
        return Fail(NoSuitableLts);
      }
      if written.Some? {
        exposure := exposure[VERSION_FILE := LockFile(written.value)];
      }
      var outcome, _, _ := Reconcile(targetVersion, fetch, archive);
      match outcome {
        case DownloadFailed => exit := Fail(DownloadError);
        case ExtractionFailed => exit := Fail(ExtractionError);
        case BinaryMissing => exit := Fail(BinaryNotFound);
        case Ready =>
          if |argv| < 2 {
            exit := Fail(Usage);
          } else {
            var bin := ProjectBinary(project);
            var newArgs := BuildArgs(bin, argv);
            exit := Exec(bin, newArgs);
          }
      }
    }
  }
}
