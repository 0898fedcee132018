/** The shared store under `$HOME/.local/share/run-node` and the project's
    `.node` exposure directory, as values, and the reconciliation the C++
    `main` runs once the version is known: download the archive if it is
    absent, extract it if `bin/node` is absent, rebuild `.node` as one
    symlink per top-level entry of the version's tree, then check that
    `.node/bin/node` exists. */
module Store {
  import opened Basics
  import opened Extraction

  /** Name of the lock file inside `.node`. */
  const VERSION_FILE: string := "version.txt"

  /** `"node-" + v + "-linux-x64.tar.xz"`. */
  function ArchiveName(v: string): string
  {
    "node-" + v + "-linux-x64.tar.xz"
  }

  /** The request target of the download, `"/dist/" + v + "/" + filename`. */
  function RemoteTarget(v: string): string
  {
    "/dist/" + v + "/" + ArchiveName(v)
  }

  function ExtractDir(root: string, v: string): string
  {
    root + "/versions/" + v
  }

  /** The version an archive name was made from, if it has that shape. */
  function VersionOfArchive(name: string): Option<string>
  {
    var pre, post := "node-", "-linux-x64.tar.xz";
    if |name| >= |pre| + |post| && name[..|pre|] == pre && name[|name| - |post|..] == post
    then Some(name[|pre|..|name| - |post|])
    else None
  }

  /** Archive names determine their version, so two versions never share an
      archive in the store. */
  lemma ArchiveNameRoundTrip(v: string)
    ensures VersionOfArchive(ArchiveName(v)) == Some(v)
  {
    var name := ArchiveName(v);
    assert name[..5] == "node-";
    assert name[|name| - 17..] == "-linux-x64.tar.xz";
    assert name[5..|name| - 17] == v;
  }

  lemma ArchiveNameInjective(v: string, w: string)
    requires ArchiveName(v) == ArchiveName(w)
    ensures v == w
  {
    ArchiveNameRoundTrip(v);
    ArchiveNameRoundTrip(w);
  }

  /** For a version without `/`, the text after the last `/` of the request
      target is the archive name, so the download is saved under the name
      the server serves it as. */
  lemma RemoteTargetFileName(v: string)
    requires '/' !in v
    ensures var t, name := RemoteTarget(v), ArchiveName(v);
            t[|t| - |name| - 1] == '/' && t[|t| - |name|..] == name && '/' !in name
  {
    var name := ArchiveName(v);
    forall j | 0 <= j < |name| ensures name[j] != '/' {
      if 5 <= j < 5 + |v| { assert name[j] == v[j - 5]; }
    }
  }

  /** Distinct versions are fetched from distinct request targets. */
  lemma RemoteTargetInjective(v: string, w: string)
    requires RemoteTarget(v) == RemoteTarget(w)
    ensures v == w
  {
    var t := RemoteTarget(v);
    assert |t| == 2 * |v| + 29 && |RemoteTarget(w)| == 2 * |w| + 29;
    assert t[6..6 + |v|] == v;
    assert RemoteTarget(w)[6..6 + |w|] == w;
  }

  /** An entry of `.node`: the lock file this program writes, a symlink to
      `versions/<version>/<its own name>`, or anything else. */
  datatype Node = LockFile(major: int) | StoreLink(version: string) | Foreign

  /** The file system as the reconciler sees it: the archive names under
      `archives/`; per version directory under `versions/`, the relative
      paths it holds; and the entries of `.node` by name. */
  datatype Disk = Disk(archives: set<string>, versions: map<string, set<string>>, exposure: map<string, Node>)

  function Tree(d: Disk, v: string): set<string>
  {
    if v in d.versions then d.versions[v] else {}
  }

  /** `fs::exists` for a relative path inside a tree: the path was written
      itself, or something below it was. */
  predicate PathExists(tree: set<string>, p: string)
  {
    exists q :: q in tree && (q == p || p + "/" <= q)
  }

  /** The top-level name a relative path lives under. */
  function FirstComponent(q: string): string
  {
    match Find(q, '/', 0)
    case Some(k) => q[..k]
    case None => q
  }

  /** The entries `fs::directory_iterator` lists at the top of a tree. */
  function TopNames(tree: set<string>): set<string>
  {
    set q | q in tree && FirstComponent(q) != [] :: FirstComponent(q)
  }

  lemma FirstComponentOfBinNode(q: string)
    requires q == "bin/node" || "bin/node/" <= q
    ensures FirstComponent(q) == "bin"
  {
    assert q[0] == 'b' && q[1] == 'i' && q[2] == 'n' && q[3] == '/';
    assert Find(q, '/', 0) == Some(3);
    assert q[..3] == "bin";
  }

  /** If a tree holds `bin/node`, its top level lists `bin`. */
  lemma BinNodeUnderBin(tree: set<string>)
    requires PathExists(tree, "bin/node")
    ensures "bin" in TopNames(tree)
  {
    var q :| q in tree && (q == "bin/node" || "bin/node/" <= q);
    FirstComponentOfBinNode(q);
  }

  /** The cleanup loop: every entry but `version.txt` is removed. */
  function Cleaned(e: map<string, Node>): (kept: map<string, Node>)
    ensures kept.Keys == e.Keys * {VERSION_FILE}
    ensures forall k :: k in kept ==> kept[k] == e[k]
  {
    map k | k in e && k == VERSION_FILE :: e[k]
  }

  /** The symlink loop: each name gets a link into `versions/<v>/`,
      replacing whatever had that name. */
  function Linked(e: map<string, Node>, v: string, names: set<string>): (linked: map<string, Node>)
    ensures linked.Keys == e.Keys + names
    ensures forall n :: n in names ==> linked[n] == StoreLink(v)
    ensures forall k :: k in e && k !in names ==> linked[k] == e[k]
  {
    e + map n | n in names :: StoreLink(v)
  }

  /** Linking one more name. */
  lemma LinkedStep(e: map<string, Node>, v: string, done: set<string>, n: string)
    ensures Linked(e, v, done)[n := StoreLink(v)] == Linked(e, v, done + {n})
  {
    var a, b := Linked(e, v, done)[n := StoreLink(v)], Linked(e, v, done + {n});
    assert a.Keys == b.Keys;
    forall k | k in a.Keys ensures a[k] == b[k] {
    }
  }

  /** Removing a name and then setting it is setting it. */
  lemma ReplaceEntry(e: map<string, Node>, n: string, x: Node)
    ensures (map k | k in e && k != n :: e[k])[n := x] == e[n := x]
  {
    var a := (map k | k in e && k != n :: e[k])[n := x];
    assert a.Keys == e[n := x].Keys;
  }

  function Rebuilt(e: map<string, Node>, v: string, tree: set<string>): map<string, Node>
  {
    Linked(Cleaned(e), v, TopNames(tree))
  }

  /** After the rebuild `.node` holds exactly one link per top-level entry of
      the tree, all into version `v`, plus `version.txt` as it was if it was
      there and the tree has no top-level entry of that name. */
  lemma RebuiltExactly(e: map<string, Node>, v: string, tree: set<string>)
    ensures Rebuilt(e, v, tree).Keys == TopNames(tree) + (e.Keys * {VERSION_FILE})
    ensures forall n :: n in TopNames(tree) ==> Rebuilt(e, v, tree)[n] == StoreLink(v)
    ensures VERSION_FILE in e && VERSION_FILE !in TopNames(tree) ==>
              Rebuilt(e, v, tree)[VERSION_FILE] == e[VERSION_FILE]
  {
  }

  /** Rebuilding twice for the same tree is rebuilding once. */
  lemma RebuiltIdempotent(e: map<string, Node>, v: string, tree: set<string>)
    ensures Rebuilt(Rebuilt(e, v, tree), v, tree) == Rebuilt(e, v, tree)
  {
    var once := Rebuilt(e, v, tree);
    var twice := Rebuilt(once, v, tree);
    RebuiltExactly(e, v, tree);
    RebuiltExactly(once, v, tree);
    assert twice.Keys == once.Keys;
    forall n | n in once.Keys ensures twice[n] == once[n] {
    }
  }

  /** `fs::exists(".node/bin/node")`: `.node/bin` is a link into the store
      whose target holds `bin/node`. A foreign `bin` is not followed. */
  predicate BinaryExposed(d: Disk)
  {
    "bin" in d.exposure && d.exposure["bin"].StoreLink?
    && PathExists(Tree(d, d.exposure["bin"].version), "bin/node")
  }

  /** Once `.node` is rebuilt for `v`, `.node/bin/node` exists exactly when
      the store's `versions/<v>/bin/node` does. */
  lemma ExposedIffStored(d: Disk, e: map<string, Node>, v: string)
    requires d.exposure == Rebuilt(e, v, Tree(d, v))
    ensures BinaryExposed(d) <==> PathExists(Tree(d, v), "bin/node")
  {
    RebuiltExactly(e, v, Tree(d, v));
    if PathExists(Tree(d, v), "bin/node") {
      BinNodeUnderBin(Tree(d, v));
    }
  }

  /** What the download leaves when it throws: nothing, or an incomplete
      file under the archive's name. */
  datatype Fetch = Fetched | FetchFailed(partialLeft: bool)

  datatype StoreOutcome = Ready | DownloadFailed | ExtractionFailed | BinaryMissing

  /** The outcome, the new disk, and whether the download and the
      extraction ran. */
  datatype Reconciled = Reconciled(outcome: StoreOutcome, disk: Disk, downloaded: bool, extracted: bool)

  /** The relative paths a run of the extraction created under `dir`. */
  function Created(dir: string, written: seq<Written>): set<string>
  {
    set w | w in written && w.created && dir + "/" <= w.path :: w.path[|dir| + 1..]
  }

  /** Reconciliation of version `v` against disk `d`; `fetch` is what the
      download does if it runs, `archive` what reading the archive yields. */
  function Reconcile(d: Disk, root: string, v: string, fetch: Fetch, archive: Archive): Reconciled
  {
    var name := ArchiveName(v);
    var download := name !in d.archives;
    if download && fetch.FetchFailed? then
      Reconciled(DownloadFailed, d.(archives := if fetch.partialLeft then d.archives + {name} else d.archives), true, false)
    else
      var d1 := d.(archives := d.archives + {name});
      var extract := !PathExists(Tree(d1, v), "bin/node");
      var dir := ExtractDir(root, v);
      var result := Extract(archive, dir);
      var d2 := if extract then d1.(versions := d1.versions[v := Tree(d1, v) + Created(dir, result.written)]) else d1;
      if extract && !result.ok then Reconciled(ExtractionFailed, d2, download, true)
      else
        var d3 := d2.(exposure := Rebuilt(d2.exposure, v, Tree(d2, v)));
        Reconciled(if BinaryExposed(d3) then Ready else BinaryMissing, d3, download, extract)
  }

  /** The download runs exactly when the archive is absent, and the
      extraction exactly when it did not fail and `bin/node` is absent. */
  lemma ReconcileSkips(d: Disk, root: string, v: string, fetch: Fetch, archive: Archive)
    ensures var r := Reconcile(d, root, v, fetch, archive);
            (r.downloaded <==> ArchiveName(v) !in d.archives)
            && (r.extracted <==> r.outcome != DownloadFailed && !PathExists(Tree(d, v), "bin/node"))
  {
  }

  /** The store only grows: no archive and no extracted path is ever removed. */
  lemma ReconcileAdditive(d: Disk, root: string, v: string, fetch: Fetch, archive: Archive)
    ensures var r := Reconcile(d, root, v, fetch, archive);
            d.archives <= r.disk.archives
            && forall u :: u in d.versions ==> u in r.disk.versions && d.versions[u] <= r.disk.versions[u]
  {
  }

  /** Once the exposure is rebuilt (the outcome is Ready or BinaryMissing),
      `.node` holds one link per top-level entry of `versions/<v>/`, all
      into `v`, and at most `version.txt` besides: nothing from another
      version survives. Ready means `versions/<v>/bin/node` exists. */
  lemma ReconcileExposesOneVersion(d: Disk, root: string, v: string, fetch: Fetch, archive: Archive)
    requires var r := Reconcile(d, root, v, fetch, archive); r.outcome == Ready || r.outcome == BinaryMissing
    ensures var r := Reconcile(d, root, v, fetch, archive);
            var names := TopNames(Tree(r.disk, v));
            r.disk.exposure.Keys == names + (d.exposure.Keys * {VERSION_FILE})
            && (forall n :: n in r.disk.exposure && n != VERSION_FILE ==> r.disk.exposure[n] == StoreLink(v))
            && (VERSION_FILE in d.exposure && VERSION_FILE !in names ==>
                  r.disk.exposure[VERSION_FILE] == d.exposure[VERSION_FILE])
            && (r.outcome == Ready <==> PathExists(Tree(r.disk, v), "bin/node"))
  {
    var r := Reconcile(d, root, v, fetch, archive);
    var d2 := r.disk.(exposure := d.exposure);
    assert Tree(r.disk, v) == Tree(d2, v);
    RebuiltExactly(d.exposure, v, Tree(r.disk, v));
    ExposedIffStored(r.disk, d.exposure, v);
  }

  /** A second reconciliation after a Ready one, with the disk unchanged in
      between, downloads nothing, extracts nothing and changes nothing,
      whatever the network and the archive would have done. */
  lemma ReconcileIdempotent(d: Disk, root: string, v: string, fetch: Fetch, archive: Archive,
                            fetch2: Fetch, archive2: Archive)
    requires Reconcile(d, root, v, fetch, archive).outcome == Ready
    ensures var d' := Reconcile(d, root, v, fetch, archive).disk;
            Reconcile(d', root, v, fetch2, archive2) == Reconciled(Ready, d', false, false)
  {
    var r := Reconcile(d, root, v, fetch, archive);
    var d' := r.disk;
    ReconcileExposesOneVersion(d, root, v, fetch, archive);
    assert ArchiveName(v) in d'.archives;
    assert d'.(archives := d'.archives + {ArchiveName(v)}) == d';
    var d2 := d'.(exposure := d.exposure);
    RebuiltIdempotent(d.exposure, v, Tree(d', v));
  }

  /** A failed extraction leaves what it wrote; the next reconciliation
      extracts again, without downloading, unless `bin/node` got written. */
  lemma ExtractionRetried(d: Disk, root: string, v: string, fetch: Fetch, archive: Archive,
                          fetch2: Fetch, archive2: Archive)
    requires Reconcile(d, root, v, fetch, archive).outcome == ExtractionFailed
    ensures var d' := Reconcile(d, root, v, fetch, archive).disk;
            var r2 := Reconcile(d', root, v, fetch2, archive2);
            !r2.downloaded && (r2.extracted <==> !PathExists(Tree(d', v), "bin/node"))
  {
  }
}
