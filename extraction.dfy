/** `extract_tar_xz`: unpack a `.tar.xz` into a destination directory with
    the archive's top-level folder stripped (`--strip-components=1`). The
    archive is given as what libarchive reports while reading it: the status
    of opening it, then per entry the status of `archive_read_next_header`,
    the entry's path name, the status of `archive_write_header`, the size,
    and the statuses of its data blocks. */
module Extraction {
  import opened Basics

  // Status codes of libarchive (archive.h).
  const ARCHIVE_EOF: int := 1
  const ARCHIVE_OK: int := 0
  const ARCHIVE_RETRY: int := -10
  const ARCHIVE_WARN: int := -20
  const ARCHIVE_FAILED: int := -25
  const ARCHIVE_FATAL: int := -30

  /** One round of the data copy: what `archive_read_data_block` and then
      `archive_write_data_block` return. */
  datatype Block = Block(readStatus: int, writeStatus: int)

  datatype Header = Header(status: int, pathname: string, writeStatus: int, size: int, blocks: seq<Block>)

  /** An archive as read: the status of `archive_read_open_filename`, then the
      entries; past the last one `archive_read_next_header` reports ARCHIVE_EOF. */
  datatype Archive = Archive(openStatus: int, headers: seq<Header>)

  /** An entry handed to the disk writer: its rewritten path name, whether the
      disk writer created it, and how many data blocks were written. */
  datatype Written = Written(path: string, created: bool, blocksWritten: nat)

  datatype Extracted = Extracted(ok: bool, written: seq<Written>)

  /** The `--strip-components=1` rule: everything up to and including the
      first `/` goes; a name without `/` stays as it is. */
  function StripFirstComponent(path: string): string
  {
    match Find(path, '/', 0)
    case Some(k) => path[k + 1..]
    case None => path
  }

  /** What the strip rule removes: nothing from a name without `/`, and
      otherwise a prefix that ends in the first `/` of the name. */
  lemma StripFirstComponentShape(path: string)
    ensures var rest := StripFirstComponent(path);
            ('/' !in path ==> rest == path)
            && ('/' in path ==> |rest| < |path| && path[|path| - |rest| - 1] == '/'
                                && '/' !in path[..|path| - |rest| - 1]
                                && rest == path[|path| - |rest|..])
  {
    match Find(path, '/', 0)
    case Some(k) =>
      assert '/' !in path[..k] by {
        forall j | 0 <= j < k ensures path[..k][j] != '/' { assert path[j] != '/'; }
      }
    case None =>
  }

  /** An archive member `top/rest` whose top folder has no `/` becomes
      `rest`; for the folder itself (`top/`) that is empty. */
  lemma StripTopFolder(top: string, rest: string)
    requires '/' !in top
    ensures StripFirstComponent(top + "/" + rest) == rest
  {
    var path := top + "/" + rest;
    assert path[|top|] == '/';
    forall j | 0 <= j < |top| ensures path[j] != '/' {
      assert path[j] == top[j];
    }
    assert Find(path, '/', 0) == Some(|top|);
    assert path[|top| + 1..] == rest;
  }

  /** Number of `archive_write_data_block` calls the copy loop makes: it
      stops at the end of the data, at a read error, after a write error. */
  function BlocksWritten(blocks: seq<Block>): (n: nat)
    ensures n <= |blocks|
  {
    if blocks == [] || blocks[0].readStatus == ARCHIVE_EOF || blocks[0].readStatus < ARCHIVE_OK then 0
    else if blocks[0].writeStatus < ARCHIVE_OK then 1
    else 1 + BlocksWritten(blocks[1..])
  }

  /** What the loop body hands to the disk writer for a header it does not skip. */
  function EntryOutput(destDir: string, h: Header): Written
  {
    Written(destDir + "/" + StripFirstComponent(h.pathname),
            h.writeStatus >= ARCHIVE_WARN,
            if h.writeStatus >= ARCHIVE_OK && h.size > 0 then BlocksWritten(h.blocks) else 0)
  }

  /** An output path is `destDir + "/"` followed by a non-empty remainder.
      This is a test on the text only: a remainder such as `../x` names
      something outside `destDir`. */
  predicate PrefixedByDest(destDir: string, w: Written)
  {
    destDir + "/" <= w.path && |w.path| > |destDir| + 1
  }

  /** The header loop over the entries still to be read. */
  function ExtractHeaders(destDir: string, hs: seq<Header>): (r: Extracted)
    ensures |r.written| <= |hs|
  {
    if hs == [] || hs[0].status == ARCHIVE_EOF then Extracted(true, [])
    else if hs[0].status < ARCHIVE_WARN then Extracted(false, [])
    else
      var rest := ExtractHeaders(destDir, hs[1..]);
      var stripped := StripFirstComponent(hs[0].pathname);
      if stripped == [] then rest
      else
        Extracted(rest.ok, [EntryOutput(destDir, hs[0])] + rest.written)
  }

  /** Every path handed to the disk writer starts with `destDir + "/"` and
      goes on past it. */
  lemma {:induction false} ExtractPathsPrefixed(destDir: string, hs: seq<Header>)
    ensures forall k :: 0 <= k < |ExtractHeaders(destDir, hs).written| ==> PrefixedByDest(destDir, ExtractHeaders(destDir, hs).written[k])
  {
    if hs != [] && hs[0].status != ARCHIVE_EOF && hs[0].status >= ARCHIVE_WARN {
      ExtractPathsPrefixed(destDir, hs[1..]);
      var stripped := StripFirstComponent(hs[0].pathname);
      if stripped != [] {
        var w := EntryOutput(destDir, hs[0]);
        assert w.path == destDir + "/" + stripped;
        var r := ExtractHeaders(destDir, hs);
        forall k | 0 <= k < |r.written| ensures PrefixedByDest(destDir, r.written[k]) {
          if k > 0 {
            assert r.written[k] == ExtractHeaders(destDir, hs[1..]).written[k - 1];
          }
        }
      }
    }
  }

  /** Every entry handed to the disk writer comes from a header whose stripped
      name is not empty, and is named `destDir + "/" + ` that name. */
  lemma {:induction false} ExtractOutputsFromHeaders(destDir: string, hs: seq<Header>, k: nat)
    requires k < |ExtractHeaders(destDir, hs).written|
    ensures exists i :: 0 <= i < |hs| && StripFirstComponent(hs[i].pathname) != []
                        && ExtractHeaders(destDir, hs).written[k] == EntryOutput(destDir, hs[i])
  {
    var rest := ExtractHeaders(destDir, hs[1..]);
    if StripFirstComponent(hs[0].pathname) == [] {
      ExtractOutputsFromHeaders(destDir, hs[1..], k);
      var i :| 0 <= i < |hs[1..]| && StripFirstComponent(hs[1..][i].pathname) != []
               && rest.written[k] == EntryOutput(destDir, hs[1..][i]);
      assert hs[1..][i] == hs[i + 1];
    } else if k > 0 {
      ExtractOutputsFromHeaders(destDir, hs[1..], k - 1);
      var i :| 0 <= i < |hs[1..]| && StripFirstComponent(hs[1..][i].pathname) != []
               && rest.written[k - 1] == EntryOutput(destDir, hs[1..][i]);
      assert hs[1..][i] == hs[i + 1];
    }
  }

  /** How many headers the loop reads before it stops: the index of the
      first ARCHIVE_EOF or of the first status worse than ARCHIVE_WARN, or
      the number of headers. */
  function StopAt(hs: seq<Header>): (n: nat)
    ensures n <= |hs|
    ensures forall j :: 0 <= j < n ==> hs[j].status != ARCHIVE_EOF && hs[j].status >= ARCHIVE_WARN
    ensures n == |hs| || hs[n].status == ARCHIVE_EOF || hs[n].status < ARCHIVE_WARN
  {
    if hs == [] || hs[0].status == ARCHIVE_EOF || hs[0].status < ARCHIVE_WARN then 0
    else 1 + StopAt(hs[1..])
  }

  /** Reference for the outputs: of the given headers, those whose stripped
      name is not empty, each as its `EntryOutput`, in order. */
  function Kept(destDir: string, hs: seq<Header>): seq<Written>
  {
    if hs == [] then []
    else
      var rest := Kept(destDir, hs[..|hs| - 1]);
      if StripFirstComponent(hs[|hs| - 1].pathname) == [] then rest
      else rest + [EntryOutput(destDir, hs[|hs| - 1])]
  }

  lemma {:induction false} KeptCons(destDir: string, h: Header, hs: seq<Header>)
    ensures Kept(destDir, [h] + hs)
            == (if StripFirstComponent(h.pathname) == [] then [] else [EntryOutput(destDir, h)]) + Kept(destDir, hs)
    decreases |hs|
  {
    var head := if StripFirstComponent(h.pathname) == [] then [] else [EntryOutput(destDir, h)];
    if hs == [] {
      assert ([h] + hs)[..0] == [];
    } else {
      var last := hs[|hs| - 1];
      assert ([h] + hs)[..|hs|] == [h] + hs[..|hs| - 1];
      assert ([h] + hs)[|hs|] == last;
      KeptCons(destDir, h, hs[..|hs| - 1]);
      if StripFirstComponent(last.pathname) != [] {
        assert head + Kept(destDir, hs[..|hs| - 1]) + [EntryOutput(destDir, last)]
               == head + (Kept(destDir, hs[..|hs| - 1]) + [EntryOutput(destDir, last)]);
      }
    }
  }

  /** Both directions of what the loop hands to the disk writer: exactly the
      headers read before it stops whose stripped name is not empty, each as
      its `EntryOutput`, in their order in the archive. */
  lemma {:induction false} ExtractWrittenIsKept(destDir: string, hs: seq<Header>)
    ensures ExtractHeaders(destDir, hs).written == Kept(destDir, hs[..StopAt(hs)])
  {
    if hs == [] || hs[0].status == ARCHIVE_EOF || hs[0].status < ARCHIVE_WARN {
      assert hs[..0] == [];
    } else {
      var n := StopAt(hs[1..]);
      assert StopAt(hs) == n + 1;
      ExtractWrittenIsKept(destDir, hs[1..]);
      PrefixCons(hs, n);
      KeptCons(destDir, hs[0], hs[1..][..n]);
    }
  }

  lemma PrefixCons(hs: seq<Header>, n: nat)
    requires n < |hs|
    ensures hs[..n + 1] == [hs[0]] + hs[1..][..n]
  {
  }

  /** The whole C++ function: an archive that does not open fails at once. */
  function Extract(archive: Archive, destDir: string): (r: Extracted)
    ensures r.ok ==> archive.openStatus == ARCHIVE_OK
    ensures |r.written| <= |archive.headers|
  {
    if archive.openStatus != ARCHIVE_OK then Extracted(false, [])
    else ExtractHeaders(destDir, archive.headers)
  }

  /** Extraction fails exactly when some header reports worse than
      ARCHIVE_WARN before any ARCHIVE_EOF; warnings, ARCHIVE_RETRY and every
      error of the disk writer or of the data copy leave the result `true`. */
  lemma {:induction false} ExtractFailsIff(destDir: string, hs: seq<Header>)
    ensures !ExtractHeaders(destDir, hs).ok <==>
            exists i :: 0 <= i < |hs| && hs[i].status < ARCHIVE_WARN
                        && forall j :: 0 <= j < i ==> hs[j].status != ARCHIVE_EOF
  {
    if hs == [] || hs[0].status == ARCHIVE_EOF {
    } else if hs[0].status < ARCHIVE_WARN {
      assert hs[0].status < ARCHIVE_WARN;
    } else {
      ExtractFailsIff(destDir, hs[1..]);
      if !ExtractHeaders(destDir, hs).ok {
        var i :| 0 <= i < |hs[1..]| && hs[1..][i].status < ARCHIVE_WARN
                 && forall j :: 0 <= j < i ==> hs[1..][j].status != ARCHIVE_EOF;
        assert hs[i + 1].status < ARCHIVE_WARN;
        forall j | 0 <= j < i + 1 ensures hs[j].status != ARCHIVE_EOF {
          if j > 0 { assert hs[j] == hs[1..][j - 1]; }
        }
      }
      if exists i :: 0 <= i < |hs| && hs[i].status < ARCHIVE_WARN
                     && forall j :: 0 <= j < i ==> hs[j].status != ARCHIVE_EOF {
        var i :| 0 <= i < |hs| && hs[i].status < ARCHIVE_WARN
                 && forall j :: 0 <= j < i ==> hs[j].status != ARCHIVE_EOF;
        assert i > 0;
        assert hs[1..][i - 1].status < ARCHIVE_WARN;
        forall j | 0 <= j < i - 1 ensures hs[1..][j].status != ARCHIVE_EOF {
          assert hs[1..][j] == hs[j + 1];
        }
      }
    }
  }

  /** The result depends on the header statuses alone, and the rewritten
      path names on the header statuses and path names alone: the disk
      writer's statuses, the sizes and the data blocks change neither. */
  lemma {:induction false} ExtractIgnoresData(destDir: string, hs: seq<Header>, gs: seq<Header>)
    requires |hs| == |gs|
    requires forall i :: 0 <= i < |hs| ==> hs[i].status == gs[i].status
    ensures ExtractHeaders(destDir, hs).ok == ExtractHeaders(destDir, gs).ok
    ensures (forall i :: 0 <= i < |hs| ==> hs[i].pathname == gs[i].pathname) ==>
              |ExtractHeaders(destDir, hs).written| == |ExtractHeaders(destDir, gs).written|
              && forall k :: 0 <= k < |ExtractHeaders(destDir, hs).written| ==>
                   ExtractHeaders(destDir, hs).written[k].path == ExtractHeaders(destDir, gs).written[k].path
  {
    if hs != [] && hs[0].status != ARCHIVE_EOF && hs[0].status >= ARCHIVE_WARN {
      assert forall i :: 0 <= i < |hs[1..]| ==> hs[1..][i] == hs[i + 1] && gs[1..][i] == gs[i + 1];
      ExtractIgnoresData(destDir, hs[1..], gs[1..]);
    }
  }

  /** ARCHIVE_FAILED and ARCHIVE_FATAL from `archive_read_next_header` abort
      the extraction; ARCHIVE_RETRY and ARCHIVE_WARN only print a warning,
      and the result is then that of the remaining headers. */
  lemma HeaderStatusSamples(destDir: string, h: Header, hs: seq<Header>)
    ensures !ExtractHeaders(destDir, [h.(status := ARCHIVE_FAILED)] + hs).ok
    ensures !ExtractHeaders(destDir, [h.(status := ARCHIVE_FATAL)] + hs).ok
    ensures ExtractHeaders(destDir, [h.(status := ARCHIVE_RETRY)] + hs).ok == ExtractHeaders(destDir, hs).ok
    ensures ExtractHeaders(destDir, [h.(status := ARCHIVE_WARN)] + hs).ok == ExtractHeaders(destDir, hs).ok
  {
    assert ([h.(status := ARCHIVE_RETRY)] + hs)[1..] == hs;
    assert ([h.(status := ARCHIVE_WARN)] + hs)[1..] == hs;
  }

  /** Nothing after an ARCHIVE_EOF header is ever read. */
  lemma {:induction false} EofEndsExtraction(destDir: string, hs: seq<Header>, h: Header, tail1: seq<Header>, tail2: seq<Header>)
    requires h.status == ARCHIVE_EOF
    ensures ExtractHeaders(destDir, hs + [h] + tail1) == ExtractHeaders(destDir, hs + [h] + tail2)
  {
    if hs == [] {
      assert (hs + [h] + tail1)[0] == h == (hs + [h] + tail2)[0];
    } else {
      assert (hs + [h] + tail1)[0] == hs[0] == (hs + [h] + tail2)[0];
      assert (hs + [h] + tail1)[1..] == hs[1..] + [h] + tail1;
      assert (hs + [h] + tail2)[1..] == hs[1..] + [h] + tail2;
      EofEndsExtraction(destDir, hs[1..], h, tail1, tail2);
    }
  }

  /** One turn of the header loop, for a header that neither ends nor aborts it. */
  lemma ExtractStep(destDir: string, hs: seq<Header>)
    requires hs != [] && hs[0].status != ARCHIVE_EOF && hs[0].status >= ARCHIVE_WARN
    ensures ExtractHeaders(destDir, hs).ok == ExtractHeaders(destDir, hs[1..]).ok
    ensures ExtractHeaders(destDir, hs).written
            == (if StripFirstComponent(hs[0].pathname) == [] then [] else [EntryOutput(destDir, hs[0])])
               + ExtractHeaders(destDir, hs[1..]).written
  {
  }

  /** The inner `while (true)` loop of `extract_tar_xz`: copy data blocks
      to the disk writer until the data ends or a read or a write fails;
      returns the number of `archive_write_data_block` calls. */
  method CopyBlocks(blocks: seq<Block>) returns (copied: nat)
    ensures copied == BlocksWritten(blocks)
  {
    copied := 0;
    var j := 0;
    while true
      invariant 0 <= j <= |blocks| && copied == j
      invariant BlocksWritten(blocks) == copied + BlocksWritten(blocks[j..])
      decreases |blocks| - j
    {
      var r := if j < |blocks| then blocks[j].readStatus else ARCHIVE_EOF;
      if r == ARCHIVE_EOF {
        break;
      }
      if r < ARCHIVE_OK {
        break;
      }
      copied := copied + 1;
      if blocks[j].writeStatus < ARCHIVE_OK {
        break;
      }
      assert blocks[j..][1..] == blocks[j + 1..];
      j := j + 1;
    }
  }

  /** The body of the header loop for a header that neither ends nor aborts
      it: rewrite the path name, write the header, copy the data. `None` is
      the `continue` for an empty stripped name. */
  method HandOver(destDir: string, entry: Header) returns (out: Option<Written>)
    ensures out == if StripFirstComponent(entry.pathname) == [] then None else Some(EntryOutput(destDir, entry))
  {
    var path := entry.pathname;
    var slashPos := Find(path, '/', 0);
    if slashPos.Some? {
      path := path[slashPos.value + 1..];
    }
    if path == [] {
      return None;
    }
    var fullOutputPath := destDir + "/" + path;
    var copied := 0;
    if entry.writeStatus >= ARCHIVE_OK && entry.size > 0 {
      copied := CopyBlocks(entry.blocks);
    }
    out := Some(Written(fullOutputPath, entry.writeStatus >= ARCHIVE_WARN, copied));
  }

  /** The C++ function: open the archive, then the header loop. */
  method ExtractTarXz(archive: Archive, destDir: string) returns (ok: bool, written: seq<Written>)
    ensures Extracted(ok, written) == Extract(archive, destDir)
  {
    if archive.openStatus != ARCHIVE_OK {
      return false, [];
    }
    var hs := archive.headers;
    written := [];
    var i := 0;
    while true
      invariant 0 <= i <= |hs|
      invariant ExtractHeaders(destDir, hs)
                == Extracted(ExtractHeaders(destDir, hs[i..]).ok, written + ExtractHeaders(destDir, hs[i..]).written)
      decreases |hs| - i
    {
      var r := if i < |hs| then hs[i].status else ARCHIVE_EOF;
      if r == ARCHIVE_EOF {
        break;
      }
      if r < ARCHIVE_WARN {
        return false, written;
      }
      ghost var before := written;
      var out := HandOver(destDir, hs[i]);
      if out.Some? {
        written := written + [out.value];
      }
      ExtractStep(destDir, hs[i..]);
      assert hs[i..][0] == hs[i] && hs[i..][1..] == hs[i + 1..];
      assert before + ExtractHeaders(destDir, hs[i..]).written == written + ExtractHeaders(destDir, hs[i + 1..]).written;
      i := i + 1;
    }
    ok := true;
  }
}
