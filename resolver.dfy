/** The version resolution loop: walk the release index in document order
    and stop at the first LTS release that the major-version lock allows.
    The loop is specified over what its `try` block makes of each entry
    (`ReleaseIndex.Read`), so that its lemmas do not depend on how a major
    number is parsed.
    `cachedMajor` is the integer read from `.node/version.txt`, with -1
    standing for "no lock" exactly as in the C++ code; without a lock the
    first LTS release wins and its major is written as the new lock. */
module Resolver {
  import opened Basics
  import opened ReleaseIndex

  /** The value `cachedMajor` keeps when there is no `version.txt`. */
  const NO_LOCK: int := -1

  /** The chosen release and the integer the loop writes to `version.txt`, if any. */
  datatype Resolution = Resolution(version: string, lockWrite: Option<int>)

  /** What the `try` block makes of each entry, in index order. */
  function Readings(index: seq<Entry>): seq<Reading>
  {
    seq(|index|, i requires 0 <= i < |index| => Read(index[i]))
  }

  /** Whether the loop stops at an entry read as `r`. */
  predicate Picks(r: Reading, cachedMajor: int)
  {
    r.Lts? && (cachedMajor == NO_LOCK || r.major == cachedMajor)
  }

  /** What the loop concludes when it stops at an entry read as `r`. */
  function PickedAt(r: Reading, cachedMajor: int): Resolution
    requires Picks(r, cachedMajor)
  {
    Resolution(r.version, if cachedMajor == NO_LOCK then Some(r.major) else None)
  }

  /** The resolution under the lock `cachedMajor` of an index read as `rs`;
      `None` is the "No suitable Node.js LTS found" exit. */
  function Resolve(rs: seq<Reading>, cachedMajor: int): (r: Option<Resolution>)
    ensures r.Some? ==> (r.value.lockWrite.Some? <==> cachedMajor == NO_LOCK)
  {
    if rs == [] then None
    else if Picks(rs[0], cachedMajor) then Some(PickedAt(rs[0], cachedMajor))
    else Resolve(rs[1..], cachedMajor)
  }

  /** The result is determined by the first entry the loop stops at. */
  lemma {:induction false} ResolveIsFirstPick(rs: seq<Reading>, cachedMajor: int, i: nat)
    requires i < |rs| && Picks(rs[i], cachedMajor)
    requires forall j :: 0 <= j < i ==> !Picks(rs[j], cachedMajor)
    ensures Resolve(rs, cachedMajor) == Some(PickedAt(rs[i], cachedMajor))
  {
    if i > 0 {
      assert !Picks(rs[0], cachedMajor);
      forall j | 0 <= j < i - 1 ensures !Picks(rs[1..][j], cachedMajor) {
        assert rs[1..][j] == rs[j + 1];
      }
      assert rs[1..][i - 1] == rs[i];
      ResolveIsFirstPick(rs[1..], cachedMajor, i - 1);
    }
  }

  /** There is no result exactly when no entry is one the loop stops at. */
  lemma {:induction false} ResolveNoneIff(rs: seq<Reading>, cachedMajor: int)
    ensures Resolve(rs, cachedMajor).None? <==> forall i :: 0 <= i < |rs| ==> !Picks(rs[i], cachedMajor)
  {
    if rs != [] {
      ResolveNoneIff(rs[1..], cachedMajor);
      if !Picks(rs[0], cachedMajor) {
        assert forall i :: 1 <= i < |rs| ==> rs[i] == rs[1..][i - 1];
      }
    }
  }

  /** Entry `i` is the first the loop stops at, and the result is its. */
  predicate HasFirstPickAt(rs: seq<Reading>, cachedMajor: int, i: int)
  {
    0 <= i < |rs| && Picks(rs[i], cachedMajor)
    && (forall j :: 0 <= j < i ==> !Picks(rs[j], cachedMajor))
    && Resolve(rs, cachedMajor) == Some(PickedAt(rs[i], cachedMajor))
  }

  /** A result always comes from some entry the loop stops at, and no earlier
      entry is one: entries that threw, are not LTS, or carry another major
      are passed over. */
  lemma {:induction false} ResolveHasFirstPick(rs: seq<Reading>, cachedMajor: int)
    requires Resolve(rs, cachedMajor).Some?
    ensures exists i :: HasFirstPickAt(rs, cachedMajor, i)
  {
    if !Picks(rs[0], cachedMajor) {
      ResolveHasFirstPick(rs[1..], cachedMajor);
      var k :| HasFirstPickAt(rs[1..], cachedMajor, k);
      assert rs[k + 1] == rs[1..][k];
      forall j | 0 <= j < k + 1 ensures !Picks(rs[j], cachedMajor) {
        if j > 0 { assert rs[j] == rs[1..][j - 1]; }
      }
      ResolveIsFirstPick(rs, cachedMajor, k + 1);
      assert HasFirstPickAt(rs, cachedMajor, k + 1);
    } else {
      assert HasFirstPickAt(rs, cachedMajor, 0);
    }
  }

  /** Without a lock: the first entry in index order that reads as LTS wins,
      and its major is the lock that gets written. */
  lemma UnlockedTakesFirstLts(rs: seq<Reading>, i: nat)
    requires i < |rs| && rs[i].Lts?
    requires forall j :: 0 <= j < i ==> !rs[j].Lts?
    ensures Resolve(rs, NO_LOCK) == Some(Resolution(rs[i].version, Some(rs[i].major)))
  {
    ResolveIsFirstPick(rs, NO_LOCK, i);
  }

  /** With lock L: the first LTS entry whose major is L wins, however many
      LTS entries of other majors come before it, and no lock is written. */
  lemma LockedTakesFirstOfMajor(rs: seq<Reading>, lock: int, i: nat)
    requires lock != NO_LOCK
    requires i < |rs| && rs[i].Lts? && rs[i].major == lock
    requires forall j :: 0 <= j < i ==> !(rs[j].Lts? && rs[j].major == lock)
    ensures Resolve(rs, lock) == Some(Resolution(rs[i].version, None))
  {
    ResolveIsFirstPick(rs, lock, i);
  }

  /** Resolving again under the lock the first resolution leaves (the one it
      wrote, or the one it read) yields the same release and writes nothing,
      unless that lock is the "no lock" value -1 itself. */
  lemma {:induction false} ResolveStable(rs: seq<Reading>, cachedMajor: int)
    requires Resolve(rs, cachedMajor).Some?
    requires Resolve(rs, cachedMajor).value.lockWrite != Some(NO_LOCK)
    ensures var r := Resolve(rs, cachedMajor).value;
            var next := if r.lockWrite.Some? then r.lockWrite.value else cachedMajor;
            Resolve(rs, next) == Some(Resolution(r.version, None))
  {
    var next := if cachedMajor == NO_LOCK then Resolve(rs, cachedMajor).value.lockWrite.value else cachedMajor;
    if Picks(rs[0], cachedMajor) {
      assert Picks(rs[0], next);
    } else {
      assert !Picks(rs[0], next);
      ResolveStable(rs[1..], cachedMajor);
    }
  }

  /** Back on the index itself: the chosen version is the `version` text of
      an entry with a non-empty `lts` label; its major parses; under a lock
      it is the lock; a written lock is its major. */
  lemma ResolveMajor(index: seq<Entry>, cachedMajor: int)
    requires Resolve(Readings(index), cachedMajor).Some?
    ensures var r := Resolve(Readings(index), cachedMajor).value;
            (exists i :: 0 <= i < |index| && index[i].version == Some(r.version)
                         && index[i].lts.Some? && index[i].lts.value != [])
            && MajorOf(r.version).Some? && |r.version| >= 2
            && (cachedMajor != NO_LOCK ==> MajorOf(r.version) == Some(cachedMajor))
            && (r.lockWrite.Some? ==> MajorOf(r.version) == r.lockWrite)
  {
    var rs := Readings(index);
    ResolveHasFirstPick(rs, cachedMajor);
    var i :| HasFirstPickAt(rs, cachedMajor, i);
    assert rs[i] == Read(index[i]);
  }

  /** A release list shaped like nodejs.org's, newest first: a current
      release marked `"lts": false`, an entry without a version, then LTS
      releases. */
  function SampleIndex(): seq<Entry>
  {
    [ Entry(Some("false"), Some("v23.0.0")),
      Entry(Some("Jod"), None),
      Entry(Some("Jod"), Some("v22.1.0")),
      Entry(Some("Iron"), Some("v20.11.1")),
      Entry(Some("Iron"), Some("v20.9.0")),
      Entry(Some("Hydrogen"), Some("v18.2.0")) ]
  }

  lemma DecimalTwoDigits(ds: string)
    requires |ds| == 2 && AllDigits(ds)
    ensures DecimalValue(ds) == 10 * (ds[0] as int - '0' as int) + (ds[1] as int - '0' as int)
  {
    var first := ds[..1];
    assert first[..0] == [] && first[0] == ds[0] && ds[..|ds| - 1] == first;
    assert DecimalValue(first) == 10 * DecimalValue(first[..0]) + (first[0] as int - '0' as int);
    assert DecimalValue(ds) == 10 * DecimalValue(first) + (ds[1] as int - '0' as int);
  }

  lemma SampleRead0(index: seq<Entry>)
    requires index == SampleIndex()
    ensures Read(index[0]) == Lts("v23.0.0", 23)
  {
    assert index[0].version.value == ['v'] + "23" + "." + "0.0";
    DecimalTwoDigits("23");
    ReadRelease(index[0], 'v', "23", "0.0");
  }

  lemma SampleRead2(index: seq<Entry>)
    requires index == SampleIndex()
    ensures Read(index[2]) == Lts("v22.1.0", 22)
  {
    assert index[2].version.value == ['v'] + "22" + "." + "1.0";
    DecimalTwoDigits("22");
    ReadRelease(index[2], 'v', "22", "1.0");
  }

  lemma SampleRead3(index: seq<Entry>)
    requires index == SampleIndex()
    ensures Read(index[3]) == Lts("v20.11.1", 20)
  {
    assert index[3].version.value == ['v'] + "20" + "." + "11.1";
    DecimalTwoDigits("20");
    ReadRelease(index[3], 'v', "20", "11.1");
  }

  /** The first four entries of the sample list as the loop reads them. */
  lemma SampleReadings(index: seq<Entry>)
    requires index == SampleIndex()
    ensures var rs := Readings(index);
            rs[0] == Lts("v23.0.0", 23) && rs[1] == Threw
            && rs[2] == Lts("v22.1.0", 22) && rs[3] == Lts("v20.11.1", 20)
  {
    SampleRead0(index);
    SampleRead2(index);
    SampleRead3(index);
    var rs := Readings(index);
    assert rs[0] == Read(index[0]) && rs[1] == Read(index[1]) && rs[2] == Read(index[2]) && rs[3] == Read(index[3]);
  }

  /** On the sample list, without a lock the first entry wins: its label
      `false` is not empty, so the current release v23.0.0 is taken for an
      LTS release and 23 is written as the lock. */
  lemma SampleUnlocked(index: seq<Entry>)
    requires index == SampleIndex()
    ensures Resolve(Readings(index), NO_LOCK) == Some(Resolution("v23.0.0", Some(23)))
  {
    SampleReadings(index);
    UnlockedTakesFirstLts(Readings(index), 0);
  }

  /** On the sample list, with lock 20 the first release of major 20,
      v20.11.1, is chosen over the newer v23.0.0 and v22.1.0, and nothing is
      written. */
  lemma SampleLocked(index: seq<Entry>)
    requires index == SampleIndex()
    ensures Resolve(Readings(index), 20) == Some(Resolution("v20.11.1", None))
  {
    SampleReadings(index);
    var rs := Readings(index);
    forall j | 0 <= j < 3 ensures !(rs[j].Lts? && rs[j].major == 20) {
      assert j == 0 || j == 1 || j == 2;
    }
    LockedTakesFirstOfMajor(rs, 20, 3);
  }

  /** The loop of the C++ `main`: `for (auto& entry : pt)` with its `break`s.
      The `std::ofstream` write of the lock is returned in `written` for the
      caller to apply; an empty `targetVersion` means no release was found. */
  method SelectVersion(index: seq<Entry>, cachedMajor: int) returns (targetVersion: string, written: Option<int>)
    ensures targetVersion == [] <==> Resolve(Readings(index), cachedMajor).None?
    ensures Resolve(Readings(index), cachedMajor).Some? ==>
              Resolution(targetVersion, written) == Resolve(Readings(index), cachedMajor).value
    ensures Resolve(Readings(index), cachedMajor).None? ==> written.None?
  {
    targetVersion, written := [], None;
    ghost var rs := Readings(index);
    var i := 0;
    while i < |index|
      invariant 0 <= i <= |index|
      invariant Resolve(rs, cachedMajor) == Resolve(rs[i..], cachedMajor)
      invariant targetVersion == [] && written.None?
    {
      assert rs[i..][0] == Read(index[i]) && rs[i..][1..] == rs[i + 1..];
      match Read(index[i]) {
        case Lts(v, major) =>
          if cachedMajor == NO_LOCK {
            targetVersion := v;
            written := Some(major);
            break;
          } else if major == cachedMajor {
            targetVersion := v;
            break;
          }
        case _ =>
      }
      i := i + 1;
    }
  }
}
