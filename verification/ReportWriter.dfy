/** Writes a report bundle as one success-or-cleanup operation. */
module ReportWriter {
  import opened Sequences
  import opened FileNames
  import opened FileSystem

  /** A reserved output file, until it is part of a saved bundle or cleaned up. */
  datatype ReservedFile = ReservedFile(name: string, closed: bool)

  datatype Cleanup = Cleanup(failed: bool, residualPaths: seq<string>)

  datatype Reservation = ReservedAll(files: seq<ReservedFile>) | Collision | Refusal

  datatype WriteOutcome = Saved(names: seq<string>) | NotSaved(residualPaths: seq<string>)

  ghost function Names(reserved: seq<ReservedFile>): set<string> {
    set r | r in reserved :: r.name
  }

  ghost function SetOf(s: seq<string>): set<string> {
    set x | x in s
  }

  ghost predicate DistinctNames(reserved: seq<ReservedFile>) {
    forall i, j :: 0 <= i < j < |reserved| ==> reserved[i].name != reserved[j].name
  }

  ghost predicate AllFree(files: Files, names: seq<string>) {
    forall i :: 0 <= i < |names| ==> names[i] !in files
  }

  /** The reserved files are there, and are this attempt's. */
  ghost predicate Holds(files: Files, reserved: seq<ReservedFile>) {
    forall r :: r in reserved ==> r.name in files && files[r.name].mine
  }

  lemma NamesAppend(reserved: seq<ReservedFile>, r: ReservedFile)
    ensures Names(reserved + [r]) == Names(reserved) + {r.name}
  {
    assert forall x :: x in reserved + [r] <==> x in reserved || x == r;
    assert forall n :: n in Names(reserved + [r]) <==> n in Names(reserved) || n == r.name by {
      assert r in reserved + [r];
    }
  }

  /** Closes a reserved file that is still open, and removes it. */
  method CleanupReservedFile(dir: Directory, r: ReservedFile) returns (failed: bool, residual: bool)
    requires r.name in dir.files && dir.files[r.name].mine
    modifies dir
    ensures OthersKept(old(dir.files), dir.files)
    ensures Mine(dir.files) == if residual then Mine(old(dir.files)) else Mine(old(dir.files)) - {r.name}
    ensures forall other :: other in old(dir.files) && other != r.name ==> other in dir.files && dir.files[other] == old(dir.files)[other]
    ensures residual ==> failed && r.name in dir.files
    ensures Quiet(old(dir.script)) ==> Quiet(dir.script) && dir.files == if residual then old(dir.files) else old(dir.files) - {r.name}
    ensures old(dir.script) == [] ==> !failed && dir.script == []
    ensures |dir.script| <= |old(dir.script)|
  {
    failed := false;
    if !r.closed {
      var ok := dir.SyncOrClose(r.name);
      failed := !ok;
    }
    var status := dir.Remove(r.name);
    return failed || !status.Removed?, status.RemoveRefused?;
  }

  /** What cleaning up the first i reserved files has done to the directory. */
  ghost predicate CleanedSoFar(before: Files, quiet: bool, files: Files, reserved: seq<ReservedFile>, i: nat, failed: bool, residualPaths: seq<string>)
    requires i <= |reserved|
  {
    && OthersKept(before, files)
    && Holds(files, reserved[i..])
    && Mine(files) == Mine(before) - Names(reserved[..i]) + SetOf(residualPaths)
    && SetOf(residualPaths) <= Names(reserved[..i])
    && (!failed ==> residualPaths == [])
    && (quiet && !failed ==> files == before - Names(reserved[..i]))
  }

  lemma OneMoreCleaned(before: Files, quiet: bool, files: Files, reserved: seq<ReservedFile>, i: nat, failed: bool, residualPaths: seq<string>,
                       after: Files, thisFailed: bool, residual: bool)
    requires i < |reserved| && DistinctNames(reserved) && CleanedSoFar(before, quiet, files, reserved, i, failed, residualPaths)
    requires OthersKept(files, after) && (residual ==> thisFailed)
    requires Mine(after) == if residual then Mine(files) else Mine(files) - {reserved[i].name}
    requires forall other :: other in files && other != reserved[i].name ==> other in after && after[other] == files[other]
    requires quiet ==> after == if residual then files else files - {reserved[i].name}
    ensures CleanedSoFar(before, quiet, after, reserved, i + 1, failed || thisFailed,
                         if residual then residualPaths + [reserved[i].name] else residualPaths)
  {
    hide Mine, Names;
    var name := reserved[i].name;
    assert reserved[..i + 1] == reserved[..i] + [reserved[i]];
    NamesAppend(reserved[..i], reserved[i]);
    NotYetNamed(reserved, i);
    StillMine(files, reserved, i);
    assert SetOf(residualPaths + [name]) == SetOf(residualPaths) + {name};
    assert name !in SetOf(residualPaths);
    forall r | r in reserved[i + 1..]
      ensures r.name in after && after[r.name].mine
    {
      assert r in reserved[i..] && r.name != name;
    }
  }

  lemma StillMine(files: Files, reserved: seq<ReservedFile>, i: nat)
    requires i < |reserved| && Holds(files, reserved[i..])
    ensures reserved[i].name in Mine(files)
  {
    assert reserved[i..][0] == reserved[i];
  }

  lemma NothingCleaned(before: Files, quiet: bool, reserved: seq<ReservedFile>)
    requires Holds(before, reserved)
    ensures CleanedSoFar(before, quiet, before, reserved, 0, false, [])
  {
    assert reserved[0..] == reserved && reserved[..0] == [];
  }

  /** Cleans up every reserved file, whatever happens to the others. */
  method CleanupReservedReportFiles(dir: Directory, reserved: seq<ReservedFile>) returns (cleanup: Cleanup)
    requires Holds(dir.files, reserved) && DistinctNames(reserved)
    modifies dir
    ensures OthersKept(old(dir.files), dir.files)
    ensures Mine(dir.files) == Mine(old(dir.files)) - Names(reserved) + SetOf(cleanup.residualPaths)
    ensures SetOf(cleanup.residualPaths) <= Names(reserved)
    ensures !cleanup.failed ==> cleanup.residualPaths == []
    ensures Quiet(old(dir.script)) ==> Quiet(dir.script)
    ensures Quiet(old(dir.script)) && !cleanup.failed ==> dir.files == old(dir.files) - Names(reserved)
    ensures old(dir.script) == [] ==> !cleanup.failed && dir.script == []
    ensures |dir.script| <= |old(dir.script)|
  {
    hide Mine, Names, OthersKept, SetOf;
    ghost var before, quiet := dir.files, Quiet(dir.script);
    var failed := false;
    var residualPaths: seq<string> := [];
    NothingCleaned(before, quiet, reserved);
    for i := 0 to |reserved|
      invariant CleanedSoFar(before, quiet, dir.files, reserved, i, failed, residualPaths)
      invariant quiet ==> Quiet(dir.script)
      invariant old(dir.script) == [] ==> !failed && dir.script == []
      invariant |dir.script| <= |old(dir.script)|
    {
      assert reserved[i..][0] == reserved[i];
      ghost var files := dir.files;
      var reservationFailed, residual := CleanupReservedFile(dir, reserved[i]);
      OneMoreCleaned(before, quiet, files, reserved, i, failed, residualPaths, dir.files, reservationFailed, residual);
      if residual {
        residualPaths := residualPaths + [reserved[i].name];
      }
      failed := failed || reservationFailed;
    }
    assert reserved[..|reserved|] == reserved;
    return Cleanup(failed, residualPaths);
  }

  lemma NotYetNamed(reserved: seq<ReservedFile>, i: nat)
    requires DistinctNames(reserved) && i < |reserved|
    ensures reserved[i].name !in Names(reserved[..i])
  {
  }

  /** The files with empty new ones of this attempt. */
  ghost function WithEmpty(files: Files, names: set<string>): Files {
    files + map name | name in names :: File(true, [])
  }

  /** What a run of successful reservations has done to the directory. */
  ghost predicate ReservedSoFar(before: Files, quiet: bool, files: Files, reserved: seq<ReservedFile>) {
    && OthersKept(before, files)
    && Holds(files, reserved)
    && (forall name :: name in before ==> name in files)
    && Mine(files) == Mine(before) + Names(reserved)
    && Names(reserved) !! before.Keys
    && (quiet ==> files == WithEmpty(before, Names(reserved)))
  }

  lemma NothingReserved(before: Files, quiet: bool)
    ensures ReservedSoFar(before, quiet, before, [])
  {
  }

  lemma OneMoreReserved(before: Files, quiet: bool, files: Files, reserved: seq<ReservedFile>, name: string, after: Files)
    requires ReservedSoFar(before, quiet, files, reserved)
    requires OthersKept(files, after) && name !in files && name in after && after[name] == File(true, [])
    requires forall other :: other in files ==> other in after && after[other] == files[other]
    requires Mine(after) == Mine(files) + {name}
    requires quiet ==> after == files[name := File(true, [])]
    ensures ReservedSoFar(before, quiet, after, reserved + [ReservedFile(name, false)])
  {
    hide Mine;
    NamesAppend(reserved, ReservedFile(name, false));
    hide Names;
    if quiet {
      assert after == WithEmpty(before, Names(reserved + [ReservedFile(name, false)]));
    }
  }

  lemma StillReserved(before: Files, quiet: bool, files: Files, reserved: seq<ReservedFile>, after: Files)
    requires ReservedSoFar(before, quiet, files, reserved)
    requires OthersKept(files, after) && Mine(after) == Mine(files) && (quiet ==> after == files)
    requires forall other :: other in files ==> other in after && after[other] == files[other]
    ensures ReservedSoFar(before, quiet, after, reserved)
  {
    hide Mine, Names;
  }

  /** Tries to reserve the names of one suffix, in order; what was reserved comes back also when it fails. */
  method ReserveCandidateReportFiles(dir: Directory, names: seq<string>) returns (reserved: seq<ReservedFile>, reservation: Reservation)
    requires Distinct(names) && names != []
    modifies dir
    ensures OthersKept(old(dir.files), dir.files)
    ensures Holds(dir.files, reserved) && DistinctNames(reserved)
    ensures |reserved| <= |names| && forall i :: 0 <= i < |reserved| ==> reserved[i] == ReservedFile(names[i], false)
    ensures Mine(dir.files) == Mine(old(dir.files)) + Names(reserved)
    ensures Names(reserved) !! old(dir.files).Keys
    ensures reservation.ReservedAll? ==> reservation.files == reserved && |reserved| == |names|
    ensures Quiet(old(dir.script)) ==> Quiet(dir.script) && dir.files == WithEmpty(old(dir.files), Names(reserved))
    ensures Quiet(old(dir.script)) && reservation.Collision? ==> !AllFree(old(dir.files), names)
    ensures |dir.script| < |old(dir.script)| || dir.script == old(dir.script) == []
    ensures old(dir.script) == [] ==> !reservation.Refusal?
  {
    hide ReservedSoFar, OthersKept, Mine;
    ghost var before, quiet := dir.files, Quiet(dir.script);
    reserved := [];
    NothingReserved(before, quiet);
    for i := 0 to |names|
      invariant |reserved| == i && forall k :: 0 <= k < i ==> reserved[k] == ReservedFile(names[k], false)
      invariant ReservedSoFar(before, quiet, dir.files, reserved)
      invariant quiet ==> Quiet(dir.script)
      invariant i > 0 ==> |dir.script| < |old(dir.script)| || dir.script == old(dir.script) == []
      invariant i == 0 ==> dir.script == old(dir.script)
    {
      ghost var files := dir.files;
      var status := dir.CreateNew(names[i]);
      if status.Opened? {
        OneMoreReserved(before, quiet, files, reserved, names[i], dir.files);
        reserved := reserved + [ReservedFile(names[i], false)];
      } else {
        StillReserved(before, quiet, files, reserved, dir.files);
        ReservedFacts(before, quiet, dir.files, reserved);
        if status.AlreadyExists? {
          CollisionIsOld(before, quiet, dir.files, reserved, names, i);
          return reserved, Collision;
        }
        return reserved, Refusal;
      }
    }
    ReservedFacts(before, quiet, dir.files, reserved);
    return reserved, ReservedAll(reserved);
  }

  lemma ReservedFacts(before: Files, quiet: bool, files: Files, reserved: seq<ReservedFile>)
    requires ReservedSoFar(before, quiet, files, reserved)
    ensures OthersKept(before, files) && Holds(files, reserved) && Mine(files) == Mine(before) + Names(reserved)
    ensures Names(reserved) !! before.Keys && (quiet ==> files == WithEmpty(before, Names(reserved)))
  {
  }

  /** Without other creators a name that is taken was taken from the start. */
  lemma CollisionIsOld(before: Files, quiet: bool, files: Files, reserved: seq<ReservedFile>, names: seq<string>, i: nat)
    requires ReservedSoFar(before, quiet, files, reserved) && Distinct(names) && i == |reserved| < |names|
    requires (forall k :: 0 <= k < i ==> reserved[k] == ReservedFile(names[k], false)) && names[i] in files
    ensures quiet ==> !AllFree(before, names)
  {
    if quiet {
      assert names[i] !in Names(reserved);
      assert names[i] in before;
    }
  }

  // -------- the suffix search --------

  ghost predicate NamedFrom(format: OutputFormat, base: string, suffix: nat, name: string) {
    exists s: nat :: s >= suffix && name in BundleFilenames(format, base, s)
  }

  /** The taken names that the search may still run into. */
  ghost function Occupied(files: Files, format: OutputFormat, base: string, suffix: nat): set<string> {
    set name | name in files && NamedFrom(format, base, suffix, name)
  }

  lemma OccupiedShrinks(files: Files, format: OutputFormat, base: string, suffix: nat)
    requires TimestampedBase(base) && suffix >= 1 && !AllFree(files, BundleFilenames(format, base, suffix))
    ensures |Occupied(files, format, base, suffix + 1)| < |Occupied(files, format, base, suffix)|
  {
    hide BundleFilenames, TimestampedBase;
    var names := BundleFilenames(format, base, suffix);
    var i :| 0 <= i < |names| && names[i] in files;
    var here, next := Occupied(files, format, base, suffix), Occupied(files, format, base, suffix + 1);
    assert names[i] in here;
    if NamedFrom(format, base, suffix + 1, names[i]) {
      var s: nat :| s >= suffix + 1 && names[i] in BundleFilenames(format, base, s);
      var j :| 0 <= j < |BundleFilenames(format, base, s)| && BundleFilenames(format, base, s)[j] == names[i];
      BundleNamesAreDistinct(format, base, suffix, s, i, j);
    }
    forall name | name in next
      ensures name in here
    {
      var s: nat :| s >= suffix + 1 && name in BundleFilenames(format, base, s);
      assert s >= suffix;
    }
    assert next <= here - {names[i]};
    SubsetIsSmaller(next, here - {names[i]});
  }

  lemma {:induction false} SubsetIsSmaller(a: set<string>, b: set<string>)
    requires a <= b
    ensures |a| <= |b|
  {
    if a == {} {
    } else {
      var x :| x in a;
      SubsetIsSmaller(a - {x}, b - {x});
    }
  }

  lemma BundleNamesDistinct(format: OutputFormat, base: string, suffix: nat)
    requires TimestampedBase(base) && suffix >= 1
    ensures Distinct(BundleFilenames(format, base, suffix))
  {
    hide BundleFilenames, TimestampedBase;
    var names := BundleFilenames(format, base, suffix);
    forall i, j | 0 <= i < j < |names|
      ensures names[i] != names[j]
    {
      if names[i] == names[j] {
        BundleNamesAreDistinct(format, base, suffix, suffix, i, j);
      }
    }
  }

  /** The least suffix at which every name of the bundle is free. */
  ghost predicate LeastFreeSuffix(files: Files, format: OutputFormat, base: string, suffix: nat) {
    && suffix >= 1 && AllFree(files, BundleFilenames(format, base, suffix))
    && forall s: nat :: 1 <= s < suffix ==> !AllFree(files, BundleFilenames(format, base, s))
  }

  datatype BundleReservation = Bundled(files: seq<ReservedFile>) | NotBundled(residualPaths: seq<string>)

  /** Reserves the names of the first suffix at which all of them can be created. */
  method ReserveReportFiles(dir: Directory, format: OutputFormat, base: string) returns (r: BundleReservation, suffix: nat)
    requires Mine(dir.files) == {} && TimestampedBase(base)
    modifies dir
    ensures OthersKept(old(dir.files), dir.files)
    ensures r.Bundled? ==>
              && suffix >= 1 && IsReservationOf(r.files, BundleFilenames(format, base, suffix))
              && Holds(dir.files, r.files) && Mine(dir.files) == Names(r.files) && Names(r.files) !! old(dir.files).Keys
    ensures r.NotBundled? ==> Mine(dir.files) == SetOf(r.residualPaths)
    ensures Quiet(old(dir.script)) && r.Bundled? ==>
              && LeastFreeSuffix(old(dir.files), format, base, suffix)
              && Quiet(dir.script) && dir.files == WithEmpty(old(dir.files), Names(r.files))
    ensures old(dir.script) == [] ==> r.Bundled? && dir.script == []
  {
    hide BundleFilenames, TimestampedBase, Mine, Names, Occupied, OthersKept;
    suffix := 1;
    ghost var before, quiet := dir.files, Quiet(dir.script);
    KeepsItself(before);
    while true
      invariant suffix >= 1 && Mine(dir.files) == {} && OthersKept(before, dir.files)
      invariant forall name :: name in before && !before[name].mine ==> name in dir.files
      invariant quiet ==> Quiet(dir.script) && dir.files == before
      invariant quiet ==> forall s: nat :: 1 <= s < suffix ==> !AllFree(before, BundleFilenames(format, base, s))
      invariant old(dir.script) == [] ==> dir.script == []
      decreases |dir.script|, |Occupied(dir.files, format, base, suffix)|
    {
      var names := BundleFilenames(format, base, suffix);
      BundleNamesDistinct(format, base, suffix);
      label Attempt:
      ghost var atAttempt := dir.files;
      var reserved, reservation := ReserveCandidateReportFiles(dir, names);
      KeepsTransitively(before, atAttempt, dir.files);
      if reservation.ReservedAll? {
        NoneWasThere(before, atAttempt, reserved);
        if quiet {
          FreeNames(before, names, reserved);
        }
        return Bundled(reservation.files), suffix;
      }
      ghost var atCleanup := dir.files;
      var cleanup := CleanupReservedReportFiles(dir, reserved);
      KeepsTransitively(before, atCleanup, dir.files);
      if cleanup.failed {
        return NotBundled(cleanup.residualPaths), suffix;
      }
      assert Mine(dir.files) == {};
      if quiet {
        CleanedUp(before, Names(reserved));
      }
      if reservation.Refusal? {
        return NotBundled([]), suffix;
      }
      if old@Attempt(dir.script) == [] {
        CleanedUp(atAttempt, Names(reserved));
        assert dir.files == atAttempt;
        OccupiedShrinks(atAttempt, format, base, suffix);
      }
      suffix := suffix + 1;
    }
  }

  ghost predicate IsReservationOf(reserved: seq<ReservedFile>, names: seq<string>) {
    && |reserved| == |names| && DistinctNames(reserved)
    && forall i :: 0 <= i < |reserved| ==> reserved[i] == ReservedFile(names[i], false)
  }

  lemma KeepsItself(files: Files)
    ensures OthersKept(files, files)
  {
  }

  lemma KeepsTransitively(a: Files, b: Files, c: Files)
    requires OthersKept(a, b) && OthersKept(b, c)
    ensures OthersKept(a, c)
  {
  }

  lemma NoneWasThere(before: Files, files: Files, reserved: seq<ReservedFile>)
    requires OthersKept(before, files) && Mine(before) == {} && Names(reserved) !! files.Keys
    ensures Names(reserved) !! before.Keys
  {
    forall name | name in before
      ensures name in files
    {
      assert name !in Mine(before);
    }
  }

  lemma FreeNames(before: Files, names: seq<string>, reserved: seq<ReservedFile>)
    requires |reserved| == |names| && (forall i :: 0 <= i < |names| ==> reserved[i] == ReservedFile(names[i], false))
    requires Names(reserved) !! before.Keys
    ensures AllFree(before, names)
  {
    forall i | 0 <= i < |names|
      ensures names[i] !in before
    {
      assert reserved[i] in reserved;
      assert names[i] in Names(reserved);
    }
  }

  lemma CleanedUp(files: Files, names: set<string>)
    requires names !! files.Keys
    ensures WithEmpty(files, names) - names == files
  {
  }

  // -------- writing --------

  /** Writes, flushes and closes one reserved file; it counts as closed only when all three succeed. */
  method WriteReservedReportFile(dir: Directory, r: ReservedFile, content: Bytes) returns (after: ReservedFile)
    requires r.name in dir.files && dir.files[r.name].mine && !r.closed
    modifies dir
    ensures OthersKept(old(dir.files), dir.files) && Mine(dir.files) == Mine(old(dir.files))
    ensures forall other :: other in old(dir.files) && other != r.name ==> other in dir.files && dir.files[other] == old(dir.files)[other]
    ensures r.name in dir.files && dir.files[r.name].mine
    ensures after.name == r.name && (after.closed ==> dir.files[r.name] == File(true, content))
    ensures Quiet(old(dir.script)) ==> Quiet(dir.script) && dir.files.Keys == old(dir.files).Keys
    ensures old(dir.script) == [] ==> after.closed && dir.script == []
  {
    after := r;
    var ok := dir.Write(r.name, content);
    if !ok {
      return;
    }
    ok := dir.SyncOrClose(r.name);
    if !ok {
      return;
    }
    ok := dir.SyncOrClose(r.name);
    if ok {
      after := r.(closed := true);
    }
  }

  /** The first n reserved files hold their documents. */
  ghost predicate WrittenUpTo(files: Files, reserved: seq<ReservedFile>, documents: seq<Bytes>, n: nat)
    requires n <= |reserved| && n <= |documents|
  {
    forall i :: 0 <= i < n ==> reserved[i].name in files && files[reserved[i].name] == File(true, documents[i])
  }

  ghost predicate SameNames(a: seq<ReservedFile>, b: seq<ReservedFile>) {
    |a| == |b| && forall i :: 0 <= i < |a| ==> a[i].name == b[i].name
  }

  /** Every one of the first n files passes the check of its output metadata. */
  predicate Described(describes: nat -> bool, n: nat) {
    forall i: nat :: i < n ==> describes(i)
  }

  /** Writes the documents in order; the first failure ends it, and so does the first file whose metadata is refused once
      it was written and closed.  The reservations come back as they then are. */
  method WriteReservedReportOutputFiles(dir: Directory, reserved: seq<ReservedFile>, documents: seq<Bytes>, describes: nat -> bool)
    returns (ok: bool, after: seq<ReservedFile>)
    requires Holds(dir.files, reserved) && DistinctNames(reserved) && forall r :: r in reserved ==> !r.closed
    modifies dir
    ensures OthersKept(old(dir.files), dir.files) && Mine(dir.files) == Mine(old(dir.files))
    ensures SameNames(after, reserved) && Holds(dir.files, after)
    ensures ok ==> |documents| == |reserved| && WrittenUpTo(dir.files, reserved, documents, |reserved|) && Described(describes, |reserved|)
    ensures Quiet(old(dir.script)) ==> Quiet(dir.script) && dir.files.Keys == old(dir.files).Keys
    ensures old(dir.script) == [] ==> dir.script == [] && (ok <==> |documents| == |reserved| && Described(describes, |reserved|))
  {
    hide OthersKept, Mine;
    KeepsItself(dir.files);
    after := reserved;
    if |reserved| != |documents| {
      return false, after;
    }
    for i := 0 to |reserved|
      invariant OthersKept(old(dir.files), dir.files) && Mine(dir.files) == Mine(old(dir.files))
      invariant SameNames(after, reserved) && forall k :: i <= k < |reserved| ==> after[k] == reserved[k]
      invariant forall k :: 0 <= k < |reserved| ==> reserved[k].name in dir.files && dir.files[reserved[k].name].mine
      invariant WrittenUpTo(dir.files, reserved, documents, i) && Described(describes, i)
      invariant Quiet(old(dir.script)) ==> Quiet(dir.script) && dir.files.Keys == old(dir.files).Keys
      invariant old(dir.script) == [] ==> dir.script == []
    {
      assert reserved[i] in reserved;
      ghost var before := dir.files;
      var written := WriteReservedReportFile(dir, reserved[i], documents[i]);
      KeepsTransitively(old(dir.files), before, dir.files);
      after := after[i := written];
      if !written.closed || !describes(i) {
        HeldByName(dir.files, reserved, after);
        return false, after;
      }
    }
    HeldByName(dir.files, reserved, after);
    return true, after;
  }

  lemma HeldByName(files: Files, reserved: seq<ReservedFile>, after: seq<ReservedFile>)
    requires SameNames(after, reserved)
    requires forall k :: 0 <= k < |reserved| ==> reserved[k].name in files && files[reserved[k].name].mine
    ensures Holds(files, after)
  {
    forall r | r in after
      ensures r.name in files && files[r.name].mine
    {
      var k :| 0 <= k < |after| && after[k] == r;
      assert reserved[k].name == r.name;
    }
  }

  lemma SameNamesSameSet(a: seq<ReservedFile>, b: seq<ReservedFile>)
    requires SameNames(a, b)
    ensures Names(a) == Names(b) && (DistinctNames(b) ==> DistinctNames(a))
  {
    forall name
      ensures name in Names(a) <==> name in Names(b)
    {
      if name in Names(a) {
        var r :| r in a && r.name == name;
        var k :| 0 <= k < |a| && a[k] == r;
        assert b[k] in b && b[k].name == name;
      }
      if name in Names(b) {
        var r :| r in b && r.name == name;
        var k :| 0 <= k < |b| && b[k] == r;
        assert a[k] in a && a[k].name == name;
      }
    }
  }

  // -------- the bundle --------

  function NameList(reserved: seq<ReservedFile>): (names: seq<string>)
    ensures |names| == |reserved| && forall i :: 0 <= i < |reserved| ==> names[i] == reserved[i].name
  {
    seq(|reserved|, i requires 0 <= i < |reserved| => reserved[i].name)
  }

  /** The files hold the documents of one bundle: the names share a suffix, were free before, and nothing else that
      the attempt created is left. */
  ghost predicate SavedAs(before: Files, files: Files, names: seq<string>, format: OutputFormat, base: string, suffix: nat, documents: seq<Bytes>) {
    && suffix >= 1 && names == BundleFilenames(format, base, suffix) && |documents| == |names|
    && AllFree(before, names)
    && (forall i :: 0 <= i < |names| ==> names[i] in files && files[names[i]] == File(true, documents[i]))
    && Mine(files) == SetOf(names)
  }

  lemma ReservedNames(reserved: seq<ReservedFile>, names: seq<string>)
    requires IsReservationOf(reserved, names)
    ensures NameList(reserved) == names && Names(reserved) == SetOf(names)
  {
    forall name
      ensures name in Names(reserved) <==> name in SetOf(names)
    {
      if name in Names(reserved) {
        var r :| r in reserved && r.name == name;
        var k :| 0 <= k < |reserved| && reserved[k] == r;
        assert names[k] == name;
      }
      if name in SetOf(names) {
        var k :| 0 <= k < |names| && names[k] == name;
        assert reserved[k] in reserved;
      }
    }
  }

  /** One attempt to write a bundle, against any disturbance.  Files of others are never touched.  On success the
      directory holds exactly the bundle's new files, with matched suffix and full contents.  On failure whatever the
      attempt created is gone or listed as residual.  Without other creators the suffix is the least whose names are
      all free; without disturbance the attempt succeeds.  The last two arguments say which written files pass the check
      of their metadata and whether the finished bundle passes its own validation. */
  method WriteReportOutputBundle(dir: Directory, format: OutputFormat, base: string, documents: seq<Bytes>, describes: nat -> bool, accepted: bool)
    returns (outcome: WriteOutcome)
    requires Mine(dir.files) == {} && TimestampedBase(base)
    modifies dir
    ensures OthersKept(old(dir.files), dir.files)
    ensures outcome.Saved? ==>
              exists suffix: nat :: SavedAs(old(dir.files), dir.files, outcome.names, format, base, suffix, documents)
                                    && (Quiet(old(dir.script)) ==> LeastFreeSuffix(old(dir.files), format, base, suffix))
    ensures outcome.Saved? && Quiet(old(dir.script)) ==> dir.files.Keys == old(dir.files).Keys + SetOf(outcome.names)
    ensures outcome.NotSaved? ==> Mine(dir.files) == SetOf(outcome.residualPaths)
    ensures outcome.Saved? ==> accepted && Described(describes, |documents|)
    ensures old(dir.script) == [] && accepted && Described(describes, |documents|) && |documents| == |BundleFilenames(format, base, 1)| ==>
              outcome.Saved?
  {
    hide BundleFilenames, TimestampedBase, Mine, Names, OthersKept;
    KeepsItself(dir.files);
    SameBundleSize(format, base, 1, 1);
    if |documents| != |BundleFilenames(format, base, 1)| {
      return NotSaved([]);
    }
    var reservation, suffix := ReserveReportFiles(dir, format, base);
    if reservation.NotBundled? {
      return NotSaved(reservation.residualPaths);
    }
    var reserved := reservation.files;
    SameBundleSize(format, base, 1, suffix);
    ReservedNames(reserved, BundleFilenames(format, base, suffix));
    FreeNames(old(dir.files), BundleFilenames(format, base, suffix), reserved);
    ghost var atWrite := dir.files;
    var ok, after := WriteReservedReportOutputFiles(dir, reserved, documents, describes);
    KeepsTransitively(old(dir.files), atWrite, dir.files);
    SameNamesSameSet(after, reserved);
    if !ok || !accepted {
      ghost var atCleanup := dir.files;
      var cleanup := CleanupReservedReportFiles(dir, after);
      KeepsTransitively(old(dir.files), atCleanup, dir.files);
      return NotSaved(cleanup.residualPaths);
    }
    ghost var names := BundleFilenames(format, base, suffix);
    assert SavedAs(old(dir.files), dir.files, names, format, base, suffix, documents);
    return Saved(NameList(reserved));
  }

  lemma SameBundleSize(format: OutputFormat, base: string, s: nat, t: nat)
    ensures |BundleFilenames(format, base, s)| == |BundleFilenames(format, base, t)|
  {
  }

  /** What a quiet, successful attempt leaves, spelled out: the old directory and the bundle's files, nothing else. */
  lemma QuietBundleIsExact(before: Files, files: Files, names: seq<string>, format: OutputFormat, base: string, suffix: nat, documents: seq<Bytes>)
    requires Mine(before) == {} && OthersKept(before, files) && files.Keys == before.Keys + SetOf(names)
    requires SavedAs(before, files, names, format, base, suffix, documents)
    ensures forall name :: name in files ==>
              (name in before && files[name] == before[name])
              || exists i :: 0 <= i < |names| && names[i] == name && files[name] == File(true, documents[i])
  {
    forall name | name in files
      ensures (name in before && files[name] == before[name])
              || exists i :: 0 <= i < |names| && names[i] == name && files[name] == File(true, documents[i])
    {
      if name in before {
        assert name !in Mine(before);
      } else {
        assert name in SetOf(names);
        var i :| 0 <= i < |names| && names[i] == name;
      }
    }
  }
}
