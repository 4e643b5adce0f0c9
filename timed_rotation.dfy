/** `TimedRotatingFile`, the day-based rotating writer: once the clock reaches the
    deadline `rotatorAt` it closes the active file, renames it to
    `filename.YYYY-MM-DD` (the day the finished period began), deletes all but the
    newest `backupCount` dated backups, moves the deadline on and reopens.

    As for the size-based writer, the behaviour is given first as functions on a
    `State` value and the class is proved to run exactly those steps. The clock is a
    pair of inputs: `now` (seconds since the epoch) and `secs` (the local clock's time
    of day at `now`, in seconds); `localDate` is the local calendar. */
module TimedRotation {
  import opened Os
  import opened Handler
  import opened Sort
  import Compare

  /** The active file is `dirName + baseName`, `filepath.Split` of the absolute path. */
  datatype Config = Config(dirName: string, baseName: string, localDate: int -> CivilDate)

  function Filename(c: Config): string
  {
    c.dirName + c.baseName
  }

  datatype State = State(files: Files, w: Option<Handle>, rotatorAt: int, interval: int, backupCount: int)

  datatype Outcome = Outcome(st: State, err: Option<Error>)

  datatype WriteResult = WriteResult(st: State, n: nat, err: Option<Error>)

  /** A writer every later call fails on: no handle, or a handle already closed. */
  predicate Dead(st: State)
  {
    st.w.None? || st.w.value.closed
  }

  // ---------------------------------------------------------------------------
  // The deadline

  /** `reComputeRollover`: `now` minus the local time of day, plus one interval. */
  function NextRollover(now: int, secs: int, interval: int): int
  {
    now + (interval - secs)
  }

  /** With an interval of `n >= 1` days the new deadline is in the future, `n` days
      after `now - secs`. That is the local midnight of `now` unless the UTC offset
      changed since then, and `n` days on need not be a local midnight again. */
  lemma NextRolloverInFuture(now: int, secs: int, n: int)
    requires n >= 1 && 0 <= secs < DAY
    ensures NextRollover(now, secs, n * DAY) > now
    ensures NextRollover(now, secs, n * DAY) == (now - secs) + n * DAY
  {
  }

  /** `shouldRollover` */
  predicate ShouldRollover(st: State, now: int)
  {
    now >= st.rotatorAt
  }

  /** Right after the deadline is recomputed, the same instant does not roll over again. */
  lemma NoRolloverRightAfterRecompute(st: State, now: int, secs: int)
    requires 0 <= secs < st.interval
    ensures !ShouldRollover(st.(rotatorAt := NextRollover(now, secs, st.interval)), now)
  {
  }

  /** `filename + "." + time.Unix(dstTime, 0).Format(DAY_FMT)` */
  function BackupPath(c: Config, t: int): string
  {
    Filename(c) + "." + FormatDay(c.localDate(t))
  }

  // ---------------------------------------------------------------------------
  // Selecting the backups to prune

  /** The absolute paths `filepath.Join(dirName, fileName)` of the directory entries
      matching the backup pattern, in listing order. */
  function Filter(dir: string, base: string, names: seq<string>): seq<string>
  {
    if names == [] then []
    else
      var last := names[|names| - 1];
      Filter(dir, base, names[..|names| - 1]) + (if IsBackupEntry(base, last) then [dir + last] else [])
  }

  /** The day backups of the active file present in the filesystem. */
  ghost function MatchingBackups(files: Files, dir: string, base: string): set<string>
  {
    set k | k in files && IsChild(dir, k) && IsBackupEntry(base, k[|dir|..])
  }

  /** All but the newest `b` of the backups `m`, in ascending order; nothing when there
      are at most `b`. */
  ghost function PruneList(m: set<string>, b: int): (r: seq<string>)
    requires b >= 0
    ensures |m| <= b ==> r == []
    ensures |m| > b ==> |r| == |m| - b
    ensures Distinct(r) && forall x :: x in r ==> x in m
  {
    var s := SortedOf(m);
    if |s| <= b then []
    else
      PrefixOfListing(m, s, |s| - b);
      s[..|s| - b]
  }

  lemma PrefixOfListing(m: set<string>, s: seq<string>, k: nat)
    requires Distinct(s) && multiset(s) == multiset(m) && k <= |s|
    ensures Distinct(s[..k]) && forall x :: x in s[..k] ==> x in m
  {
    forall x | x in s[..k]
      ensures x in m
    {
      assert x in multiset(s);
    }
  }

  /** `getFilesToDelete`: nothing when the directory cannot be listed. */
  ghost function PruneSpec(files: Files, faults: set<Fault>, c: Config, b: int): seq<string>
    requires b >= 0
  {
    if Fault(OpList, c.dirName) in faults then []
    else PruneList(MatchingBackups(files, c.dirName, c.baseName), b)
  }

  /** Every pruned backup is older (sorts lower) than every backup kept. */
  lemma PruneTakesOldest(m: set<string>, b: int)
    requires b >= 0
    ensures forall x, y :: x in PruneList(m, b) && y in m && y !in PruneList(m, b) ==>
      Compare.StrCompare(x, y) < 0
  {
    var s := SortedOf(m);
    var r := PruneList(m, b);
    forall x, y | x in r && y in m && y !in r
      ensures Compare.StrCompare(x, y) < 0
    {
      assert y in multiset(s);
      var i :| 0 <= i < |r| && r[i] == x;
      var j :| 0 <= j < |s| && s[j] == y;
      assert r == s[..|r|];
      assert s[i] == x;
      assert forall k :: 0 <= k < |r| ==> s[k] in r;
      assert j >= |r|;
      SortedDistinctStrict(s, i, j);
    }
  }

  lemma {:induction false} FilterMembers(dir: string, base: string, names: seq<string>)
    ensures forall x :: x in Filter(dir, base, names) <==>
      exists n :: n in names && IsBackupEntry(base, n) && x == dir + n
  {
    if names != [] {
      var init := names[..|names| - 1];
      FilterMembers(dir, base, init);
      assert names == init + [names[|names| - 1]];
    }
  }

  lemma {:induction false} FilterDistinct(dir: string, base: string, names: seq<string>)
    requires Distinct(names)
    ensures Distinct(Filter(dir, base, names))
  {
    if names != [] {
      var init := names[..|names| - 1];
      var last := names[|names| - 1];
      FilterDistinct(dir, base, init);
      var a := Filter(dir, base, init);
      if IsBackupEntry(base, last) {
        FilterMembers(dir, base, init);
        assert last !in init;
        forall n | n in init
          ensures dir + last != dir + n
        {
          if dir + last == dir + n {
            PrefixCancel(dir, last, n);
          }
        }
        assert dir + last !in a;
        var r := a + [dir + last];
        forall i, j | 0 <= i < j < |r|
          ensures r[i] != r[j]
        {
          if j == |r| - 1 {
            assert r[i] in a;
          }
        }
      }
    }
  }

  lemma PrefixCancel(dir: string, x: string, y: string)
    requires dir + x == dir + y
    ensures x == y
  {
    assert x == (dir + x)[|dir|..];
    assert y == (dir + y)[|dir|..];
  }

  /** The filtered listing names each matching backup once. */
  lemma ListingMatches(files: Files, dir: string, base: string, names: seq<string>)
    requires Distinct(names)
    requires forall n :: n in names ==> dir + n in files && IsChild(dir, dir + n)
    requires forall k :: k in files && IsChild(dir, k) ==> k[|dir|..] in names
    ensures Distinct(Filter(dir, base, names))
    ensures forall x :: x in Filter(dir, base, names) <==> x in MatchingBackups(files, dir, base)
  {
    FilterDistinct(dir, base, names);
    FilterMembers(dir, base, names);
    forall x
      ensures x in Filter(dir, base, names) <==> x in MatchingBackups(files, dir, base)
    {
      if x in Filter(dir, base, names) {
        var n :| n in names && IsBackupEntry(base, n) && x == dir + n;
        assert x[|dir|..] == n;
      }
      if x in MatchingBackups(files, dir, base) {
        var n := x[|dir|..];
        assert x == dir + n;
      }
    }
  }

  lemma {:induction false} DistinctSeqMultiset(s: seq<string>, m: set<string>)
    requires Distinct(s) && forall x :: x in s <==> x in m
    ensures multiset(s) == multiset(m)
  {
    if s == [] {
      assert m == {};
    } else {
      var rest := m - {s[0]};
      assert s[0] !in s[1..];
      assert forall x :: x in s[1..] <==> x in rest;
      DistinctSeqMultiset(s[1..], rest);
      assert s == [s[0]] + s[1..];
      assert m == rest + {s[0]};
    }
  }

  lemma FilterSnoc(dir: string, base: string, names: seq<string>, i: int)
    requires 0 <= i < |names|
    ensures Filter(dir, base, names[..i + 1]) ==
      Filter(dir, base, names[..i]) + (if IsBackupEntry(base, names[i]) then [dir + names[i]] else [])
  {
    assert names[..i + 1][..i] == names[..i];
  }

  /** Sorting the filtered listing and cutting off the newest `b` gives `PruneList`. */
  lemma SortedListingPrunes(files: Files, dir: string, base: string, names: seq<string>, b: int)
    requires b >= 0 && Distinct(names)
    requires forall n :: n in names ==> dir + n in files && IsChild(dir, dir + n)
    requires forall k :: k in files && IsChild(dir, k) ==> k[|dir|..] in names
    ensures |Filter(dir, base, names)| == |MatchingBackups(files, dir, base)|
    ensures |Filter(dir, base, names)| > b ==>
      SortStrings(Filter(dir, base, names))[..|Filter(dir, base, names)| - b] ==
      PruneList(MatchingBackups(files, dir, base), b)
  {
    var result := Filter(dir, base, names);
    var m := MatchingBackups(files, dir, base);
    ListingMatches(files, dir, base, names);
    DistinctSeqMultiset(result, m);
    assert |result| == |multiset(result)| == |multiset(m)| == |m|;
    SortedUnique(SortStrings(result), SortedOf(m));
  }

  /** `getFilesToDelete` after a successful listing: sort the matching entries and
      keep all but the newest `b`. */
  lemma ListingSelectsPruned(files: Files, faults: set<Fault>, c: Config, names: seq<string>, b: int)
    requires b >= 0 && Fault(OpList, c.dirName) !in faults && Distinct(names)
    requires forall n :: n in names ==> c.dirName + n in files && IsChild(c.dirName, c.dirName + n)
    requires forall k :: k in files && IsChild(c.dirName, k) ==> k[|c.dirName|..] in names
    ensures var result := Filter(c.dirName, c.baseName, names);
      PruneSpec(files, faults, c, b) == if |result| <= b then [] else SortStrings(result)[..|result| - b]
  {
    SortedListingPrunes(files, c.dirName, c.baseName, names, b);
  }

  // ---------------------------------------------------------------------------
  // Removal of the pruned backups

  /** `os.Remove` on each path in turn, errors ignored. */
  function RemoveEach(files: Files, faults: set<Fault>, paths: seq<string>): Files
  {
    if paths == [] then files else RemoveEach(Remove(files, faults, paths[0]).files, faults, paths[1..])
  }

  /** Every listed path whose removal is not made to fail is gone; nothing else changes. */
  lemma {:induction false} RemoveEachRemoves(files: Files, faults: set<Fault>, paths: seq<string>)
    ensures RemoveEach(files, faults, paths) ==
      files - (set x | x in paths && Fault(OpRemove, x) !in faults)
  {
    if paths == [] {
      assert (set x | x in paths && Fault(OpRemove, x) !in faults) == {};
      assert files - {} == files;
    } else {
      var p := paths[0];
      var next := Remove(files, faults, p).files;
      RemoveEachRemoves(next, faults, paths[1..]);
      var rest := set x | x in paths[1..] && Fault(OpRemove, x) !in faults;
      var all := set x | x in paths && Fault(OpRemove, x) !in faults;
      assert forall x :: x in paths <==> x == p || x in paths[1..];
      if Fault(OpRemove, p) !in faults {
        assert all == rest + {p};
        assert next == files - {p};
      } else {
        assert all == rest;
      }
      assert next - rest == files - all;
    }
  }

  // ---------------------------------------------------------------------------
  // The code as written

  /** `Close`: an error leaves the handle in place (closed); success drops it. */
  function CloseSpec(faults: set<Fault>, st: State): (o: Outcome)
    requires st.w.Some?
    ensures o.err.None? <==> o.st.w.None?
    ensures o.err.Some? ==> Dead(o.st)
    ensures o.st.files == st.files && o.st.rotatorAt == st.rotatorAt
  {
    var e := FdClose(faults, st.w.value);
    if e.Some? then Outcome(st.(w := Some(st.w.value.(closed := true))), e)
    else Outcome(st.(w := None), None)
  }

  /** `open` */
  function OpenSpec(c: Config, faults: set<Fault>, st: State): (o: Outcome)
    ensures o.err.None? ==> o.st.w == Some(Handle(Filename(c), false)) && IsFile(o.st.files, Filename(c))
    ensures o.err.Some? ==> o.st == st
  {
    var op := OpenFile(st.files, faults, Filename(c), FILE_PERM);
    if op.err.Some? then Outcome(st, op.err)
    else Outcome(st.(files := op.files, w := Some(Handle(Filename(c), false))), None)
  }

  /** The rename step of `doRollover`: any file at the backup path is removed (errors
      ignored), then the active file is renamed there if it is a regular file. */
  function RetireToBackup(files: Files, faults: set<Fault>, f: string, dst: string): (o: FsOut)
    ensures o.err.Some? ==> o.files == (if dst in files then Remove(files, faults, dst).files else files)
  {
    var files1 := if dst in files then Remove(files, faults, dst).files else files;
    if IsFile(files1, f) then Rename(files1, faults, f, dst) else FsOut(files1, None)
  }

  /** The pruning step of `doRollover`, only when `backupCount > 0`. */
  ghost function PruneBackups(files: Files, faults: set<Fault>, c: Config, b: int): Files
  {
    if b > 0 then RemoveEach(files, faults, PruneSpec(files, faults, c, b)) else files
  }

  /** `doRollover` */
  ghost function RolloverSpec(c: Config, faults: set<Fault>, st: State, now: int, secs: int): (o: Outcome)
    requires st.w.Some?
    ensures o.err.Some? ==> Dead(o.st)
    ensures o.err.None? ==> o.st.w == Some(Handle(Filename(c), false))
    ensures o.st.interval == st.interval && o.st.backupCount == st.backupCount
  {
    var cl := CloseSpec(faults, st);
    if cl.err.Some? then cl else AfterClose(c, faults, cl.st, now, secs)
  }

  /** The steps of `doRollover` after a successful close: the rename to the backup
      path of the period that ended, the prune, the new deadline and the `open`. */
  ghost function AfterClose(c: Config, faults: set<Fault>, st: State, now: int, secs: int): Outcome
  {
    var mv := RetireToBackup(st.files, faults, Filename(c), BackupPath(c, st.rotatorAt - st.interval));
    AfterRetire(c, faults, st.(files := mv.files), mv.err, now, secs)
  }

  /** A failed rename ends the rollover; otherwise the prune and the `open` follow. */
  ghost function AfterRetire(c: Config, faults: set<Fault>, st: State, err: Option<Error>, now: int, secs: int): Outcome
  {
    if err.Some? then Outcome(st, err) else PruneAndOpen(c, faults, st, now, secs)
  }

  /** The last steps of `doRollover`: the prune, the new deadline and the `open`. */
  ghost function PruneAndOpen(c: Config, faults: set<Fault>, st: State, now: int, secs: int): Outcome
  {
    var pruned := PruneBackups(st.files, faults, c, st.backupCount);
    OpenSpec(c, faults, st.(files := pruned, rotatorAt := NextRollover(now, secs, st.interval)))
  }

  /** `t.w.Write(data)` */
  function HandleWrite(faults: set<Fault>, st: State, data: seq<byte>): WriteResult
    requires st.w.Some?
  {
    var wr := FdWrite(st.files, faults, st.w.value, data);
    WriteResult(st.(files := wr.files), wr.n, wr.err)
  }

  /** `Write`: refuse when there is no handle, roll over first when the deadline has
      passed, then write to the handle. */
  ghost function WriteSpec(c: Config, faults: set<Fault>, st: State, data: seq<byte>, now: int, secs: int): (r: WriteResult)
    ensures st.w.None? ==> r == WriteResult(st, 0, Some(ErrFileNotOpen))
    ensures r.err.Some? ==> r.n == 0
    ensures r.err.None? ==> r.n == |data|
  {
    if st.w.None? then WriteResult(st, 0, Some(ErrFileNotOpen))
    else if ShouldRollover(st, now) then
      var rolled := RolloverSpec(c, faults, st, now, secs);
      if rolled.err.Some? then WriteResult(rolled.st, 0, rolled.err)
      else HandleWrite(faults, rolled.st, data)
    else HandleWrite(faults, st, data)
  }

  // ---------------------------------------------------------------------------
  // The writer object

  class TimedRotatingFile {
    const fs: FileSystem
    const dirName: string
    const baseName: string
    const localDate: int -> CivilDate
    var w: Option<Handle>
    var backupCount: int
    var interval: int
    var rotatorAt: int

    function Settings(): Config
    {
      Config(dirName, baseName, localDate)
    }

    function Snapshot(): State
      reads this, fs
    {
      State(fs.files, w, rotatorAt, interval, backupCount)
    }

    /** `NewTimedRotatingFile`: 31 backups, a one-day interval, then `open` (whose
        failure panics, hence the precondition). */
    constructor (fs: FileSystem, dirName: string, baseName: string, localDate: int -> CivilDate, now: int, secs: int)
      requires OpenFile(fs.files, fs.faults, dirName + baseName, FILE_PERM).err.None?
      modifies fs`files
      ensures this.fs == fs && this.dirName == dirName && this.baseName == baseName
      ensures this.localDate == localDate
      ensures backupCount == DEFAULT_BACKUP_COUNT && interval == DAY
      ensures rotatorAt == NextRollover(now, secs, DAY)
      ensures w == Some(Handle(dirName + baseName, false))
      ensures fs.files == OpenFile(old(fs.files), fs.faults, dirName + baseName, FILE_PERM).files
    {
      this.fs := fs;
      this.dirName := dirName;
      this.baseName := baseName;
      this.localDate := localDate;
      w := None;
      backupCount := 0;
      interval := 0;
      rotatorAt := 0;
      new;
      SetBackupCount(DEFAULT_BACKUP_COUNT);
      SetInterval(1, now, secs);
      var err := Open();
    }

    method SetBackupCount(num: int)
      modifies this`backupCount
      ensures backupCount == num
    {
      backupCount := num;
    }

    /** `SetInterval(n)`: `n` days, and the deadline recomputed. */
    method SetInterval(n: int, now: int, secs: int)
      modifies this`interval, this`rotatorAt
      ensures interval == n * DAY
      ensures rotatorAt == NextRollover(now, secs, interval)
    {
      interval := n * DAY;
      ReComputeRollover(now, secs);
    }

    method ReComputeRollover(now: int, secs: int)
      modifies this`rotatorAt
      ensures rotatorAt == NextRollover(now, secs, interval)
    {
      var r := interval - secs;
      rotatorAt := now + r;
    }

    method ShouldRolloverAt(now: int) returns (b: bool)
      ensures b == ShouldRollover(Snapshot(), now)
    {
      b := now >= rotatorAt;
    }

    /** `Close` calls the handle without a nil check: callers must hold one. */
    method Close() returns (err: Option<Error>)
      requires w.Some?
      modifies this`w
      ensures Outcome(Snapshot(), err) == CloseSpec(fs.faults, old(Snapshot()))
    {
      err := fs.Close(w.value);
      if err.Some? {
        w := Some(w.value.(closed := true));
        return;
      }
      w := None;
    }

    method Open() returns (err: Option<Error>)
      modifies this`w, fs`files
      ensures Outcome(Snapshot(), err) == OpenSpec(Settings(), fs.faults, old(Snapshot()))
    {
      var h;
      h, err := fs.Open(dirName + baseName, FILE_PERM);
      if err.Some? {
        return;
      }
      w := h;
    }

    method GetFilesToDelete() returns (r: seq<string>)
      requires backupCount >= 0
      ensures r == PruneSpec(fs.files, fs.faults, Settings(), backupCount)
    {
      var dir, base, b := dirName, baseName, backupCount;
      var listing := fs.ListDir(dir);
      if listing.None? {
        return [];
      }
      var names := listing.value;
      var result: seq<string> := [];
      var i := 0;
      while i < |names|
        invariant 0 <= i <= |names|
        invariant result == Filter(dir, base, names[..i])
      {
        var fileName := names[i];
        FilterSnoc(dir, base, names, i);
        if IsBackupEntry(base, fileName) {
          result := result + [dir + fileName];
        }
        i := i + 1;
      }
      assert names[..|names|] == names;
      ListingSelectsPruned(fs.files, fs.faults, Settings(), names, b);
      if |result| <= b {
        return [];
      }
      var sorted := SortStrings(result);
      r := sorted[..|sorted| - b];
    }

    /** The rename step of `doRollover`: clear the dated backup path, then move a
        regular active file there. */
    method RetireActive() returns (err: Option<Error>)
      modifies fs`files
      ensures FsOut(fs.files, err) ==
        RetireToBackup(old(fs.files), fs.faults, Filename(Settings()), BackupPath(Settings(), rotatorAt - interval))
    {
      var f := dirName + baseName;
      var dstPath := f + "." + FormatDay(localDate(rotatorAt - interval));
      if fs.IsExist(dstPath) {
        var ignored := fs.RemovePath(dstPath);
      }
      err := None;
      if fs.IsRegular(f) {
        err := fs.RenamePath(f, dstPath);
      }
    }

    /** The prune step of `doRollover`: with a positive `backupCount`, delete the
        backups `getFilesToDelete` selects, ignoring each removal's error. */
    method Prune()
      modifies fs`files
      ensures fs.files == PruneBackups(old(fs.files), fs.faults, Settings(), backupCount)
    {
      if backupCount > 0 {
        var paths := GetFilesToDelete();
        ghost var start := fs.files;
        var i := 0;
        while i < |paths|
          invariant 0 <= i <= |paths|
          invariant RemoveEach(fs.files, fs.faults, paths[i..]) == RemoveEach(start, fs.faults, paths)
        {
          var ignored := fs.RemovePath(paths[i]);
          i := i + 1;
        }
      }
    }

    method DoRollover(now: int, secs: int) returns (err: Option<Error>)
      requires w.Some?
      modifies this, fs`files
      ensures Outcome(Snapshot(), err) == RolloverSpec(Settings(), fs.faults, old(Snapshot()), now, secs)
    {
      ghost var st := Snapshot();
      err := Close();
      if err.Some? {
        RolloverCloseFails(Settings(), fs.faults, st, now, secs);
        return;
      }
      RolloverAfterClose(Settings(), fs.faults, st, now, secs);
      err := RetireAndReopen(now, secs);
    }

    /** Everything `doRollover` does after a successful close: rename, then prune,
        recompute the deadline and reopen unless the rename failed. */
    method RetireAndReopen(now: int, secs: int) returns (err: Option<Error>)
      modifies this, fs`files
      ensures Outcome(Snapshot(), err) == AfterClose(Settings(), fs.faults, old(Snapshot()), now, secs)
    {
      ghost var st := Snapshot();
      err := RetireActive();
      assert Snapshot() == st.(files := fs.files);
      assert AfterClose(Settings(), fs.faults, st, now, secs) == AfterRetire(Settings(), fs.faults, Snapshot(), err, now, secs);
      if err.Some? {
        return;
      }
      err := PruneAndReopen(now, secs);
    }

    /** The last steps of `doRollover`: prune, recompute the deadline, reopen. */
    method PruneAndReopen(now: int, secs: int) returns (err: Option<Error>)
      modifies this, fs`files
      ensures Outcome(Snapshot(), err) == PruneAndOpen(Settings(), fs.faults, old(Snapshot()), now, secs)
    {
      Prune();
      ReComputeRollover(now, secs);
      err := Open();
    }

    method Write(data: seq<byte>, now: int, secs: int) returns (n: nat, err: Option<Error>)
      modifies this, fs`files
      ensures WriteResult(Snapshot(), n, err) == WriteSpec(Settings(), fs.faults, old(Snapshot()), data, now, secs)
    {
      if w.None? {
        n, err := 0, Some(ErrFileNotOpen);
        return;
      }
      var roll := ShouldRolloverAt(now);
      if roll {
        err := DoRollover(now, secs);
        if err.Some? {
          n := 0;
          return;
        }
      }
      n, err := fs.Write(w.value, data);
    }

    /** `WriteString` is `Write` of the string's bytes. */
    method WriteString(data: seq<byte>, now: int, secs: int) returns (n: nat, err: Option<Error>)
      modifies this, fs`files
      ensures WriteResult(Snapshot(), n, err) == WriteSpec(Settings(), fs.faults, old(Snapshot()), data, now, secs)
    {
      n, err := Write(data, now, secs);
    }
  }

  // ---------------------------------------------------------------------------
  // What the writer guarantees

  /** Once a writer is dead every write fails and changes nothing. */
  lemma DeadWriterStaysDead(c: Config, faults: set<Fault>, st: State, data: seq<byte>, now: int, secs: int)
    requires Dead(st)
    ensures var r := WriteSpec(c, faults, st, data, now, secs);
      r.err.Some? && r.n == 0 && r.st == st
  {
    if st.w.Some? && ShouldRollover(st, now) {
      assert st.w.value.(closed := true) == st.w.value;
    }
  }

  /** After a successful `Close` every later write answers `ErrFileNotOpen`. */
  lemma WriteAfterCloseFails(c: Config, faults: set<Fault>, st: State, data: seq<byte>, now: int, secs: int)
    requires st.w.Some? && CloseSpec(faults, st).err.None?
    ensures var closed := CloseSpec(faults, st).st;
      WriteSpec(c, faults, closed, data, now, secs) == WriteResult(closed, 0, Some(ErrFileNotOpen))
  {
  }

  /** A failed rollover is terminal: it leaves a dead writer, on which every later
      write fails without effect. */
  lemma FailedRolloverIsTerminal(c: Config, faults: set<Fault>, st: State, data: seq<byte>, now: int, secs: int)
    requires st.w.Some? && RolloverSpec(c, faults, st, now, secs).err.Some?
    ensures var after := RolloverSpec(c, faults, st, now, secs).st;
      var r := WriteSpec(c, faults, after, data, now, secs);
      r.err.Some? && r.st == after
  {
    DeadWriterStaysDead(c, faults, RolloverSpec(c, faults, st, now, secs).st, data, now, secs);
  }

  /** Before the deadline a write goes to the open file and nothing else changes. */
  lemma WriteBeforeDeadlineAppends(c: Config, st: State, data: seq<byte>, now: int, secs: int)
    requires st.w == Some(Handle(Filename(c), false)) && now < st.rotatorAt
    ensures WriteSpec(c, {}, st, data, now, secs) ==
      WriteResult(st.(files := Append(st.files, Filename(c), data)), |data|, None)
  {
  }

  /** The no-fault prune: the backups `getFilesToDelete` selects are gone. */
  ghost function Pruned(files: Files, c: Config, b: int): (r: Files)
    ensures forall p :: p in r ==> p in files
  {
    if b > 0 then files - (set x | x in PruneList(MatchingBackups(files, c.dirName, c.baseName), b))
    else files
  }

  /** The files a rollover leaves when nothing fails, from the filesystem just after
      the rename: the prune, then a fresh empty active file. */
  ghost function Reopened(files: Files, c: Config, b: int): Files
  {
    Pruned(files, c, b)[Filename(c) := Regular([], FILE_PERM)]
  }

  lemma RetireWithoutFaults(files: Files, f: string, dst: string)
    requires IsFile(files, f) && f != dst
    ensures RetireToBackup(files, {}, f, dst) == FsOut(MoveFile(files, f, dst), None)
  {
    var files1 := if dst in files then files - {dst} else files;
    assert (files1 - {f})[dst := files[f]] == MoveFile(files, f, dst);
  }

  lemma PruneWithoutFaults(c: Config, files: Files, b: int)
    ensures PruneBackups(files, {}, c, b) == Pruned(files, c, b)
  {
    if b > 0 {
      var pruned := PruneList(MatchingBackups(files, c.dirName, c.baseName), b);
      assert PruneSpec(files, {}, c, b) == pruned;
      RemoveEachWithoutFaults(files, pruned);
    }
  }

  lemma RemoveEachWithoutFaults(files: Files, paths: seq<string>)
    ensures RemoveEach(files, {}, paths) == files - (set x | x in paths)
  {
    RemoveEachRemoves(files, {}, paths);
    assert (set x | x in paths && Fault(OpRemove, x) !in {}) == (set x | x in paths);
  }

  /** A rollover where nothing fails: the active file becomes the dated backup of the
      period that ended, the oldest backups beyond `backupCount` are deleted, a fresh
      empty active file is opened and the deadline moves on. */
  lemma RolloverWithoutFaults(c: Config, st: State, now: int, secs: int)
    requires st.w.Some? && !st.w.value.closed && IsFile(st.files, Filename(c))
    ensures RolloverSpec(c, {}, st, now, secs) ==
      Outcome(st.(files := Reopened(MoveFile(st.files, Filename(c), BackupPath(c, st.rotatorAt - st.interval)), c, st.backupCount),
        w := Some(Handle(Filename(c), false)), rotatorAt := NextRollover(now, secs, st.interval)), None)
  {
    CloseWithoutFaults(st);
    RolloverAfterClose(c, {}, st, now, secs);
    BackupPathIsNotActive(c, st.rotatorAt - st.interval);
    AfterCloseWithoutFaults(c, st.(w := None), now, secs);
  }

  lemma CloseWithoutFaults(st: State)
    requires st.w.Some? && !st.w.value.closed
    ensures CloseSpec({}, st) == Outcome(st.(w := None), None)
  {
  }

  /** A failed close ends the rollover: nothing is renamed, pruned or reopened. */
  lemma RolloverCloseFails(c: Config, faults: set<Fault>, st: State, now: int, secs: int)
    requires st.w.Some? && CloseSpec(faults, st).err.Some?
    ensures RolloverSpec(c, faults, st, now, secs) == CloseSpec(faults, st)
  {
  }

  /** A close that does not fail leads on to the steps after it. */
  lemma RolloverAfterClose(c: Config, faults: set<Fault>, st: State, now: int, secs: int)
    requires st.w.Some? && CloseSpec(faults, st).err.None?
    ensures RolloverSpec(c, faults, st, now, secs) ==
      AfterClose(c, faults, CloseSpec(faults, st).st, now, secs)
  {
  }

  lemma BackupPathIsNotActive(c: Config, t: int)
    ensures BackupPath(c, t) != Filename(c)
  {
    FormatDayShape(c.localDate(t));
    assert |BackupPath(c, t)| == |Filename(c)| + 11;
  }

  /** Without failures the steps after the close move the active file to its backup path, prune,
      move the deadline and open a fresh file. */
  lemma AfterCloseWithoutFaults(c: Config, st: State, now: int, secs: int)
    requires IsFile(st.files, Filename(c))
    ensures BackupPath(c, st.rotatorAt - st.interval) != Filename(c)
    ensures AfterClose(c, {}, st, now, secs) ==
      Outcome(st.(files := Reopened(MoveFile(st.files, Filename(c), BackupPath(c, st.rotatorAt - st.interval)), c, st.backupCount),
        w := Some(Handle(Filename(c), false)), rotatorAt := NextRollover(now, secs, st.interval)), None)
  {
    var dst := BackupPath(c, st.rotatorAt - st.interval);
    BackupPathIsNotActive(c, st.rotatorAt - st.interval);
    RetireWithoutFaults(st.files, Filename(c), dst);
    PruneAndOpenWithoutFaults(c, st.(files := MoveFile(st.files, Filename(c), dst)), now, secs);
  }

  /** Without failures the last steps prune, move the deadline and open a fresh file. */
  lemma PruneAndOpenWithoutFaults(c: Config, st: State, now: int, secs: int)
    requires Filename(c) !in st.files
    ensures PruneAndOpen(c, {}, st, now, secs) == Outcome(st.(files := Reopened(st.files, c, st.backupCount),
      w := Some(Handle(Filename(c), false)), rotatorAt := NextRollover(now, secs, st.interval)), None)
  {
    var f := Filename(c);
    PruneWithoutFaults(c, st.files, st.backupCount);
    var p := Pruned(st.files, c, st.backupCount);
    assert f !in p;
    assert OpenFile(p, {}, f, FILE_PERM) == FsOut(p[f := Regular([], FILE_PERM)], None);
  }

  lemma MatchingAfterRemoval(files: Files, gone: set<string>, dir: string, base: string)
    ensures MatchingBackups(files - gone, dir, base) == MatchingBackups(files, dir, base) - gone
  {
  }

  lemma {:induction false} DistinctSetSize(s: seq<string>)
    requires Distinct(s)
    ensures |set x | x in s| == |s|
  {
    var gone := set x | x in s;
    DistinctSeqMultiset(s, gone);
    assert |gone| == |multiset(gone)| == |multiset(s)| == |s|;
  }

  lemma SubsetDifferenceSize(m: set<string>, gone: set<string>)
    requires gone <= m
    ensures |m - gone| == |m| - |gone|
  {
    assert m == (m - gone) + gone && (m - gone) * gone == {};
  }

  /** The prune keeps exactly the newest `min(count, b)` backups, each newer than every
      one deleted. */
  lemma PrunedKeepsNewest(files: Files, c: Config, b: int)
    requires b > 0
    ensures var before := MatchingBackups(files, c.dirName, c.baseName);
      var after := MatchingBackups(Pruned(files, c, b), c.dirName, c.baseName);
      && after <= before
      && |after| == (if |before| < b then |before| else b)
      && forall x, y :: x in before - after && y in after ==> Compare.StrCompare(x, y) < 0
  {
    var before := MatchingBackups(files, c.dirName, c.baseName);
    var gone := set x | x in PruneList(before, b);
    PrunedRemovesList(files, c, b);
    PruneListSize(before, b);
    PruneTakesOldest(before, b);
  }

  /** The backups left after the no-fault prune are those not on the prune list. */
  lemma PrunedRemovesList(files: Files, c: Config, b: int)
    requires b > 0
    ensures var before := MatchingBackups(files, c.dirName, c.baseName);
      MatchingBackups(Pruned(files, c, b), c.dirName, c.baseName) == before - (set x | x in PruneList(before, b))
  {
    var before := MatchingBackups(files, c.dirName, c.baseName);
    var gone := set x | x in PruneList(before, b);
    assert Pruned(files, c, b) == files - gone;
    MatchingAfterRemoval(files, gone, c.dirName, c.baseName);
  }

  /** Taking the prune list away leaves `min(|m|, b)` backups. */
  lemma PruneListSize(m: set<string>, b: int)
    requires b > 0
    ensures var gone := set x | x in PruneList(m, b);
      gone <= m && |m - gone| == (if |m| < b then |m| else b)
  {
    var pruned := PruneList(m, b);
    var gone := set x | x in pruned;
    DistinctSetSize(pruned);
    SubsetDifferenceSize(m, gone);
  }

  /** Reopening the active file adds no backup. */
  lemma ReopenAddsNoBackup(files: Files, c: Config, x: Node)
    ensures MatchingBackups(files[Filename(c) := x], c.dirName, c.baseName) ==
      MatchingBackups(files - {Filename(c)}, c.dirName, c.baseName)
  {
    var f := Filename(c);
    assert f[|c.dirName|..] == c.baseName;
    assert !IsBackupEntry(c.baseName, c.baseName);
  }

  /** After a rollover where nothing fails at most `backupCount` dated backups remain:
      the newest `min(count, backupCount)`, each newer than every one deleted. Here
      `files` is the filesystem just after the rename, which the active file has left. */
  lemma RolloverKeepsNewestBackups(files: Files, c: Config, b: int)
    requires b > 0 && Filename(c) !in files
    ensures var before := MatchingBackups(files, c.dirName, c.baseName);
      var after := MatchingBackups(Reopened(files, c, b), c.dirName, c.baseName);
      && after <= before
      && |after| == (if |before| < b then |before| else b)
      && forall x, y :: x in before - after && y in after ==> Compare.StrCompare(x, y) < 0
  {
    var f := Filename(c);
    var p := Pruned(files, c, b);
    PrunedKeepsNewest(files, c, b);
    ReopenAddsNoBackup(p, c, Regular([], FILE_PERM));
    assert f !in p;
    assert p - {f} == p;
  }
}
