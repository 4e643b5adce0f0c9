/** `RotatingFile`, the size-based rotating writer: before a write that would take the
    active file past `maxSize` bytes it closes the file, moves the numbered backups
    `filename.1 … filename.N` up (as written, `filename.i` only when `filename.(i+1)`
    already exists) and reopens `filename`.

    The behaviour is given first as functions on a `State` value (what each step of the
    code does to the filesystem, the handle and the byte counter, errors included); the
    class `RotatingFile` then runs the same steps imperatively and is proved to agree
    with those functions; the lemmas state what the rotation achieves. */
module SizeRotation {
  import opened Os
  import opened Handler

  datatype Config = Config(filename: string, maxSize: int, backupCount: int)

  /** What the writer changes: the filesystem, the handle `w` and the counter `nbytes`. */
  datatype State = State(files: Files, w: Option<Handle>, nbytes: int)

  datatype Outcome = Outcome(st: State, err: Option<Error>)

  datatype WriteResult = WriteResult(st: State, n: nat, err: Option<Error>)

  /** `r.w != nil && !r.w.Closed()` */
  predicate Usable(w: Option<Handle>)
  {
    w.Some? && !w.value.closed
  }

  /** The handle, when there is one, is open on the active file. */
  predicate Inv(c: Config, st: State)
  {
    st.w.Some? ==> st.w.value.path == c.filename
  }

  function Min(a: int, b: int): int
  {
    if a < b then a else b
  }

  // ---------------------------------------------------------------------------
  // The code as written

  /** `close`: closes and drops the handle if there is one; a second call does nothing. */
  function CloseSpec(faults: set<Fault>, st: State): (o: Outcome)
    ensures o.st.w.None? && o.st.files == st.files && o.st.nbytes == st.nbytes
    ensures st.w.None? ==> o.err.None?
  {
    if st.w.None? then Outcome(st, None)
    else Outcome(st.(w := None), FdClose(faults, st.w.value))
  }

  /** One step of the ladder loop: `filename.i` moves to `filename.(i+1)` only when
      both already exist, the destination being removed first. */
  function ShiftRung(files: Files, faults: set<Fault>, f: string, i: nat): FsOut
  {
    var sfn := LadderName(f, i);
    var dfn := LadderName(f, i + 1);
    if sfn in files && dfn in files then
      var rm := Remove(files, faults, dfn);
      if rm.err.Some? then rm else Rename(rm.files, faults, sfn, dfn)
    else FsOut(files, None)
  }

  /** The ladder loop over `i = top, top-1, …, 1`, stopping at the first error. */
  function Ladder(files: Files, faults: set<Fault>, f: string, top: nat): FsOut
    decreases top
  {
    if top == 0 then FsOut(files, None)
    else
      var o := ShiftRung(files, faults, f, top);
      if o.err.Some? then o else Ladder(o.files, faults, f, top - 1)
  }

  /** Removing any `filename.1`, then renaming the active file to it if the active file exists. */
  function RetireActive(files: Files, faults: set<Fault>, f: string): FsOut
  {
    var dfn := LadderName(f, 1);
    var rm := if dfn in files then Remove(files, faults, dfn) else FsOut(files, None);
    if rm.err.Some? then rm
    else if f in rm.files then Rename(rm.files, faults, f, dfn)
    else rm
  }

  /** The filesystem part of `doRollover`: nothing at all when `backupCount <= 0`. */
  function Shuffle(files: Files, faults: set<Fault>, f: string, b: int): FsOut
  {
    if b <= 0 then FsOut(files, None)
    else
      var l := Ladder(files, faults, f, b - 1);
      if l.err.Some? then l else RetireActive(l.files, faults, f)
  }

  /** `open`: open (creating with FILE_PERM) and stat the active file; on success the
      handle is the new file and `nbytes` is its existing size. */
  function OpenSpec(c: Config, faults: set<Fault>, st: State): (o: Outcome)
    ensures o.err.None? ==>
      && IsFile(o.st.files, c.filename)
      && o.st.w == Some(Handle(c.filename, false))
      && o.st.nbytes == |o.st.files[c.filename].data|
    ensures o.err.None? && IsFile(st.files, c.filename) ==> o.st.files == st.files
    ensures o.err.Some? ==> o.st.w == st.w && o.st.nbytes == st.nbytes
  {
    var op := OpenFile(st.files, faults, c.filename, FILE_PERM);
    if op.err.Some? then Outcome(st, op.err)
    else if Fault(OpStat, c.filename) in faults then
      Outcome(st.(files := op.files), Some(OsError(OpStat, c.filename)))
    else
      Outcome(State(op.files, Some(Handle(c.filename, false)), |op.files[c.filename].data|), None)
  }

  /** `doRollover`: close (its error ignored), shuffle, reopen. */
  function RolloverSpec(c: Config, faults: set<Fault>, st: State): (o: Outcome)
    ensures o.err.Some? ==> o.st.w.None?
    ensures o.err.None? ==> o.st.w == Some(Handle(c.filename, false))
  {
    var closed := CloseSpec(faults, st).st;
    var sh := Shuffle(closed.files, faults, c.filename, c.backupCount);
    if sh.err.Some? then Outcome(closed.(files := sh.files), sh.err)
    else OpenSpec(c, faults, closed.(files := sh.files))
  }

  /** `r.w.Write(data)` followed by `r.nbytes += n` on success. */
  function HandleWrite(faults: set<Fault>, st: State, data: seq<byte>): WriteResult
    requires st.w.Some?
  {
    var wr := FdWrite(st.files, faults, st.w.value, data);
    if wr.err.Some? then WriteResult(st.(files := wr.files), wr.n, wr.err)
    else WriteResult(st.(files := wr.files, nbytes := st.nbytes + wr.n), wr.n, None)
  }

  /** `Write`: refuse an unusable handle, roll over first when the write would pass
      `maxSize`, then write the whole payload. */
  function WriteSpec(c: Config, faults: set<Fault>, st: State, data: seq<byte>): (r: WriteResult)
    ensures !Usable(st.w) ==> r == WriteResult(st, 0, Some(ErrFileNotOpen))
    ensures r.err.Some? ==> r.n == 0
    ensures r.err.None? ==> r.n == |data|
    ensures r.err.None? && st.nbytes + |data| <= c.maxSize ==> r.st.nbytes == st.nbytes + r.n
  {
    if !Usable(st.w) then WriteResult(st, 0, Some(ErrFileNotOpen))
    else if st.nbytes + |data| > c.maxSize then
      var rolled := RolloverSpec(c, faults, st);
      if rolled.err.Some? then WriteResult(rolled.st, 0, rolled.err)
      else HandleWrite(faults, rolled.st, data)
    else HandleWrite(faults, st, data)
  }

  // ---------------------------------------------------------------------------
  // The writer object

  class RotatingFile {
    const fs: FileSystem
    const filename: string
    const maxSize: int
    const backupCount: int
    var w: Option<Handle>
    var nbytes: int

    function Settings(): Config
    {
      Config(filename, maxSize, backupCount)
    }

    function Snapshot(): State
      reads this, fs
    {
      State(fs.files, w, nbytes)
    }

    /** The object invariant: a handle, when there is one, is open on `filename`. */
    ghost predicate Valid()
      reads this
    {
      w.Some? ==> w.value == Handle(filename, false)
    }

    /** `NewRotatingFile`, which panics when the first `open` fails. */
    constructor (fs: FileSystem, filename: string, size: int, count: int)
      requires OpenSpec(Config(filename, size, count), fs.faults, State(fs.files, None, 0)).err.None?
      modifies fs`files
      ensures this.fs == fs && this.filename == filename && maxSize == size && backupCount == count
      ensures Valid()
      ensures Snapshot() == OpenSpec(Settings(), fs.faults, State(old(fs.files), None, 0)).st
    {
      this.fs := fs;
      this.filename := filename;
      maxSize := size;
      backupCount := count;
      w := None;
      nbytes := 0;
      new;
      var err := Open();
    }

    method Open() returns (err: Option<Error>)
      requires Valid()
      modifies this, fs`files
      ensures Valid()
      ensures Outcome(Snapshot(), err) == OpenSpec(Settings(), fs.faults, old(Snapshot()))
    {
      var h;
      h, err := fs.Open(filename, FILE_PERM);
      if err.Some? {
        return;
      }
      var size;
      size, err := fs.Stat(filename);
      if err.Some? {
        return;
      }
      nbytes := size.value;
      w := h;
    }

    /** `close` */
    method CloseUnlocked() returns (err: Option<Error>)
      requires Valid()
      modifies this`w
      ensures Valid()
      ensures Outcome(Snapshot(), err) == CloseSpec(fs.faults, old(Snapshot()))
    {
      err := None;
      if w.Some? {
        err := fs.Close(w.value);
        w := None;
      }
    }

    /** `Close`: `close` under the lock. */
    method Close() returns (err: Option<Error>)
      requires Valid()
      modifies this`w
      ensures Valid()
      ensures Outcome(Snapshot(), err) == CloseSpec(fs.faults, old(Snapshot()))
    {
      err := CloseUnlocked();
    }

    method DoRollover() returns (err: Option<Error>)
      requires Valid()
      modifies this, fs`files
      ensures Valid()
      ensures Outcome(Snapshot(), err) == RolloverSpec(Settings(), fs.faults, old(Snapshot()))
    {
      var ignored := CloseUnlocked();
      err := None;
      if backupCount > 0 {
        ghost var start := fs.files;
        var i := backupCount - 1;
        while i > 0
          invariant 0 <= i <= backupCount - 1
          invariant w.None? && nbytes == old(nbytes)
          invariant Ladder(fs.files, fs.faults, filename, i) == Ladder(start, fs.faults, filename, backupCount - 1)
          decreases i
        {
          var sfn := LadderName(filename, i);
          var dfn := LadderName(filename, i + 1);
          if fs.IsExist(sfn) {
            if fs.IsExist(dfn) {
              err := fs.RemovePath(dfn);
              if err.Some? {
                return;
              }
              err := fs.RenamePath(sfn, dfn);
              if err.Some? {
                return;
              }
            }
          }
          i := i - 1;
        }
        var dfn := filename + ".1";
        assert dfn == LadderName(filename, 1);
        if fs.IsExist(dfn) {
          err := fs.RemovePath(dfn);
          if err.Some? {
            return;
          }
        }
        if fs.IsExist(filename) {
          err := fs.RenamePath(filename, dfn);
          if err.Some? {
            return;
          }
        }
      }
      err := Open();
    }

    method Write(data: seq<byte>) returns (n: nat, err: Option<Error>)
      requires Valid()
      modifies this, fs`files
      ensures Valid()
      ensures WriteResult(Snapshot(), n, err) == WriteSpec(Settings(), fs.faults, old(Snapshot()), data)
    {
      if w.None? || w.value.closed {
        n, err := 0, Some(ErrFileNotOpen);
        return;
      }
      if nbytes + |data| > maxSize {
        err := DoRollover();
        if err.Some? {
          n := 0;
          return;
        }
      }
      n, err := fs.Write(w.value, data);
      if err.Some? {
        return;
      }
      nbytes := nbytes + n;
    }

    /** `WriteString` goes straight to the handle: no check, no rotation, no count.
        A nil handle would panic, hence the precondition. */
    method WriteString(data: seq<byte>) returns (n: nat, err: Option<Error>)
      requires w.Some?
      modifies fs`files
      ensures WriteOut(fs.files, n, err) == FdWrite(old(fs.files), fs.faults, w.value, data)
    {
      n, err := fs.Write(w.value, data);
    }
  }

  // ---------------------------------------------------------------------------
  // What the writer guarantees

  lemma WriteRejectsUnusableHandle(c: Config, faults: set<Fault>, st: State, data: seq<byte>)
    requires !Usable(st.w)
    ensures WriteSpec(c, faults, st, data) == WriteResult(st, 0, Some(ErrFileNotOpen))
  {
  }

  /** `close` twice: the second call succeeds and changes nothing. */
  lemma CloseIsIdempotent(faults: set<Fault>, st: State)
    ensures var once := CloseSpec(faults, st);
      CloseSpec(faults, once.st) == Outcome(once.st, None)
  {
  }

  /** A rollover that fails leaves no handle, so every later write is refused
      without touching anything. */
  lemma FailedRolloverDisablesWriter(c: Config, faults: set<Fault>, st: State, data: seq<byte>)
    requires RolloverSpec(c, faults, st).err.Some?
    ensures var after := RolloverSpec(c, faults, st).st;
      after.w.None? && WriteSpec(c, faults, after, data) == WriteResult(after, 0, Some(ErrFileNotOpen))
  {
  }

  /** Below the threshold there is no rollover: only the active file grows. */
  lemma WriteBelowLimitAppends(c: Config, faults: set<Fault>, st: State, data: seq<byte>)
    requires Inv(c, st) && Usable(st.w) && st.nbytes + |data| <= c.maxSize
    requires Fault(OpWrite, c.filename) !in faults
    ensures WriteSpec(c, faults, st, data) ==
      WriteResult(State(Append(st.files, c.filename, data), st.w, st.nbytes + |data|), |data|, None)
  {
  }

  /** The ladder never touches the active file and succeeds when nothing is made to fail. */
  lemma {:induction false} LadderKeepsActive(files: Files, f: string, top: nat)
    ensures Ladder(files, {}, f, top).err.None?
    ensures Unchanged(files, Ladder(files, {}, f, top).files, f)
    decreases top
  {
    if top > 0 {
      LadderNameIsRung(f, top);
      LadderNameIsRung(f, top + 1);
      LadderNameInjective(f, top, top + 1);
      var o := ShiftRung(files, {}, f, top);
      LadderKeepsActive(o.files, f, top - 1);
    }
  }

  /** Over the threshold, with backups enabled and nothing failing: the old active file
      becomes `filename.1` and the whole payload lands in the fresh active file,
      never split, even when it alone exceeds `maxSize`. */
  lemma WriteOverLimitRotatesFirst(c: Config, st: State, data: seq<byte>)
    requires Inv(c, st) && Usable(st.w) && st.nbytes + |data| > c.maxSize
    requires c.backupCount > 0 && IsFile(st.files, c.filename)
    ensures var r := WriteSpec(c, {}, st, data);
      && r.err.None? && r.n == |data|
      && IsFile(r.st.files, c.filename) && r.st.files[c.filename].data == data
      && r.st.nbytes == |data|
      && LadderName(c.filename, 1) in r.st.files
      && r.st.files[LadderName(c.filename, 1)] == st.files[c.filename]
  {
    var f := c.filename;
    LadderNameIsRung(f, 1);
    var closed := CloseSpec({}, st).st;
    LadderKeepsActive(closed.files, f, c.backupCount - 1);
    var l := Ladder(closed.files, {}, f, c.backupCount - 1);
    var ra := RetireActive(l.files, {}, f);
    assert ra.err.None? && f !in ra.files && ra.files[LadderName(f, 1)] == st.files[f];
  }

  /** With `backupCount <= 0` a rollover renames and removes nothing: it reopens the same
      file and `nbytes` restarts from that file's real size. */
  lemma WriteOverLimitWithoutBackupsReopens(c: Config, st: State, data: seq<byte>)
    requires Inv(c, st) && Usable(st.w) && st.nbytes + |data| > c.maxSize
    requires c.backupCount <= 0 && IsFile(st.files, c.filename)
    ensures var r := WriteSpec(c, {}, st, data);
      && r.err.None?
      && r.st.files == Append(st.files, c.filename, data)
      && r.st.nbytes == |st.files[c.filename].data| + |data|
  {
  }

  /** As written, the ladder never grows past `.1` from a start without higher backups:
      `filename.i` only moves when `filename.(i+1)` is already there. */
  lemma {:induction false} LadderIdleWithoutHigherRungs(files: Files, faults: set<Fault>, f: string, top: nat)
    requires forall k :: k >= 2 ==> LadderName(f, k) !in files
    ensures Ladder(files, faults, f, top) == FsOut(files, None)
    decreases top
  {
    if top > 0 {
      LadderIdleWithoutHigherRungs(files, faults, f, top - 1);
    }
  }

  lemma NoRungPastOne(files: Files, faults: set<Fault>, f: string, b: int)
    requires forall k :: k >= 2 ==> LadderName(f, k) !in files
    ensures forall k :: k >= 2 ==> LadderName(f, k) !in Shuffle(files, faults, f, b).files
  {
    if b > 0 {
      LadderIdleWithoutHigherRungs(files, faults, f, b - 1);
      forall k | k >= 2
        ensures LadderName(f, k) != LadderName(f, 1)
      {
        LadderNameInjective(f, k, 1);
      }
    }
  }

  /** The discrepancy: with two backup slots, an active file and one backup, the
      rollover drops the backup instead of moving it to `.2`. */
  lemma AsWrittenRolloverDropsBackup(files: Files, f: string, b: int)
    requires b >= 2 && IsFile(files, f) && IsFile(files, LadderName(f, 1))
    requires forall k :: k >= 2 ==> LadderName(f, k) !in files
    ensures var o := Shuffle(files, {}, f, b);
      && o.err.None?
      && f !in o.files
      && LadderName(f, 1) in o.files && o.files[LadderName(f, 1)] == files[f]
      && LadderName(f, 2) !in o.files
  {
    LadderIdleWithoutHigherRungs(files, {}, f, b - 1);
    LadderNameIsRung(f, 1);
    LadderNameInjective(f, 2, 1);
  }

  /** A ladder step as written, with both `filename.i` and `filename.(i+1)` present and
      nothing failing: `filename.i` moves onto `filename.(i+1)`. */
  lemma ShiftRungMoves(files: Files, f: string, i: nat)
    requires LadderName(f, i) in files && LadderName(f, i + 1) in files
    ensures LadderName(f, i) != LadderName(f, i + 1)
    ensures ShiftRung(files, {}, f, i) == FsOut(MoveFile(files, LadderName(f, i), LadderName(f, i + 1)), None)
  {
    var sfn, dfn := LadderName(f, i), LadderName(f, i + 1);
    LadderNameInjective(f, i, i + 1);
    var rm := Remove(files, {}, dfn);
    assert MoveFile(rm.files, sfn, dfn) == MoveFile(files, sfn, dfn);
  }

  /** The ladder loop as written changes no path other than the numbered backups. */
  lemma {:induction false} LadderFrame(files: Files, faults: set<Fault>, f: string, top: nat)
    ensures forall p :: !IsRungOf(f, p) ==> Unchanged(files, Ladder(files, faults, f, top).files, p)
    decreases top
  {
    if top > 0 {
      LadderNameIsRung(f, top);
      LadderNameIsRung(f, top + 1);
      var o := ShiftRung(files, faults, f, top);
      assert forall p :: !IsRungOf(f, p) ==> Unchanged(files, o.files, p);
      LadderFrame(o.files, faults, f, top - 1);
    }
  }

  /** The filesystem part of a rollover as written changes no path other than the
      active file and its numbered backups, whatever fails. */
  lemma ShuffleFrame(files: Files, faults: set<Fault>, f: string, b: int)
    ensures forall p :: p != f && !IsRungOf(f, p) ==> Unchanged(files, Shuffle(files, faults, f, b).files, p)
  {
    if b > 0 {
      LadderFrame(files, faults, f, b - 1);
      LadderNameIsRung(f, 1);
    }
  }

  /** Ladder steps whose destination is missing do nothing, so the loop from `top` down
      acts as the loop from `j` down when no backup above `filename.j` exists. */
  lemma {:induction false} LadderSkipsAbsent(files: Files, faults: set<Fault>, f: string, top: nat, j: nat)
    requires j <= top
    requires forall k :: k > j ==> LadderName(f, k) !in files
    ensures Ladder(files, faults, f, top) == Ladder(files, faults, f, j)
    decreases top
  {
    if top > j {
      assert LadderName(f, top + 1) !in files;
      LadderSkipsAbsent(files, faults, f, top - 1, j);
    }
  }

  /** The loss is not confined to `.1`: with three or more slots and the backups `.1`
      and `.2`, the rollover moves `.1` onto `.2`, so the old `.2` is lost and no `.3`
      is created. */
  lemma AsWrittenRolloverOverwritesSecond(files: Files, f: string, b: int)
    requires b >= 3 && IsFile(files, f)
    requires LadderName(f, 1) in files && LadderName(f, 2) in files
    requires forall k :: k >= 3 ==> LadderName(f, k) !in files
    ensures var o := Shuffle(files, {}, f, b);
      && o.err.None?
      && f !in o.files
      && LadderName(f, 1) in o.files && o.files[LadderName(f, 1)] == files[f]
      && LadderName(f, 2) in o.files && o.files[LadderName(f, 2)] == files[LadderName(f, 1)]
      && LadderName(f, 3) !in o.files
  {
    var f1, f2, f3 := LadderName(f, 1), LadderName(f, 2), LadderName(f, 3);
    LadderNameIsRung(f, 1);
    LadderNameIsRung(f, 2);
    LadderNameIsRung(f, 3);
    LadderNameInjective(f, 1, 2);
    LadderNameInjective(f, 1, 3);
    LadderNameInjective(f, 2, 3);
    LadderSkipsAbsent(files, {}, f, b - 1, 2);
    assert ShiftRung(files, {}, f, 2) == FsOut(files, None);
    ShiftRungMoves(files, f, 1);
    var l := MoveFile(files, f1, f2);
    assert Ladder(files, {}, f, b - 1).files == l;
    assert f1 !in l && IsFile(l, f);
  }

  // ---------------------------------------------------------------------------
  // The ladder as intended: an existing `filename.i` always moves up

  function ShiftRungIntended(files: Files, faults: set<Fault>, f: string, i: nat): FsOut
  {
    var sfn := LadderName(f, i);
    var dfn := LadderName(f, i + 1);
    if sfn in files then
      var rm := if dfn in files then Remove(files, faults, dfn) else FsOut(files, None);
      if rm.err.Some? then rm else Rename(rm.files, faults, sfn, dfn)
    else FsOut(files, None)
  }

  function LadderIntended(files: Files, faults: set<Fault>, f: string, top: nat): FsOut
    decreases top
  {
    if top == 0 then FsOut(files, None)
    else
      var o := ShiftRungIntended(files, faults, f, top);
      if o.err.Some? then o else LadderIntended(o.files, faults, f, top - 1)
  }

  function ShuffleIntended(files: Files, faults: set<Fault>, f: string, b: int): FsOut
  {
    if b <= 0 then FsOut(files, None)
    else
      var l := LadderIntended(files, faults, f, b - 1);
      if l.err.Some? then l else RetireActive(l.files, faults, f)
  }

  /** `filename.1 … filename.m` exist and `filename.(m+1) … filename.top` do not. */
  predicate LadderExtent(files: Files, f: string, m: nat, top: nat)
  {
    && (forall k :: 1 <= k <= m && k <= top ==> LadderName(f, k) in files)
    && (forall k :: m < k <= top ==> LadderName(f, k) !in files)
  }

  /** Backup `k` of `before` is backup `k + 1` of `after`. */
  predicate Shifted(before: Files, after: Files, f: string, k: nat)
  {
    LadderName(f, k) in before && LadderName(f, k + 1) in after &&
    after[LadderName(f, k + 1)] == before[LadderName(f, k)]
  }

  /** What the intended ladder over rungs `top … 1` does, `t` being the number of
      backups it moves: `.k` becomes `.(k+1)` for `k <= t`, the vacated `.1` and the
      slots past the moved ones up to `.(top+1)` are empty, and every other backup and
      every non-backup path is as before. */
  ghost predicate LadderShiftedBy(before: Files, after: Files, f: string, t: nat, top: nat)
  {
    && (forall k :: 1 <= k <= t ==> Shifted(before, after, f, k))
    && (t >= 1 ==> LadderName(f, 1) !in after)
    && (forall k :: t + 1 < k <= top + 1 ==> LadderName(f, k) !in after)
    && (forall k :: k > top + 1 ==> Unchanged(before, after, LadderName(f, k)))
    && (forall p :: !IsRungOf(f, p) ==> Unchanged(before, after, p))
  }

  /** The two rung names of step `i` differ from every other rung name and from
      every path that is not a rung. */
  lemma RungNamesDistinct(f: string, i: nat)
    ensures IsRungOf(f, LadderName(f, i)) && IsRungOf(f, LadderName(f, i + 1))
    ensures forall k :: k != i ==> LadderName(f, k) != LadderName(f, i)
    ensures forall k :: k != i + 1 ==> LadderName(f, k) != LadderName(f, i + 1)
  {
    LadderNameIsRung(f, i);
    LadderNameIsRung(f, i + 1);
    forall k | k != i
      ensures LadderName(f, k) != LadderName(f, i)
    {
      LadderNameInjective(f, k, i);
    }
    forall k | k != i + 1
      ensures LadderName(f, k) != LadderName(f, i + 1)
    {
      LadderNameInjective(f, k, i + 1);
    }
  }

  lemma {:induction false} LadderIntendedShifts(files: Files, f: string, top: nat, m: nat)
    requires LadderExtent(files, f, m, top + 1)
    ensures LadderIntended(files, {}, f, top).err.None?
    ensures LadderShiftedBy(files, LadderIntended(files, {}, f, top).files, f, Min(m, top), top)
    decreases top, 1
  {
    if top > 0 {
      if m >= top {
        LadderIntendedMoves(files, f, top, m);
      } else {
        LadderIntendedSkips(files, f, top, m);
      }
    }
  }

  lemma ShiftRungIntendedMoves(files: Files, f: string, i: nat)
    requires LadderName(f, i) in files
    ensures LadderName(f, i) != LadderName(f, i + 1)
    ensures ShiftRungIntended(files, {}, f, i) ==
      FsOut(MoveFile(files, LadderName(f, i), LadderName(f, i + 1)), None)
  {
    LadderNameInjective(f, i, i + 1);
    var sfn, dfn := LadderName(f, i), LadderName(f, i + 1);
    var rm := if dfn in files then files - {dfn} else files;
    assert (rm - {sfn})[dfn := files[sfn]] == MoveFile(files, sfn, dfn);
  }

  /** Rung `top` exists: it moves up and the rest of the ladder follows. */
  lemma {:induction false} LadderIntendedMoves(files: Files, f: string, top: nat, m: nat)
    requires top >= 1 && m >= top && LadderExtent(files, f, m, top + 1)
    ensures LadderIntended(files, {}, f, top).err.None?
    ensures LadderShiftedBy(files, LadderIntended(files, {}, f, top).files, f, top, top)
    decreases top, 0
  {
    ShiftRungIntendedMoves(files, f, top);
    var s := MoveFile(files, LadderName(f, top), LadderName(f, top + 1));
    MovedTopExtent(files, f, top, m);
    LadderIntendedShifts(s, f, top - 1, top - 1);
    var o := LadderIntended(s, {}, f, top - 1).files;
    assert LadderIntended(files, {}, f, top).files == o;
    assert top == 1 ==> o == s;
    MoveThenShift(files, o, f, top);
  }

  /** After rung `top` moves up, rungs `1 … top-1` are still there and `top` is free. */
  lemma MovedTopExtent(files: Files, f: string, top: nat, m: nat)
    requires top >= 1 && m >= top && LadderExtent(files, f, m, top + 1)
    ensures LadderName(f, top) != LadderName(f, top + 1) &&
      LadderExtent(MoveFile(files, LadderName(f, top), LadderName(f, top + 1)), f, top - 1, top)
  {
    RungNamesDistinct(f, top);
    var s := MoveFile(files, LadderName(f, top), LadderName(f, top + 1));
    forall k | 1 <= k <= top - 1
      ensures LadderName(f, k) in s
    {
      assert Unchanged(files, s, LadderName(f, k));
    }
  }

  /** Moving rung `top` up and then shifting `top-1 … 1` shifts `top … 1`. */
  lemma MoveThenShift(files: Files, o: Files, f: string, top: nat)
    requires top >= 1 && LadderName(f, top) in files && LadderName(f, top) != LadderName(f, top + 1)
    requires LadderShiftedBy(MoveFile(files, LadderName(f, top), LadderName(f, top + 1)), o, f, top - 1, top - 1)
    requires top == 1 ==> o == MoveFile(files, LadderName(f, top), LadderName(f, top + 1))
    ensures LadderShiftedBy(files, o, f, top, top)
  {
    var sfn, dfn := LadderName(f, top), LadderName(f, top + 1);
    var s := MoveFile(files, sfn, dfn);
    RungNamesDistinct(f, top);
    forall k | 1 <= k <= top
      ensures Shifted(files, o, f, k)
    {
      if k < top {
        assert Shifted(s, o, f, k);
        assert Unchanged(files, s, LadderName(f, k));
      } else {
        assert Unchanged(s, o, dfn);
      }
    }
    forall k | k > top + 1
      ensures Unchanged(files, o, LadderName(f, k))
    {
      assert Unchanged(files, s, LadderName(f, k));
      assert Unchanged(s, o, LadderName(f, k));
    }
    forall p | !IsRungOf(f, p)
      ensures Unchanged(files, o, p)
    {
      assert Unchanged(files, s, p);
      assert Unchanged(s, o, p);
    }
  }

  /** Rung `top` is absent: the step does nothing. */
  lemma {:induction false} LadderIntendedSkips(files: Files, f: string, top: nat, m: nat)
    requires top >= 1 && m < top && LadderExtent(files, f, m, top + 1)
    ensures LadderIntended(files, {}, f, top).err.None?
    ensures LadderShiftedBy(files, LadderIntended(files, {}, f, top).files, f, m, top)
    decreases top, 0
  {
    assert LadderName(f, top) !in files;
    assert LadderIntended(files, {}, f, top) == LadderIntended(files, {}, f, top - 1);
    LadderIntendedShifts(files, f, top - 1, m);
    var o := LadderIntended(files, {}, f, top - 1);
    assert Unchanged(files, o.files, LadderName(f, top + 1));
  }

  /** The intended rollover, nothing failing, from a ladder `filename.1 … filename.m`
      (`m` may exceed `backupCount`): the active file becomes `.1`, each `.k` below the
      last slot becomes `.(k+1)`, what was in the last slot is gone, and the ladder is
      contiguous again one step longer, up to `backupCount`. Nothing else changes. */
  lemma IntendedRolloverShiftsLadder(files: Files, f: string, b: nat, m: nat)
    requires b >= 1 && f in files && LadderExtent(files, f, m, b)
    ensures var o := ShuffleIntended(files, {}, f, b);
      var t := Min(m, b - 1);
      && o.err.None?
      && f !in o.files
      && LadderName(f, 1) in o.files && o.files[LadderName(f, 1)] == files[f]
      && (forall k :: 1 <= k <= t ==> Shifted(files, o.files, f, k))
      && LadderExtent(o.files, f, t + 1, b)
      && (forall k :: k > b ==> Unchanged(files, o.files, LadderName(f, k)))
      && (forall p :: p != f && !IsRungOf(f, p) ==> Unchanged(files, o.files, p))
  {
    LadderIntendedShifts(files, f, b - 1, m);
    var l := LadderIntended(files, {}, f, b - 1).files;
    assert !IsRungOf(f, f) && Unchanged(files, l, f);
    RetireActiveMoves(l, f);
    assert ShuffleIntended(files, {}, f, b) == FsOut(MoveFile(l, f, LadderName(f, 1)), None);
    RetireAfterShift(files, l, f, b, m);
  }

  /** With a free-standing active file and no failure, `.1` is replaced by the active file. */
  lemma RetireActiveMoves(files: Files, f: string)
    requires f in files
    ensures f != LadderName(f, 1)
    ensures RetireActive(files, {}, f) == FsOut(MoveFile(files, f, LadderName(f, 1)), None)
  {
    LadderNameIsRung(f, 1);
    var one := LadderName(f, 1);
    var rm := if one in files then files - {one} else files;
    assert (rm - {f})[one := files[f]] == MoveFile(files, f, one);
  }

  /** Retiring the active file to `.1` after the ladder has shifted. */
  lemma RetireAfterShift(files: Files, l: Files, f: string, b: nat, m: nat)
    requires b >= 1 && f in l && LadderExtent(files, f, m, b)
    requires LadderShiftedBy(files, l, f, Min(m, b - 1), b - 1)
    requires forall p :: p != f && !IsRungOf(f, p) ==> Unchanged(files, l, p)
    requires Unchanged(files, l, f)
    ensures f != LadderName(f, 1)
    ensures var o := MoveFile(l, f, LadderName(f, 1));
      var t := Min(m, b - 1);
      && f !in o
      && LadderName(f, 1) in o && o[LadderName(f, 1)] == files[f]
      && (forall k :: 1 <= k <= t ==> Shifted(files, o, f, k))
      && LadderExtent(o, f, t + 1, b)
      && (forall k :: k > b ==> Unchanged(files, o, LadderName(f, k)))
      && (forall p :: p != f && !IsRungOf(f, p) ==> Unchanged(files, o, p))
  {
    LadderNameIsRung(f, 1);
    var one := LadderName(f, 1);
    var o := MoveFile(l, f, one);
    forall k | k != 1
      ensures LadderName(f, k) != one
    {
      LadderNameInjective(f, k, 1);
    }
    var t := Min(m, b - 1);
    forall k | 1 <= k <= t
      ensures Shifted(files, o, f, k)
    {
      assert Shifted(files, l, f, k);
    }
    forall k | 1 <= k <= t + 1 && k <= b
      ensures LadderName(f, k) in o
    {
      if k > 1 {
        assert Shifted(files, l, f, k - 1);
      }
    }
  }

  /** The intended rollover applied to a contiguous ladder of at most `backupCount`
      backups keeps it contiguous and one longer, up to `backupCount`; from an empty
      start the ladder therefore fills every slot. */
  lemma IntendedLadderFills(files: Files, f: string, b: nat, m: nat)
    requires b >= 1 && f in files && m <= b && LadderExtent(files, f, m, b)
    ensures LadderExtent(ShuffleIntended(files, {}, f, b).files, f, Min(m + 1, b), b)
  {
    IntendedRolloverShiftsLadder(files, f, b, m);
  }

  // ---------------------------------------------------------------------------
  // The end-to-end scenario: maxSize 10, two backup slots, three writes of 5 bytes

  lemma ThreeWritesScenario(f: string, x: seq<byte>, y: seq<byte>, z: seq<byte>)
    requires |x| == 5 && |y| == 5 && |z| == 5
    ensures var c := Config(f, 10, 2);
      var st0 := OpenSpec(c, {}, State(map[], None, 0));
      var r1 := WriteSpec(c, {}, st0.st, x);
      var r2 := WriteSpec(c, {}, r1.st, y);
      var r3 := WriteSpec(c, {}, r2.st, z);
      && st0.err.None? && r1.err.None? && r2.err.None? && r3.err.None?
      && r3.st.files == map[f := Regular(z, FILE_PERM), LadderName(f, 1) := Regular(x + y, FILE_PERM)]
      && LadderName(f, 2) !in r3.st.files
  {
    var c := Config(f, 10, 2);
    var one := LadderName(f, 1);
    LadderNameIsRung(f, 1);
    LadderNameInjective(f, 2, 1);
    LadderNameIsRung(f, 2);
    var st0 := OpenSpec(c, {}, State(map[], None, 0));
    assert st0.st == State(map[f := Regular([], FILE_PERM)], Some(Handle(f, false)), 0);
    assert [] + x == x && [] + z == z;
    var r1 := WriteSpec(c, {}, st0.st, x);
    assert r1.st == State(map[f := Regular(x, FILE_PERM)], Some(Handle(f, false)), 5);
    var r2 := WriteSpec(c, {}, r1.st, y);
    assert r2.st == State(map[f := Regular(x + y, FILE_PERM)], Some(Handle(f, false)), 10);
    var closed := CloseSpec({}, r2.st).st;
    assert Ladder(closed.files, {}, f, 1) == FsOut(closed.files, None);
    var ra := RetireActive(closed.files, {}, f);
    assert ra.files == map[one := Regular(x + y, FILE_PERM)];
    var rolled := RolloverSpec(c, {}, r2.st);
    assert rolled.st == State(map[one := Regular(x + y, FILE_PERM), f := Regular([], FILE_PERM)], Some(Handle(f, false)), 0);
    var r3 := WriteSpec(c, {}, r2.st, z);
    assert r3.st.files == map[one := Regular(x + y, FILE_PERM), f := Regular(z, FILE_PERM)];
  }
}
