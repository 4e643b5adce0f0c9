# Rotating log writers and the comparison helper, in Dafny

This project models two parts of a Go logging/utility library and proves properties of
the model.

- **The rotating log-file writers** of package `log/handler`:
  - `RotatingFile` rolls over when the next write would take the active file past
    `maxSize` bytes. It is meant to shift the numbered backups `filename.1 … filename.N`
    and reopen the active file. As written, it moves `filename.i` only when
    `filename.(i+1)` already exists (see "## Findings").
  - `TimedRotatingFile` rolls over once the clock reaches a deadline. It renames the
    active file to `filename.YYYY-MM-DD`, deletes all but the newest `backupCount`
    dated backups and reopens.
  - Both are classes whose fields are updated in place. No real files are touched:
    they run against an abstract filesystem object.
- **The ordering helper** `compare.Compare` and its sign tests `LT`, `GT`, `EQ`, `NE`,
  `GE`, `LE`.

Layout:

| file | module | contents |
|---|---|---|
| `compare.dfy` | `Compare` | values of integer kinds, strings and `Comparer` values; `strings.Compare`; `Compare` and the six predicates |
| `os.dfy` | `Os` | the abstract filesystem |
| `handler.dfy` | `Handler` | package constants, backup naming, day formatting and the `filePerm` variable |
| `sort.dfy` | `Sort` | `sort.Strings` and the sorted listing of a set of names |
| `size_rotation.dfy` | `SizeRotation` | `RotatingFile` |
| `timed_rotation.dfy` | `TimedRotation` | `TimedRotatingFile` |

Details of `Os` and `Handler`:

- The filesystem is a map from path to node, and each node is a regular file with
  bytes and a permission, or a directory.
- Its operations are remove, rename, open-or-create, stat, write, close and list.
  Each can be made to fail through a set of faults: `Fault(op, path)` means that
  call on that path fails.
- `Handler` covers the package constants, the two backup naming schemes, the `dayRE`
  pattern written out as a predicate, zero-padded day formatting, and the
  `filePerm` package variable.

How the writers are modelled:

- Each writer first gets a functional description. A `State` value holds the
  filesystem, handle, counters and deadline. Spec functions (`OpenSpec`,
  `CloseSpec`, `RolloverSpec`, `WriteSpec`, …) say how each step of the code
  changes that state, error paths included.
- The class then runs the same steps imperatively, with the same early returns.
  Each method is proved to leave exactly the state its spec function gives.
- The lemmas state what the rotation achieves: rollover threshold, payload written
  whole, idempotent close, terminal failure, backup ladder, retention bound and
  deadline arithmetic.

Inputs that the code gets from the environment are parameters here:

- `now`: the Unix time.
- `secs`: the local clock's time of day at `now`, in seconds (`(hour*60+minute)*60+second`).
- `localDate`: the local calendar.
- the fault set: which OS calls fail.

## Model

| member | source | states |
|---|---|---|
| Compare.StrCompare | compare/compare.go:90-95 | `strings.Compare` returns -1, 0 or 1, and 0 exactly when the strings are equal |
| Compare.StrCompareIsLex | compare/compare.go:94 | `strings.Compare` is negative exactly when the first string is lexicographically smaller than the second, by an independent definition of that order |
| Compare.StrCompareAntisymmetric | compare/compare.go:94 | swapping the strings negates `strings.Compare` |
| Compare.StrCompareTransitive | compare/compare.go:94 | string order is transitive |
| Compare.StrCompareConcat | compare/compare.go:94 | for first parts of equal length, the first parts decide the comparison of two concatenations unless they are equal |
| Compare.Compare | compare/compare.go:5-107 | a `Comparer` first argument is delegated to; same-kind integers give exactly 1, 0 or -1 according to `>`, `==`, `<`; strings give the lexicographic sign; mismatched kinds are excluded by the precondition, in place of the panic |
| Compare.LT | compare/compare.go:109-112 | `LT` holds exactly when `v1 < v2`: numerically for integers, lexicographically for strings, and by a negative delegate result for a `Comparer` |
| Compare.GT | compare/compare.go:114-117 | `GT` holds exactly when `v1 > v2` in the same three senses |
| Compare.EQ | compare/compare.go:119-122 | for integer and string kinds `EQ` is value equality; for a `Comparer` it is a zero delegate result |
| Compare.NE | compare/compare.go:124-127 | `NE` is the negation of `EQ` |
| Compare.GE | compare/compare.go:129-132 | `GE` is `>=` on integers and is exactly `!LT` |
| Compare.LE | compare/compare.go:134-137 | `LE` is `<=` on integers and is exactly `!GT` |
| Compare.Trichotomy | compare/compare.go:5-6 | exactly one of `LT`, `EQ`, `GT` holds |
| Compare.CompareReflexive | compare/compare.go:5-6 | a value of integer or string kind compares equal to itself |
| Compare.CompareAntisymmetric | compare/compare.go:5-6 | for integer and string kinds, swapping the arguments negates `Compare` |
| Compare.LTIsConverseOfGT | compare/compare.go:109-117 | `LT(a, b)` exactly when `GT(b, a)` |
| Compare.LTTransitive | compare/compare.go:109-112 | `LT` is transitive on integer and string kinds |
| Os.Exists | log/handler/rotating.go:284 | `file.IsExist`: the path has a node, file or directory |
| Os.IsFile | log/handler/rotating.go:150 | `file.IsFile`: the path has a regular file |
| Os.Remove | log/handler/rotating.go:286 | `os.Remove` succeeds exactly when the path exists and no remove fault is set; it then deletes that path and nothing else; a failure changes nothing |
| Os.Rename | log/handler/rotating.go:289 | `os.Rename` succeeds exactly when the source exists, no rename fault is set and the destination is not a directory; it then moves the source onto the destination as `MoveFile` states, or changes nothing when both are the same path; a failure changes nothing |
| Os.FdWrite | log/handler/rotating.go:250 | a handle write succeeds exactly when the handle is open and no write fault is set; it then reports the whole length and appends the data to a regular file at the handle's path, touching no other file; a failure writes nothing and reports 0 |
| Os.FdClose | log/handler/rotating.go:272 | closing succeeds exactly when the handle is still open and no close fault is set; a second close answers `ErrClosed` |
| Os.OpenFile | log/handler/rotating.go:24 | opening with `O_APPEND\|O_CREATE\|O_WRONLY` succeeds exactly when no open fault is set and the path is not a directory; it leaves an existing regular file untouched, creates a missing one empty with `perm` and changes no other path; a failure changes nothing |
| Os.MoveFile | log/handler/rotating.go:151 | after a rename the source is gone, the destination holds the source's node, and every other path is unchanged |
| Os.FileSystem.Stat | log/handler/rotating.go:315-319 | `Stat` fails exactly when a stat fault is set; otherwise it returns the file's byte size |
| Os.FileSystem.ListDir | log/handler/rotating.go:169 | the listing fails exactly when a list fault is set; otherwise it names each entry directly inside the directory exactly once and nothing else |
| Os.FileSystem.RemovePath | log/handler/rotating.go:297 | the method leaves exactly `Remove`'s filesystem and error |
| Os.FileSystem.RenamePath | log/handler/rotating.go:302 | the method leaves exactly `Rename`'s filesystem and error |
| Os.FileSystem.Open | log/handler/rotating.go:311 | the method leaves exactly `OpenFile`'s filesystem and error, and returns an open handle on the path exactly when it succeeds |
| Os.FileSystem.Write | log/handler/rotating.go:250 | the method leaves exactly `FdWrite`'s filesystem, count and error |
| Os.FileSystem.Close | log/handler/rotating.go:272 | the method answers exactly `FdClose`'s error |
| Handler.Decimal | log/handler/rotating.go:282-283 | `%d` of a non-negative number is a non-empty string of digits |
| Handler.DecimalInjective | log/handler/rotating.go:282-283 | distinct numbers print differently |
| Handler.LadderNameIsRung | log/handler/rotating.go:282-283 | `filename.i` is a numbered backup name and differs from the active file |
| Handler.LadderNameInjective | log/handler/rotating.go:282-283 | `filename.i == filename.j` exactly when `i == j` |
| Handler.LadderName | log/handler/rotating.go:282-283 | `fmt.Sprintf("%s.%d", filename, i)`; `LadderNameIsRung` and `LadderNameInjective` state its properties |
| Handler.Pad | log/handler/rotating.go:21 | a zero-padded field of width `w` has `w` digits |
| Handler.PadOrder | log/handler/rotating.go:21 | zero-padding to a common width turns numeric order into string order |
| Handler.DayRE | log/handler/rotating.go:31 | `^\d{4}-\d{2}-\d{2}(\.\w+)?$` written out position by position; `FormatDayShape`, `FormatDayParse` and `DayREReadsDay` relate it to the day format in both directions |
| Handler.FormatDay | log/handler/rotating.go:145 | `Format("2006-01-02")` of a local date as zero-padded year, month and day joined by `-`; `FormatDayShape`, `FormatDayParse` and `FormatDayOrder` state its properties |
| Handler.FormatDayShape | log/handler/rotating.go:21-31 | the `2006-01-02` form of a day is 10 characters long and matches `dayRE` |
| Handler.FormatDayParse | log/handler/rotating.go:21 | reading the three fields of a formatted day back gives the day, so distinct days give distinct backup names |
| Handler.DayREReadsDay | log/handler/rotating.go:31 | every string `dayRE` accepts begins with the zero-padded fields it reads back to, and that prefix is the formatted day whenever the fields form a calendar date |
| Handler.FormatDayOrder | log/handler/rotating.go:21 | one formatted day sorts below another exactly when it is the earlier day, so `sort.Strings` orders dated backups by age |
| Handler.IsBackupEntry | log/handler/rotating.go:178-184 | the filter test: the name is longer than `baseName + "."`, starts with it, and the rest matches `dayRE`; `DayBackupIsEntry` and `ListingMatches` state its properties |
| Handler.DayBackupIsEntry | log/handler/rotating.go:175-187 | the dated backup name a rollover produces, alone or followed by a `.ext` of word characters, passes the prune filter |
| Handler.PackageVars.ResetDefaultFilePerm | log/handler/rotating.go:46-49 | `filePerm` becomes the integer cut to 32 bits, as `os.FileMode(perm)` does |
| Sort.SortStrings | log/handler/rotating.go:193 | `sort.Strings` returns a permutation of its input in ascending `strings.Compare` order |
| Sort.Insert | log/handler/rotating.go:193 | one insertion step of the sort; `InsertSorted` and `InsertMultiset` state its properties |
| Sort.InsertSorted | log/handler/rotating.go:193 | inserting into a sorted list keeps it sorted |
| Sort.InsertMultiset | log/handler/rotating.go:193 | inserting adds exactly that one element and loses none |
| Sort.SortedUnique | log/handler/rotating.go:193 | two sorted lists with the same elements are equal, so the sorted result does not depend on the listing order |
| Sort.SortedOf | log/handler/rotating.go:193 | a finite set of names has a sorted listing without repetitions of the same size |
| Sort.SortedDistinctStrict | log/handler/rotating.go:193-194 | in such a listing every entry sorts strictly below every later one |
| SizeRotation.CloseSpec | log/handler/rotating.go:270-276 | `close` leaves no handle and changes neither the files nor `nbytes`; without a handle it succeeds |
| SizeRotation.OpenSpec | log/handler/rotating.go:310-322 | a successful `open` holds a fresh handle on a regular active file with `nbytes` equal to that file's existing size; a failed one keeps the handle and `nbytes` |
| SizeRotation.RolloverSpec | log/handler/rotating.go:278-308 | a failed rollover leaves no handle; a successful one holds a fresh handle on the active file |
| SizeRotation.ShiftRung | log/handler/rotating.go:284-292 | one step of the ladder loop as written: `filename.i` moves to `filename.(i+1)` only when both exist, the destination being removed first; the remove's or the rename's error ends it |
| SizeRotation.Ladder | log/handler/rotating.go:281-294 | the ladder loop over `i = backupCount-1 … 1`, stopping at the first error; `LadderKeepsActive` and `LadderIdleWithoutHigherRungs` state its properties |
| SizeRotation.RetireActive | log/handler/rotating.go:295-305 | the `.1` step: remove an existing `filename.1`, then rename an existing active file to it, stopping at the first error |
| SizeRotation.Shuffle | log/handler/rotating.go:280-306 | the filesystem part of `doRollover`: nothing when `backupCount <= 0`, otherwise the ladder loop and then the `.1` step; `NoRungPastOne` and `AsWrittenRolloverDropsBackup` state its effect |
| SizeRotation.HandleWrite | log/handler/rotating.go:250-253 | the handle write, with `nbytes` grown by `n` only when it succeeds |
| SizeRotation.WriteSpec | log/handler/rotating.go:235-255 | an unusable handle gives `ErrFileNotOpen` and no change; on success the payload is written whole and, without a rollover, `nbytes` grows by `n`; a failure, which the model takes to write nothing, reports `n = 0` |
| SizeRotation.RotatingFile.constructor | log/handler/rotating.go:220-232 | the writer starts with the state a successful first `open` gives |
| SizeRotation.RotatingFile.Open | log/handler/rotating.go:310-322 | the method leaves exactly `OpenSpec`'s state and error |
| SizeRotation.RotatingFile.CloseUnlocked | log/handler/rotating.go:270-276 | the method leaves exactly `CloseSpec`'s state and error |
| SizeRotation.RotatingFile.Close | log/handler/rotating.go:262-268 | as `close` |
| SizeRotation.RotatingFile.DoRollover | log/handler/rotating.go:278-308 | the ladder loop, the `.1` step and the reopen leave exactly `RolloverSpec`'s state and error, and keep `Valid` |
| SizeRotation.RotatingFile.Write | log/handler/rotating.go:234-255 | the method leaves exactly `WriteSpec`'s state, count and error, and keeps the invariant `Valid`: a handle, when there is one, is an open handle on `filename` |
| SizeRotation.RotatingFile.WriteString | log/handler/rotating.go:257-260 | the bytes go straight to the handle, with no usability check, no rollover and no change to `nbytes` |
| SizeRotation.WriteRejectsUnusableHandle | log/handler/rotating.go:239-242 | no handle, or a closed one: `ErrFileNotOpen`, nothing written, nothing changed |
| SizeRotation.CloseIsIdempotent | log/handler/rotating.go:270-276 | a second `close` returns no error and changes nothing |
| SizeRotation.FailedRolloverDisablesWriter | log/handler/rotating.go:239-307 | after a failed rollover every write answers `ErrFileNotOpen` and changes nothing |
| SizeRotation.WriteBelowLimitAppends | log/handler/rotating.go:244-254 | when `nbytes + len(data) <= maxSize` there is no rollover: the data is appended to the active file and `nbytes` grows by `len(data)` |
| SizeRotation.LadderKeepsActive | log/handler/rotating.go:281-294 | the ladder loop never touches the active file and, when nothing fails, succeeds |
| SizeRotation.WriteOverLimitRotatesFirst | log/handler/rotating.go:244-307 | past the limit with backups enabled, the old active file becomes `filename.1` and the whole payload lands in the fresh file, even when it alone exceeds `maxSize` and the old file was empty; `nbytes` is then the payload size |
| SizeRotation.WriteOverLimitWithoutBackupsReopens | log/handler/rotating.go:280-321 | with `backupCount <= 0` a rollover renames and removes nothing; `nbytes` restarts from the file's real size |
| SizeRotation.LadderIdleWithoutHigherRungs | log/handler/rotating.go:284-292 | without backups numbered 2 or more the ladder loop changes nothing |
| SizeRotation.NoRungPastOne | log/handler/rotating.go:284-305 | starting without backups numbered 2 or more, no rollover ever creates one |
| SizeRotation.AsWrittenRolloverDropsBackup | log/handler/rotating.go:284-305 | with two or more slots: starting from the active file and `.1`, the rollover moves the active file to `.1` and creates no `.2`, so the old `.1` is lost |
| SizeRotation.AsWrittenRolloverOverwritesSecond | log/handler/rotating.go:281-305 | with three or more slots, starting from the active file, `.1` and `.2` and nothing higher, the rollover moves `.1` onto `.2` and the active file to `.1` and creates no `.3`, so the old `.2` is lost |
| SizeRotation.ShiftRungMoves | log/handler/rotating.go:284-292 | with no failures and both `filename.i` and `filename.(i+1)` present, a ladder step as written moves `filename.i` onto `filename.(i+1)` |
| SizeRotation.LadderSkipsAbsent | log/handler/rotating.go:284-285 | ladder steps whose destination is missing do nothing, so with no backup above `filename.j` the loop from any higher start acts as the loop from `j` |
| SizeRotation.LadderFrame | log/handler/rotating.go:281-294 | whatever fails, the ladder loop as written changes no path that is not a numbered backup |
| SizeRotation.ShuffleFrame | log/handler/rotating.go:280-306 | whatever fails, the rollover's filesystem steps as written change no path other than the active file and its numbered backups |
| SizeRotation.ShiftRungIntendedMoves | log/handler/rotating.go:284-292 | with no failures, one corrected ladder step moves an existing `filename.i` to `filename.(i+1)`, replacing what was there |
| SizeRotation.MoveThenShift | log/handler/rotating.go:281-294 | moving the top rung up and then shifting the rungs below it shifts every rung up to the top |
| SizeRotation.RetireActiveMoves | log/handler/rotating.go:295-305 | with no failures the `.1` step moves the active file to `filename.1`, replacing what was there |
| SizeRotation.LadderIntendedShifts | log/handler/rotating.go:281-294 | the corrected ladder over rungs `top … 1`, run on the backups `.1 … .m`, moves each `.k` with `k <= min(m, top)` to `.(k+1)`, empties `.1`, and touches nothing else |
| SizeRotation.IntendedRolloverShiftsLadder | log/handler/rotating.go:280-305 | the corrected rollover moves the active file to `.1` and every backup up one slot, drops what was in the last slot, and leaves a contiguous ladder one longer, up to `backupCount`; other paths are unchanged |
| SizeRotation.IntendedLadderFills | log/handler/rotating.go:280-305 | with the corrected ladder, repeated rollovers fill the slots `1 … backupCount` |
| SizeRotation.ThreeWritesScenario | log/handler/rotating.go:234-322 | `maxSize` 10, two slots, three writes of 5 bytes to an empty path: the active file holds the third write, `.1` holds the first two, and there is no `.2` |
| TimedRotation.NextRollover | log/handler/rotating.go:205-206 | `currentTime + (interval - the local clock's time of day in seconds)`; `NextRolloverInFuture` states its meaning |
| TimedRotation.ShouldRollover | log/handler/rotating.go:117 | the clock has reached `rotatorAt` |
| TimedRotation.BackupPath | log/handler/rotating.go:144-145 | the active file's path, a dot and the formatted local date of `rotatorAt - interval`; `BackupPathIsNotActive` and `DayBackupIsEntry` state its properties |
| TimedRotation.NextRolloverInFuture | log/handler/rotating.go:197-207 | for an interval of `n >= 1` days the recomputed deadline is after `now`, `n` days after `now - secs`, which is the local midnight of `now` unless the UTC offset changed since that midnight |
| TimedRotation.NoRolloverRightAfterRecompute | log/handler/rotating.go:197-207 | right after recomputing, the same instant does not call for another rollover |
| TimedRotation.PruneList | log/handler/rotating.go:190-194 | with at most `b` matching backups nothing is pruned; otherwise exactly `count - b` distinct matching backups are |
| TimedRotation.PruneTakesOldest | log/handler/rotating.go:193-194 | every pruned backup sorts strictly below every backup kept |
| TimedRotation.Filter | log/handler/rotating.go:177-188 | the filter loop: the joined paths of the listed names that pass the filter test, in listing order; `ListingMatches` states what it selects |
| TimedRotation.PruneSpec | log/handler/rotating.go:166-195 | what `getFilesToDelete` returns: nothing when the listing fails, otherwise `PruneList` of the dated backups present |
| TimedRotation.ListingMatches | log/handler/rotating.go:175-188 | the filtered listing names each backup once: exactly the directory entries `basename + "." + s` with `s` matching `dayRE` |
| TimedRotation.SortedListingPrunes | log/handler/rotating.go:175-194 | the filtered listing has one entry per dated backup, and sorting it and cutting off the newest `b` gives exactly the prune list |
| TimedRotation.ListingSelectsPruned | log/handler/rotating.go:169-194 | after a successful listing, the count test, the sort and the slice give exactly the backups to delete |
| TimedRotation.RemoveEachRemoves | log/handler/rotating.go:157-159 | deleting the listed paths with errors ignored removes exactly those whose removal does not fail |
| TimedRotation.RemoveEach | log/handler/rotating.go:157-159 | the remove loop, each removal's error ignored; `RemoveEachRemoves` states its effect |
| TimedRotation.PruneBackups | log/handler/rotating.go:156-160 | the prune step: the remove loop over `PruneSpec` when `backupCount > 0`, nothing otherwise |
| TimedRotation.CloseSpec | log/handler/rotating.go:122-128 | `Close` drops the handle exactly when it succeeds; on a failure the handle stays but is closed; files and deadline are unchanged |
| TimedRotation.OpenSpec | log/handler/rotating.go:130-137 | a successful `open` holds a fresh handle on a regular active file; a failed one changes nothing |
| TimedRotation.RetireToBackup | log/handler/rotating.go:144-154 | a failed rename leaves the filesystem as it was after the removal at the backup path |
| TimedRotation.RolloverSpec | log/handler/rotating.go:139-164 | a failed rollover leaves a writer that cannot write; a successful one holds a fresh handle; interval and backup count are unchanged |
| TimedRotation.AfterClose | log/handler/rotating.go:144-163 | the steps after a successful close: the rename to the backup path of the period that ended, then `AfterRetire` |
| TimedRotation.AfterRetire | log/handler/rotating.go:150-163 | a failed rename ends the rollover with its error; otherwise `PruneAndOpen` follows |
| TimedRotation.PruneAndOpen | log/handler/rotating.go:156-163 | the prune, the recomputed deadline and the `open` |
| TimedRotation.WriteSpec | log/handler/rotating.go:84-101 | no handle gives `ErrFileNotOpen` and no change; otherwise the write reports the whole payload, or `n = 0` with an error when it fails, a failed write being taken to write nothing |
| TimedRotation.HandleWrite | log/handler/rotating.go:100 | `t.w.Write(data)`: the handle write's filesystem, count and error, passed through |
| TimedRotation.TimedRotatingFile.constructor | log/handler/rotating.go:66-77 | a new writer keeps the directory, base name and local calendar it is given, keeps 31 backups, has a one-day interval and the deadline recomputed, and holds a handle on the opened active file |
| TimedRotation.TimedRotatingFile.SetBackupCount | log/handler/rotating.go:103-107 | sets `backupCount` |
| TimedRotation.TimedRotatingFile.SetInterval | log/handler/rotating.go:109-114 | sets the interval to `n` days and recomputes the deadline |
| TimedRotation.TimedRotatingFile.ReComputeRollover | log/handler/rotating.go:197-207 | the deadline becomes `now` minus the local time of day, plus one interval |
| TimedRotation.TimedRotatingFile.ShouldRolloverAt | log/handler/rotating.go:116-118 | the writer rolls over exactly when `now >= rotatorAt` |
| TimedRotation.TimedRotatingFile.Close | log/handler/rotating.go:120-128 | the method leaves exactly `CloseSpec`'s state and error |
| TimedRotation.TimedRotatingFile.Open | log/handler/rotating.go:130-137 | the method leaves exactly `OpenSpec`'s state and error |
| TimedRotation.TimedRotatingFile.GetFilesToDelete | log/handler/rotating.go:166-195 | the filter loop plus the sort and the slice return exactly all but the newest `backupCount` dated backups, in ascending order, and nothing when the directory cannot be listed |
| TimedRotation.TimedRotatingFile.RetireActive | log/handler/rotating.go:144-154 | the method leaves exactly `RetireToBackup`'s filesystem and error |
| TimedRotation.TimedRotatingFile.Prune | log/handler/rotating.go:156-160 | the remove loop deletes the selected backups, errors ignored, only when `backupCount > 0` |
| TimedRotation.TimedRotatingFile.DoRollover | log/handler/rotating.go:139-164 | the method leaves exactly `RolloverSpec`'s state and error |
| TimedRotation.TimedRotatingFile.RetireAndReopen | log/handler/rotating.go:144-163 | after the close, the rename, prune, deadline and reopen steps leave exactly `AfterClose`'s state and error |
| TimedRotation.TimedRotatingFile.PruneAndReopen | log/handler/rotating.go:156-163 | after the rename, the prune, deadline and reopen steps leave exactly `PruneAndOpen`'s state and error |
| TimedRotation.TimedRotatingFile.Write | log/handler/rotating.go:84-101 | the method leaves exactly `WriteSpec`'s state, count and error |
| TimedRotation.TimedRotatingFile.WriteString | log/handler/rotating.go:79-82 | the same as `Write` |
| TimedRotation.DeadWriterStaysDead | log/handler/rotating.go:89-100 | with no handle, or a closed one, every write fails and changes nothing |
| TimedRotation.WriteAfterCloseFails | log/handler/rotating.go:89-128 | after a successful `Close` every write answers `ErrFileNotOpen` |
| TimedRotation.FailedRolloverIsTerminal | log/handler/rotating.go:94-164 | after a failed rollover every later write fails and changes nothing |
| TimedRotation.WriteBeforeDeadlineAppends | log/handler/rotating.go:94-100 | before the deadline the data is appended to the open file and nothing else changes |
| TimedRotation.Pruned | log/handler/rotating.go:156-160 | pruning without failures only removes paths |
| TimedRotation.RetireWithoutFaults | log/handler/rotating.go:144-154 | with no failures the rename step moves the active file to any other path, replacing any file there |
| TimedRotation.BackupPathIsNotActive | log/handler/rotating.go:144-145 | the dated backup path always differs from the active file |
| TimedRotation.PruneWithoutFaults | log/handler/rotating.go:156-160 | with no failures the prune deletes exactly the backups `getFilesToDelete` selects |
| TimedRotation.RemoveEachWithoutFaults | log/handler/rotating.go:157-159 | with no failures the remove loop deletes exactly the listed paths |
| TimedRotation.RolloverCloseFails | log/handler/rotating.go:140-142 | a failed close ends the rollover: nothing is renamed, pruned or reopened |
| TimedRotation.RolloverAfterClose | log/handler/rotating.go:140-163 | after a successful close the rollover goes on with the rename, prune and reopen steps on the closed state |
| TimedRotation.AfterCloseWithoutFaults | log/handler/rotating.go:144-163 | with no failures the steps after the close move the active file to its dated backup, prune, reopen an empty file and move the deadline |
| TimedRotation.PruneAndOpenWithoutFaults | log/handler/rotating.go:156-163 | with no failures and the active file renamed away, the last steps prune, create an empty active file, hold a fresh handle and move the deadline |
| TimedRotation.RolloverWithoutFaults | log/handler/rotating.go:139-164 | with no failures a rollover does three things: it moves the active file to its dated backup, deletes the selected oldest backups, and reopens an empty active file with a fresh handle and the recomputed deadline |
| TimedRotation.PrunedRemovesList | log/handler/rotating.go:156-160 | the dated backups left after the no-fault prune are exactly those not on the prune list |
| TimedRotation.PruneListSize | log/handler/rotating.go:190-194 | removing the prune list from a set of backups leaves the smaller of its size and `b` |
| TimedRotation.PrunedKeepsNewest | log/handler/rotating.go:166-195 | the prune keeps exactly `min(count, backupCount)` backups, each newer than every one deleted |
| TimedRotation.ReopenAddsNoBackup | log/handler/rotating.go:175-187 | reopening the active file never adds a dated backup |
| TimedRotation.RolloverKeepsNewestBackups | log/handler/rotating.go:156-195 | after a rollover at most `backupCount` dated backups remain, the newest ones |

## Left out

- `sync.Mutex` locking: every call is sequential, so lock acquisition and concurrent callers are not modelled.
- Real operating-system calls:
  - `os.OpenFile`, `Stat`, `Rename`, `Remove`, `file.IsExist`, `file.IsFile` and `file.ListDir` act on the abstract filesystem.
  - Failing calls are chosen by the fault set. Only the kinds of failure the code can observe are modelled.
  - Removing a non-empty directory is not distinguished from removing a file.
  - The bytes of a handle whose file was renamed away are not tracked.
- `function.Range` is not part of this model. The ladder loop assumes `Range(b-1, 0, -1)` yields `b-1, …, 1`.
- `time.Now()` and the local hour/minute/second decomposition are parameters (`now`, `secs`), and `time.Unix(t, 0)` in local time is the parameter `localDate`.
  - TimedRotation.TimedRotatingFile.Write: the code reads the clock twice, once in `shouldRollover` and once in `reComputeRollover`. The model passes one `now` to both reads.
- `time.Format` with `2006-01-02` is modelled for years 0 to 9999 only. Go prints other years differently.
- The regular-expression engine: `dayRE` is a hand-written predicate. Go's `\w` is ASCII.
- Os.FdWrite: a failed write writes nothing and reports 0. Go's `File.Write` can also write part of the data and return `n > 0` together with an error. Partial writes are not modelled, because the fault set only says whether a call fails, not how many bytes get through.
- SizeRotation.WriteSpec: on a partial write `RotatingFile.Write` returns that `n` but skips `r.nbytes += n` (`log/handler/rotating.go:250-253`), so `nbytes` falls behind the file's real size. The model cannot show this, since its failed writes append nothing.
- TimedRotation.WriteSpec: on a partial write `TimedRotatingFile.Write` passes the `n > 0` through unchanged (`log/handler/rotating.go:100`). The model reports 0 instead.
- The `WriteCloser` wrapper is not part of this model. Only its closed flag is modelled, and a write through a closed handle answers `ErrClosed`.
- `filepath.Abs`, `filepath.Split` and `filepath.Join`: the writer is given the directory (ending in a separator) and the base name. `Join` is taken to be plain concatenation, so path cleaning is not modelled.
- The panics of both constructors become preconditions that the first `open` succeeds.
- TimedRotation.TimedRotatingFile.Close requires a handle, because the Go code dereferences `t.w` without a nil check.
- TimedRotation.TimedRotatingFile.GetFilesToDelete requires `backupCount >= 0`. Its one caller, `doRollover`, only calls it when `backupCount > 0` (`log/handler/rotating.go:156`). With a negative count Go's `result[:len(result)-t.backupCount]` would reach into the spare capacity of `result`, which is made with capacity 30, and return trailing empty strings, or panic past that capacity. The model does not cover that case.
- SizeRotation.RotatingFile.WriteString requires a handle, because the Go code calls `r.w.Write` without a nil check.
- Go's fixed-width integer arithmetic:
  - `nbytes + len(data)`, `int64(interval) * day` and the deadline sum are unbounded integers, so overflow is not modelled.
  - `int(info.Size())` is taken to be exact.
- Strings are sequences of Unicode scalar values compared by code point. For valid UTF-8 this is the byte order `strings.Compare` uses. A Go string that is not valid UTF-8 cannot be represented.
- Compare.Compare: the float32 and float64 branches are not modelled. `int`, `int64`, `uint` and `uint64` are limited to magnitudes up to 2^53, because Go compares their float64 conversions, which lose precision beyond that.
- Compare.Compare: `CompareSlice`, the `default` branch, is not part of this model. User `Comparer` implementations are modelled only as the delegated result.
- `ResetDefaultFilePerm` is modelled, but neither writer reads `filePerm`. Both open with the constant `FILE_PERM`, as the code does.

## Findings

| source | as written | input that shows it | evidently intended | confidence | as-written member | corrected member |
|---|---|---|---|---|---|---|
| log/handler/rotating.go:284-292 | `filename.i` moves to `filename.(i+1)` only when `filename.(i+1)` already exists | `backupCount` 2, files `f` and `f.1`, no failures: the rollover leaves `f.1` = old `f` and no `f.2`, and the old `f.1` is deleted | every existing `filename.i` moves up one slot, the destination being removed first if present, so `backupCount` backups are kept | high (not executed) | SizeRotation.AsWrittenRolloverDropsBackup | SizeRotation.IntendedRolloverShiftsLadder |

Why the shift is evidently meant for every existing backup:
- The rename at `log/handler/rotating.go:289` is nested inside `if file.IsExist(dfn)`
  at line 285, the check made before removing `dfn`. The `.1` step at lines 295-305
  has the same remove-if-present shape, but there the rename follows the check
  instead of sitting inside it.
- The first shape turns the loop into a no-op unless `filename.(i+1)` already exists,
  so without a `.2` the ladder never grows past `.1`.
- The loop has the shape of `doRollover` in Python's `logging.handlers.RotatingFileHandler`:
  the same `range(backupCount-1, 0, -1)` and the same `sfn`/`dfn` names. There the
  rename comes after the inner exists check rather than inside it, so every existing
  backup moves up one slot. The package's other writer, `TimedRotatingFile`, names
  Python's `logging.handlers` as its model (`log/handler/rotating.go:51-52`).

The class `SizeRotation.RotatingFile` follows the code as written, because that is what
the program does:
- `SizeRotation.NoRungPastOne` proves that its ladder never grows past `.1`.
- The loss is general. `SizeRotation.AsWrittenRolloverOverwritesSecond` shows that
  with three or more slots and backups `.1` and `.2`, the old `.2` is overwritten by `.1`
  and no `.3` is created.
- `SizeRotation.ShiftRungMoves` gives a step in which both names exist.
  `SizeRotation.ShuffleFrame` proves that the as-written rollover changes no path other
  than the active file and its numbered backups.

The corrected ladder is given alongside, and its intended properties are proved:
- `SizeRotation.ShiftRungIntended`, `SizeRotation.LadderIntended` and
  `SizeRotation.ShuffleIntended` define it.
- `SizeRotation.LadderIntendedShifts`, `SizeRotation.IntendedRolloverShiftsLadder` and
  `SizeRotation.IntendedLadderFills` are its proofs.
