/** The operating-system services both rotating writers use, over an abstract
    filesystem: a map from path to node. OS calls fail where the fault set says so,
    otherwise they behave as the POSIX calls they stand for. */
module Os {

  newtype byte = x: int | 0 <= x < 256

  datatype Option<T> = None | Some(value: T)

  /** The OS calls whose failures the model distinguishes. */
  datatype Op = OpOpen | OpStat | OpRemove | OpRename | OpWrite | OpClose | OpList

  /** `ErrFileNotOpen` is the handler package's own error; `ErrClosed` is what a
      file handle answers once closed; `OsError` is a failed OS call on a path. */
  datatype Error = ErrFileNotOpen | ErrClosed | OsError(op: Op, path: string)

  /** A fault says that the OS call `op` on `path` fails. */
  datatype Fault = Fault(op: Op, path: string)

  datatype Node = Regular(data: seq<byte>, perm: nat) | Directory

  type Files = map<string, Node>

  /** An open file: the path it was opened on and the closed flag of its wrapper. */
  datatype Handle = Handle(path: string, closed: bool)

  /** The filesystem after an OS call, and the call's error if it failed. */
  datatype FsOut = FsOut(files: Files, err: Option<Error>)

  /** The bytes of a file handle's write: the new filesystem, the count written
      and the error. */
  datatype WriteOut = WriteOut(files: Files, n: nat, err: Option<Error>)

  /** `file.IsExist` */
  predicate Exists(files: Files, p: string)
  {
    p in files
  }

  /** `file.IsFile`: the path exists and is a regular file. */
  predicate IsFile(files: Files, p: string)
  {
    p in files && files[p].Regular?
  }

  /** `os.Remove`: fails on a missing path. */
  function Remove(files: Files, faults: set<Fault>, p: string): (o: FsOut)
    ensures o.err.None? <==> p in files && Fault(OpRemove, p) !in faults
    ensures o.err.None? ==> p !in o.files && forall q :: q != p ==> Unchanged(files, o.files, q)
    ensures o.err.Some? ==> o == FsOut(files, Some(OsError(OpRemove, p)))
  {
    if p !in files || Fault(OpRemove, p) in faults then FsOut(files, Some(OsError(OpRemove, p)))
    else FsOut(files - {p}, None)
  }

  /** `os.Rename`: replaces an existing regular file at `dst`, refuses to replace a
      directory, fails on a missing source. */
  function Rename(files: Files, faults: set<Fault>, src: string, dst: string): (o: FsOut)
    ensures o.err.None? <==>
      src in files && Fault(OpRename, src) !in faults && !(dst in files && files[dst].Directory?)
    ensures o.err.None? && src != dst ==> o.files == MoveFile(files, src, dst)
    ensures o.err.None? && src == dst ==> o.files == files
    ensures o.err.Some? ==> o == FsOut(files, Some(OsError(OpRename, src)))
  {
    if src !in files || Fault(OpRename, src) in faults || (dst in files && files[dst].Directory?) then
      FsOut(files, Some(OsError(OpRename, src)))
    else
      FsOut((files - {src})[dst := files[src]], None)
  }

  /** `os.OpenFile(p, O_APPEND|O_CREATE|O_WRONLY, perm)`: creates an empty file with
      `perm` when the path is missing, refuses a directory. */
  function OpenFile(files: Files, faults: set<Fault>, p: string, perm: nat): (o: FsOut)
    ensures o.err.None? <==> Fault(OpOpen, p) !in faults && !(p in files && files[p].Directory?)
    ensures o.err.None? ==> IsFile(o.files, p)
    ensures o.err.None? && IsFile(files, p) ==> o.files == files
    ensures o.err.None? && p !in files ==> o.files == files[p := Regular([], perm)]
    ensures o.err.Some? ==> o == FsOut(files, Some(OsError(OpOpen, p)))
  {
    if Fault(OpOpen, p) in faults || (p in files && files[p].Directory?) then
      FsOut(files, Some(OsError(OpOpen, p)))
    else if p in files then FsOut(files, None)
    else FsOut(files[p := Regular([], perm)], None)
  }

  /** Appending to the file at `p`; bytes written to a path that is no longer a
      regular file go to an unlinked inode and are not visible. */
  function Append(files: Files, p: string, data: seq<byte>): Files
  {
    if IsFile(files, p) then files[p := files[p].(data := files[p].data + data)] else files
  }

  /** A write on an open handle. */
  function FdWrite(files: Files, faults: set<Fault>, h: Handle, data: seq<byte>): (r: WriteOut)
    ensures r.err.None? <==> !h.closed && Fault(OpWrite, h.path) !in faults
    ensures r.err.None? ==> r.n == |data|
    ensures r.err.None? && IsFile(files, h.path) ==>
      IsFile(r.files, h.path) && r.files[h.path].data == files[h.path].data + data
    ensures r.err.None? ==> forall q :: q != h.path || !IsFile(files, q) ==> Unchanged(files, r.files, q)
    ensures r.err.Some? ==> r.files == files && r.n == 0
  {
    if h.closed then WriteOut(files, 0, Some(ErrClosed))
    else if Fault(OpWrite, h.path) in faults then WriteOut(files, 0, Some(OsError(OpWrite, h.path)))
    else WriteOut(Append(files, h.path, data), |data|, None)
  }

  /** Closing a handle: a second close answers `ErrClosed`. */
  function FdClose(faults: set<Fault>, h: Handle): (e: Option<Error>)
    ensures e.None? <==> !h.closed && Fault(OpClose, h.path) !in faults
    ensures h.closed ==> e == Some(ErrClosed)
  {
    if h.closed then Some(ErrClosed)
    else if Fault(OpClose, h.path) in faults then Some(OsError(OpClose, h.path))
    else None
  }

  /** `p` is the same in both filesystems. */
  predicate Unchanged(a: Files, b: Files, p: string)
  {
    (p in a <==> p in b) && (p in a ==> a[p] == b[p])
  }

  /** Moving the file at `src` to `dst`, replacing what was there. */
  function MoveFile(files: Files, src: string, dst: string): (r: Files)
    requires src in files && src != dst
    ensures src !in r && dst in r && r[dst] == files[src]
    ensures forall p :: p != src && p != dst ==> Unchanged(files, r, p)
  {
    (files - {dst} - {src})[dst := files[src]]
  }

  /** `k` names an entry directly inside directory `dir` (which ends with a separator). */
  predicate IsChild(dir: string, k: string)
  {
    |dir| < |k| && k[..|dir|] == dir && '/' !in k[|dir|..]
  }

  predicate Distinct<T(==)>(s: seq<T>)
  {
    forall i, j :: 0 <= i < j < |s| ==> s[i] != s[j]
  }

  /** The mutable filesystem the writers work on. Only the writers change `files`;
      `faults` is the environment's choice of which calls fail. */
  class FileSystem {
    var files: Files
    var faults: set<Fault>

    constructor (files: Files, faults: set<Fault>)
      ensures this.files == files && this.faults == faults
    {
      this.files := files;
      this.faults := faults;
    }

    function IsExist(p: string): (b: bool)
      reads this
    {
      Exists(files, p)
    }

    function IsRegular(p: string): (b: bool)
      reads this
    {
      IsFile(files, p)
    }

    method RemovePath(p: string) returns (err: Option<Error>)
      modifies this`files
      ensures FsOut(files, err) == Remove(old(files), faults, p)
    {
      var o := Remove(files, faults, p);
      files, err := o.files, o.err;
    }

    method RenamePath(src: string, dst: string) returns (err: Option<Error>)
      modifies this`files
      ensures FsOut(files, err) == Rename(old(files), faults, src, dst)
    {
      var o := Rename(files, faults, src, dst);
      files, err := o.files, o.err;
    }

    method Open(p: string, perm: nat) returns (h: Option<Handle>, err: Option<Error>)
      modifies this`files
      ensures FsOut(files, err) == OpenFile(old(files), faults, p, perm)
      ensures h == if err.None? then Some(Handle(p, false)) else None
    {
      var o := OpenFile(files, faults, p, perm);
      files, err := o.files, o.err;
      h := if err.None? then Some(Handle(p, false)) else None;
    }

    /** `file.Stat()` on a handle opened on `p`: the size of the file. */
    method Stat(p: string) returns (size: Option<nat>, err: Option<Error>)
      requires IsFile(files, p)
      ensures err == if Fault(OpStat, p) in faults then Some(OsError(OpStat, p)) else None
      ensures size == if err.None? then Some(|files[p].data|) else None
    {
      if Fault(OpStat, p) in faults {
        size, err := None, Some(OsError(OpStat, p));
      } else {
        size, err := Some(|files[p].data|), None;
      }
    }

    method Write(h: Handle, data: seq<byte>) returns (n: nat, err: Option<Error>)
      modifies this`files
      ensures WriteOut(files, n, err) == FdWrite(old(files), faults, h, data)
    {
      var o := FdWrite(files, faults, h, data);
      files, n, err := o.files, o.n, o.err;
    }

    method Close(h: Handle) returns (err: Option<Error>)
      ensures err == FdClose(faults, h)
    {
      err := FdClose(faults, h);
    }

    /** `file.ListDir`: the names of the entries directly inside `dir`, each once,
        in an order the model leaves open. */
    method ListDir(dir: string) returns (names: Option<seq<string>>)
      ensures names.None? <==> Fault(OpList, dir) in faults
      ensures names.Some? ==> Distinct(names.value)
      ensures names.Some? ==> forall n :: n in names.value ==> dir + n in files && IsChild(dir, dir + n)
      ensures names.Some? ==> forall k :: k in files && IsChild(dir, k) ==> k[|dir|..] in names.value
    {
      if Fault(OpList, dir) in faults {
        return None;
      }
      var keys := files.Keys;
      var out: seq<string> := [];
      while keys != {}
        invariant keys <= files.Keys
        invariant Distinct(out)
        invariant forall n :: n in out ==> dir + n in files && IsChild(dir, dir + n) && dir + n !in keys
        invariant forall k :: k in files && IsChild(dir, k) && k !in keys ==> k[|dir|..] in out
        decreases keys
      {
        var k :| k in keys;
        if IsChild(dir, k) {
          var name := k[|dir|..];
          assert dir + name == k;
          out := out + [name];
        }
        keys := keys - {k};
      }
      names := Some(out);
    }
  }
}
