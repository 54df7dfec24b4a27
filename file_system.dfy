/**
 * The part of the file system the installer sees.
 *
 * A path is the sequence of its components below the root; the root `[]`
 * always exists and is a directory.  Every other existing path is a key of
 * a map holding a node: whether it is a directory, its modification time
 * (`File.lastModified()`) and, for a regular file, its bytes.
 */
module FileSystems {
  import opened Wrappers

  type Path = seq<string>

  datatype Node = Node(isDirectory: bool, mtime: int, bytes: seq<bv8>)

  type Files = map<Path, Node>

  /** `File.getName()`: the last component; the root has the empty name. */
  function Name(p: Path): string {
    if p == [] then "" else p[|p| - 1]
  }

  /** `File.getParentFile()` of an absolute path; the root is its own parent. */
  function Parent(p: Path): Path {
    if p == [] then [] else p[..|p| - 1]
  }

  /** `new File(d, name)`. */
  function Child(d: Path, name: string): Path {
    d + [name]
  }

  /** `a` lies strictly above `b`. */
  predicate IsAncestor(a: Path, b: Path) {
    |a| < |b| && b[..|a|] == a
  }

  /** `File.exists()`. */
  predicate Exists(files: Files, p: Path) {
    p == [] || p in files
  }

  /** `File.isDirectory()`. */
  predicate IsDirectory(files: Files, p: Path) {
    p == [] || (p in files && files[p].isDirectory)
  }

  /** `File.isFile()`. */
  predicate IsFile(files: Files, p: Path) {
    p in files && !files[p].isDirectory
  }

  /** `File.lastModified()`: 0 for a path that does not exist. */
  function MTime(files: Files, p: Path): int {
    if p in files then files[p].mtime else 0
  }

  /** Every proper ancestor of an existing path is an existing directory. */
  predicate WellFormed(files: Files) {
    && [] !in files
    && forall p, n :: p in files && 0 < n < |p| ==> p[..n] in files && files[p[..n]].isDirectory
  }

  /** `File.listFiles()`: the entries of a directory, None (Java's null) for anything else. */
  function ListFiles(files: Files, d: Path): (r: Option<set<Path>>)
    ensures r.None? <==> !IsDirectory(files, d)
    ensures r.Some? ==> forall p :: p in r.value <==> p in files && p != [] && Parent(p) == d
  {
    if IsDirectory(files, d) then Some(set p | p in files && p != [] && Parent(p) == d) else None
  }

  /** Some proper ancestor of `p` is a regular file, so nothing can be created at `p`. */
  predicate BlockedByFile(files: Files, p: Path) {
    exists n :: 0 < n < |p| && IsFile(files, p[..n])
  }

  /** `files` with every missing ancestor of `d`, and `d` itself, created as directories stamped `now`. */
  function WithDirs(files: Files, d: Path, now: int): (r: Files)
    ensures forall p :: p in r <==> p in files || (0 < |p| <= |d| && d[..|p|] == p)
    ensures forall p :: p in files ==> r[p] == files[p]
    ensures forall p :: p in r && p !in files ==> r[p] == Node(true, now, [])
  {
    var added := set n | 0 < n <= |d| :: d[..n];
    assert forall p :: (0 < |p| <= |d| && d[..|p|] == p) ==> p in added;
    map p | p in files.Keys + added :: if p in files then files[p] else Node(true, now, [])
  }

  /**
   * `FileUtils.copyFile(src, dst)`: None when it throws an `IOException`.
   * It throws when the source is not a regular file, when the destination is
   * a directory, or when a proper ancestor of the destination is a regular
   * file (the parent directories cannot be made).  Copying a file onto itself
   * does nothing.  Otherwise the missing parent directories are made and the
   * destination becomes a regular file with the source's bytes, stamped with
   * the time of the copy.
   */
  function Copied(files: Files, src: Path, dst: Path, now: int): (r: Option<Files>)
    ensures r.Some? ==> IsFile(files, src) && IsFile(r.value, dst) && r.value[dst].bytes == files[src].bytes
    ensures r.Some? && src != dst ==> MTime(r.value, dst) == now
  {
    if !IsFile(files, src) then None
    else if src == dst then Some(files)
    else if IsDirectory(files, dst) || BlockedByFile(files, dst) then None
    else Some(WithDirs(files, Parent(dst), now)[dst := Node(false, now, files[src].bytes)])
  }

  /** `File.delete()` succeeds on an existing file or empty directory: nothing lies directly in it. */
  predicate CanDelete(files: Files, p: Path)
    ensures CanDelete(files, p) ==> p in files
    ensures CanDelete(files, p) ==> forall q :: q in files && q != [] ==> Parent(q) != p
  {
    assert forall q :: q in files && q != [] && Parent(q) == p ==> IsAncestor(p, q);
    p in files && forall q :: q in files ==> !IsAncestor(p, q)
  }

  /** `File.mkdirs()`: None (it returns false) when `d` exists or an ancestor is a regular file. */
  function MadeDirs(files: Files, d: Path, now: int): (r: Option<Files>)
    ensures r.Some? ==> IsDirectory(r.value, d) && forall p :: p in files ==> p in r.value && r.value[p] == files[p]
  {
    if Exists(files, d) || BlockedByFile(files, d) then None
    else Some(WithDirs(files, d, now))
  }

  /** A successful copy leaves the file system well formed, the destination a copy of the source, and every other existing path as it was. */
  lemma CopyPreservesWellFormed(files: Files, src: Path, dst: Path, now: int)
    requires WellFormed(files)
    requires Copied(files, src, dst, now).Some?
    ensures var r := Copied(files, src, dst, now).value;
      && WellFormed(r)
      && IsFile(r, dst) && r[dst].bytes == files[src].bytes
      && (src != dst ==> MTime(r, dst) == now)
      && forall p :: p in files && p != dst ==> p in r && r[p] == files[p]
  {
    if src != dst {
      var w := WithDirs(files, Parent(dst), now);
      var r := w[dst := Node(false, now, files[src].bytes)];
      assert dst != [];
      forall p, n | p in r && 0 < n < |p| ensures p[..n] in r && r[p[..n]].isDirectory {
        if p == dst {
          assert Parent(dst)[..n] == p[..n];
          if p[..n] in files {
            assert !IsFile(files, dst[..n]);
          }
        } else if p in files {
          assert p[..n] in files && files[p[..n]].isDirectory;
        } else {
          assert Parent(dst)[..n] == p[..n];
          if p[..n] in files {
            assert p[..n] == dst[..n];
            assert !IsFile(files, dst[..n]);
          }
        }
      }
    }
  }

  /** Deleting a path that can be deleted keeps the file system well formed. */
  lemma DeletePreservesWellFormed(files: Files, p: Path)
    requires WellFormed(files) && CanDelete(files, p)
    ensures WellFormed(files - {p})
  {
    forall q, n | q in files - {p} && 0 < n < |q| ensures q[..n] in files - {p} {
      assert q[..n] in files;
      assert IsAncestor(q[..n], q);
    }
  }

  /** Deleting one of two distinct paths of equal length does not change whether the other can be deleted. */
  lemma DeleteKeepsSiblingDeletable(files: Files, p: Path, q: Path)
    requires |p| == |q| && p != q
    ensures CanDelete(files - {p}, q) == CanDelete(files, q)
  {
    if CanDelete(files - {p}, q) {
      forall x | x in files ensures !IsAncestor(q, x) {
        if x == p {
          assert |x| == |q|;
        } else {
          assert x in files - {p};
        }
      }
    }
  }

  /** A successful mkdirs makes `d` a directory and keeps the file system well formed. */
  lemma MakeDirsPreservesWellFormed(files: Files, d: Path, now: int)
    requires WellFormed(files)
    requires MadeDirs(files, d, now).Some?
    ensures var r := MadeDirs(files, d, now).value;
      WellFormed(r) && IsDirectory(r, d) && forall p :: p in files ==> p in r && r[p] == files[p]
  {
    var r := WithDirs(files, d, now);
    forall p, n | p in r && 0 < n < |p| ensures p[..n] in r && r[p[..n]].isDirectory {
      if p !in files {
        assert d[..n] == p[..n];
        if p[..n] in files {
          assert !IsFile(files, d[..n]);
        }
      }
    }
    assert d != [] && d[..|d|] == d;
  }

  /** The file system the installer works on: the copies and deletions of the run update it in place. */
  class FileSystem {
    var files: Files

    predicate Valid()
      reads this
    {
      WellFormed(files)
    }

    constructor (initial: Files)
      requires WellFormed(initial)
      ensures Valid() && files == initial
    {
      files := initial;
    }

    /** `FileUtils.copyFile`: `ok` is false when it throws. */
    method CopyFile(src: Path, dst: Path, now: int) returns (ok: bool)
      requires Valid()
      modifies this
      ensures Valid()
      ensures ok == Copied(old(files), src, dst, now).Some?
      ensures files == if ok then Copied(old(files), src, dst, now).value else old(files)
    {
      var r := Copied(files, src, dst, now);
      if r.Some? {
        CopyPreservesWellFormed(files, src, dst, now);
        files := r.value;
      }
      ok := r.Some?;
    }

    /** `File.delete()`. */
    method Delete(p: Path) returns (ok: bool)
      requires Valid()
      modifies this
      ensures Valid()
      ensures ok == CanDelete(old(files), p)
      ensures files == if ok then old(files) - {p} else old(files)
    {
      ok := CanDelete(files, p);
      if ok {
        DeletePreservesWellFormed(files, p);
        files := files - {p};
      }
    }

    /** `File.mkdirs()`. */
    method MakeDirs(d: Path, now: int) returns (ok: bool)
      requires Valid()
      modifies this
      ensures Valid()
      ensures ok == MadeDirs(old(files), d, now).Some?
      ensures files == if ok then MadeDirs(old(files), d, now).value else old(files)
    {
      var r := MadeDirs(files, d, now);
      if r.Some? {
        MakeDirsPreservesWellFormed(files, d, now);
        files := r.value;
      }
      ok := r.Some?;
    }
  }
}
