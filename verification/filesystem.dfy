/**
 * The part of the operating system's file system that the writer touches:
 * a map from absolute path (its components, root first) to a node. The
 * root directory, the empty path, always exists and is not in the map.
 * Links, permissions and timestamps are not modelled.
 */
module FileSystem {
  import opened Wrappers

  /** An absolute path as its components: ["data", "bids", "README"] is /data/bids/README. */
  type Path = seq<string>

  type Content = string

  datatype Node = File(content: Content) | Dir

  type FS = map<Path, Node>

  /** The OSError subclasses the calls below raise, each with the path it names. */
  datatype OsError =
    | FileNotFound(path: Path)
    | FileExists(path: Path)
    | NotADirectory(path: Path)
    | IsADirectory(path: Path)
    | SameFile(path: Path)

  /** The file system after a call, and the error the call raised, if any. */
  datatype Done = Done(fs: FS, failure: Option<OsError>)

  function Parent(p: Path): Path
    requires p != []
  {
    p[..|p| - 1]
  }

  /** `os.path.exists`. */
  predicate Exists(fs: FS, p: Path) {
    p == [] || p in fs
  }

  /** `os.path.isdir`. */
  predicate IsDir(fs: FS, p: Path) {
    p == [] || (p in fs && fs[p].Dir?)
  }

  /** `os.path.isfile`. */
  predicate IsFile(fs: FS, p: Path) {
    p != [] && p in fs && fs[p].File?
  }

  /** Every node hangs off a directory: the shape a real file system has. */
  predicate Tree(fs: FS) {
    forall p | p in fs :: p != [] && IsDir(fs, Parent(p))
  }

  /** p is in both file systems with the same node, or in neither. */
  predicate Agree(fs: FS, fs': FS, p: Path) {
    (p in fs <==> p in fs') && (p in fs ==> fs[p] == fs'[p])
  }

  /** Every path outside except is in both file systems with the same node, or in neither. */
  ghost predicate Unchanged(fs: FS, fs': FS, except: set<Path>) {
    forall q | q !in except :: Agree(fs, fs', q)
  }

  /** Two steps change no more than the union of what each changes. */
  lemma UnchangedTrans(fs: FS, fs': FS, fs'': FS, e: set<Path>, e': set<Path>)
    requires Unchanged(fs, fs', e) && Unchanged(fs', fs'', e')
    ensures Unchanged(fs, fs'', e + e')
  {
  }

  /** The path of a file or directory p and everything below it. */
  predicate Below(p: Path, q: Path) {
    p <= q
  }

  /** Some proper ancestor of p, or p itself, is a regular file. */
  predicate FileOnWay(fs: FS, p: Path) {
    exists i | 1 <= i <= |p| :: IsFile(fs, p[..i])
  }

  /**
   * `BIDSPath.mkdir()` and mne_bids' `_mkdir_p`, whose code is not part of
   * this model, taken as `os.makedirs(p, exist_ok=True)`: every missing
   * directory on the way to p is created, top down. A regular file on the
   * way stops it: mkdir under a file raises NotADirectoryError, and p
   * itself being a file raises FileExistsError. Directories created before
   * the failure stay.
   */
  function MakeDirs(fs: FS, p: Path): (r: Done)
    ensures forall q | q in fs :: q in r.fs && r.fs[q] == fs[q]
    ensures forall q | q in r.fs && q !in fs :: r.fs[q] == Dir && q != [] && Below(q, p)
    ensures r.failure.None? ==> IsDir(r.fs, p)
    ensures forall q | !Below(q, p) :: Agree(fs, r.fs, q)
    decreases |p|
  {
    if p == [] then Done(fs, None)
    else
      var before := if Exists(fs, Parent(p)) then Done(fs, None) else MakeDirs(fs, Parent(p));
      if before.failure.Some? then before
      else if p in before.fs then
        if before.fs[p].Dir? then before else Done(before.fs, Some(FileExists(p)))
      else if !IsDir(before.fs, Parent(p)) then Done(before.fs, Some(NotADirectory(p)))
      else Done(before.fs[p := Dir], None)
  }

  /**
   * In a tree, MakeDirs succeeds exactly when no regular file lies on the
   * way to p, and what it leaves is again a tree.
   */
  lemma {:induction false} MakeDirsInTree(fs: FS, p: Path)
    requires Tree(fs)
    ensures Tree(MakeDirs(fs, p).fs)
    ensures MakeDirs(fs, p).failure.None? <==> !FileOnWay(fs, p)
    decreases |p|
  {
    if p != [] {
      FileOnWayStep(fs, p);
      if Exists(fs, Parent(p)) {
        if IsDir(fs, Parent(p)) {
          DirHasNoFileOnWay(fs, Parent(p));
        }
      } else {
        MakeDirsInTree(fs, Parent(p));
        assert p !in fs;
      }
    }
  }

  /** A file lies on the way to p when it lies on the way to p's parent or is p itself. */
  lemma FileOnWayStep(fs: FS, p: Path)
    requires p != []
    ensures FileOnWay(fs, p) <==> FileOnWay(fs, Parent(p)) || IsFile(fs, p)
  {
    assert p[..|p|] == p;
    if FileOnWay(fs, p) && !IsFile(fs, p) {
      var i :| 1 <= i <= |p| && IsFile(fs, p[..i]);
      assert Parent(p)[..i] == p[..i];
    }
    if FileOnWay(fs, Parent(p)) {
      var i :| 1 <= i <= |Parent(p)| && IsFile(fs, Parent(p)[..i]);
      assert Parent(p)[..i] == p[..i];
    }
  }

  /** In a tree, every ancestor of a directory is a directory. */
  lemma {:induction false} DirHasNoFileOnWay(fs: FS, p: Path)
    requires Tree(fs) && IsDir(fs, p)
    ensures !FileOnWay(fs, p)
    decreases |p|
  {
    if p != [] {
      DirHasNoFileOnWay(fs, Parent(p));
      FileOnWayStep(fs, p);
    }
  }

  /** In a tree every non-empty prefix of a present path is present. */
  lemma {:induction false} AncestorPresent(fs: FS, p: Path, q: Path)
    requires Tree(fs) && p != [] && Below(p, q)
    ensures q in fs ==> p in fs
    decreases |q|
  {
    if q in fs && p != q {
      assert Below(p, Parent(q));
      AncestorPresent(fs, p, Parent(q));
    }
  }

  /** In a tree every proper prefix of a present path is a directory. */
  lemma {:induction false} AncestorIsDir(fs: FS, p: Path, q: Path)
    requires Tree(fs) && q in fs && Below(p, q) && p != q
    ensures IsDir(fs, p)
    decreases |q|
  {
    if p != Parent(q) {
      assert Below(p, Parent(q));
      AncestorIsDir(fs, p, Parent(q));
    }
  }

  /**
   * `open(p).read()`: the content of a regular file; a missing path raises
   * FileNotFoundError and a directory IsADirectoryError.
   */
  function ReadFile(fs: FS, p: Path): (r: Result<Content, OsError>)
    ensures r.Ok? <==> IsFile(fs, p)
    ensures r.Ok? ==> fs[p] == File(r.value)
    ensures r.Err? ==> r.error == (if Exists(fs, p) then IsADirectory(p) else FileNotFound(p))
  {
    if p == [] || (p in fs && fs[p].Dir?) then Err(IsADirectory(p))
    else if p !in fs then Err(FileNotFound(p))
    else Ok(fs[p].content)
  }

  /**
   * `open(p, 'w').write(c)`: p becomes a regular file holding c. A directory
   * at p raises IsADirectoryError; a missing parent FileNotFoundError; a
   * parent that is a regular file NotADirectoryError.
   */
  function WriteFile(fs: FS, p: Path, c: Content): (r: Result<FS, OsError>)
    ensures r.Ok? <==> p != [] && !IsDir(fs, p) && IsDir(fs, Parent(p))
    ensures r.Ok? ==> r.value == fs[p := File(c)] && Unchanged(fs, r.value, {p})
    ensures r.Ok? && Tree(fs) ==> Tree(r.value)
  {
    if IsDir(fs, p) then Err(IsADirectory(p))
    else if !Exists(fs, Parent(p)) then Err(FileNotFound(p))
    else if !IsDir(fs, Parent(p)) then Err(NotADirectory(p))
    else Ok(fs[p := File(c)])
  }

  /**
   * `shutil.rmtree(p)` for a directory, `Path.unlink()` for a file: p and
   * everything below it disappear; nothing else changes. In a tree nothing
   * lies below a file, so both calls are the same removal.
   */
  function Remove(fs: FS, p: Path): (r: FS)
    requires p != [] && p in fs
    ensures !Exists(r, p)
    ensures forall q | q in r :: !Below(p, q)
    ensures forall q | !Below(p, q) :: Agree(fs, r, q)
    ensures Tree(fs) ==> Tree(r)
  {
    map q | q in fs && !Below(p, q) :: fs[q]
  }

  /**
   * `shutil.copyfile(src, dst)`: the content of the regular file src is
   * written to dst. The same existing path on both sides raises
   * SameFileError; otherwise reading src, then writing dst, fail as
   * ReadFile and WriteFile do.
   */
  function CopyFile(fs: FS, src: Path, dst: Path): (r: Result<FS, OsError>)
    ensures r.Ok? <==> IsFile(fs, src) && src != dst && dst != [] && !IsDir(fs, dst) && IsDir(fs, Parent(dst))
    ensures r.Ok? ==> r.value == fs[dst := fs[src]]
    ensures r.Ok? && Tree(fs) ==> Tree(r.value)
  {
    if src == dst && Exists(fs, src) then Err(SameFile(src))
    else match ReadFile(fs, src)
      case Err(e) => Err(e)
      case Ok(c) => WriteFile(fs, dst, c)
  }
}
