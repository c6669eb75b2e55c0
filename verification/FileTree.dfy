/** A filesystem as a map from absolute paths (lists of names) to entries, and the calls that change it.
    Every call may be told to fail, and then it changes nothing unless its contract says so. */
module FileTree {
  import opened Options

  type Path = seq<string>

  type Byte = b: int | 0 <= b < 256

  datatype Entry = Directory(mode: nat) | File(content: seq<Byte>, mode: nat) | Symlink(to: string)

  type Tree = map<Path, Entry>

  datatype Errno = ENOENT | EEXIST | ENOTDIR | ENOTEMPTY | EISDIR | EPERM | EIO

  predicate IsDirectory(tree: Tree, path: Path) {
    path in tree && tree[path].Directory?
  }

  function Parent(path: Path): Path
    requires |path| > 0
  {
    path[..|path| - 1]
  }

  /** Everything lies in a directory, up to the top. */
  ghost predicate WellFormed(tree: Tree) {
    forall path :: path in tree && |path| > 0 ==> IsDirectory(tree, Parent(path))
  }

  predicate HasChild(tree: Tree, path: Path) {
    exists inner | inner in tree :: path < inner
  }

  /** Nothing happened at `path`. */
  ghost predicate SameAt(before: Tree, after: Tree, path: Path) {
    && (path in before <==> path in after)
    && (path in before ==> before[path] == after[path])
  }

  lemma {:induction false} AncestorsArePresent(tree: Tree, path: Path, ancestor: Path)
    requires WellFormed(tree) && path in tree && ancestor < path
    ensures IsDirectory(tree, ancestor)
    decreases |path|
  {
    if |ancestor| == |path| - 1 {
      assert ancestor == Parent(path);
    } else {
      AncestorsArePresent(tree, Parent(path), ancestor);
    }
  }

  lemma NothingBelowAbsent(tree: Tree, path: Path)
    requires WellFormed(tree) && !IsDirectory(tree, path)
    ensures forall inner :: path < inner ==> inner !in tree
  {
    forall inner | path < inner ensures inner !in tree {
      if inner in tree { AncestorsArePresent(tree, inner, path); }
    }
  }

  /** The tree without what stands at and below `path`. */
  function Pruned(tree: Tree, path: Path): Tree {
    map other | other in tree && !(path <= other) :: tree[other]
  }

  // ---------------------------------------------------------------- moving a subtree

  ghost predicate Apart(one: Path, other: Path) {
    !(one <= other) && !(other <= one)
  }

  function Moved(from: Path, to: Path, path: Path): Path
    requires from <= path
  {
    to + path[|from|..]
  }

  /** The tree after everything at or below `from` has been moved to `to`. */
  function Move(tree: Tree, from: Path, to: Path): Tree {
    (map path | path in tree && !(from <= path) && !(to <= path) :: tree[path])
    + (map path | path in (set source | source in tree && from <= source :: Moved(from, to, source))
       && Moved(to, from, path) in tree
         :: tree[Moved(to, from, path)])
  }

  /** What `Move` does at each path. */
  lemma MoveAt(tree: Tree, from: Path, to: Path, path: Path)
    requires Apart(from, to)
    ensures !(from <= path) && !(to <= path) ==> SameAt(tree, Move(tree, from, to), path)
    ensures from <= path ==> path !in Move(tree, from, to)
    ensures to <= path ==> (path in Move(tree, from, to) <==> Moved(to, from, path) in tree)
    ensures to <= path && path in Move(tree, from, to) ==> Move(tree, from, to)[path] == tree[Moved(to, from, path)]
  {
    if to <= path {
      var source := Moved(to, from, path);
      assert source[|from|..] == path[|to|..];
      assert Moved(from, to, source) == path;
    }
    if from <= path && to <= path { PrefixesAreOrdered(from, to, path); }
  }

  lemma BelowParent(prefix: Path, path: Path)
    requires |path| > 0
    ensures prefix <= Parent(path) ==> prefix <= path
  {
  }

  lemma PrefixesAreOrdered(one: Path, other: Path, path: Path)
    requires one <= path && other <= path
    ensures one <= other || other <= one
  {
    if |one| <= |other| {
      assert other == path[..|other|];
      assert one == other[..|one|];
    } else {
      assert one == path[..|one|];
      assert other == one[..|other|];
    }
  }

  /** A moved entry keeps its parent directory. */
  lemma MovedHasParent(tree: Tree, from: Path, to: Path, path: Path)
    requires WellFormed(tree) && Apart(from, to) && to < path && path in Move(tree, from, to)
    ensures IsDirectory(Move(tree, from, to), Parent(path))
  {
    ParentMoves(to, from, path);
    MoveAt(tree, from, to, path);
    MoveAt(tree, from, to, Parent(path));
  }

  lemma ParentMoves(from: Path, to: Path, path: Path)
    requires from < path
    ensures from <= Parent(path) && |Moved(from, to, path)| > 0
    ensures Parent(Moved(from, to, path)) == Moved(from, to, Parent(path))
  {
  }

  lemma UnmovedHasParent(tree: Tree, from: Path, to: Path, path: Path)
    requires WellFormed(tree) && Apart(from, to) && |path| > 0 && !(to <= path) && path in Move(tree, from, to)
    ensures IsDirectory(Move(tree, from, to), Parent(path))
  {
    MoveAt(tree, from, to, path);
    BelowParent(to, path);
    BelowParent(from, path);
    MoveAt(tree, from, to, Parent(path));
  }

  lemma MoveWellFormed(tree: Tree, from: Path, to: Path)
    requires WellFormed(tree) && Apart(from, to) && |to| > 0
    requires IsDirectory(tree, Parent(to)) && !(from <= Parent(to))
    ensures WellFormed(Move(tree, from, to))
  {
    var after := Move(tree, from, to);
    forall path | path in after && |path| > 0 ensures IsDirectory(after, Parent(path)) {
      if path == to {
        MoveAt(tree, from, to, Parent(to));
      } else if to <= path {
        MovedHasParent(tree, from, to, path);
      } else {
        UnmovedHasParent(tree, from, to, path);
      }
    }
  }

  // ---------------------------------------------------------------- system calls

  class Disk {
    var tree: Tree

    constructor (tree: Tree)
      ensures this.tree == tree
    {
      this.tree := tree;
    }

    method Lstat(path: Path, fails: bool) returns (found: Result<Entry, Errno>)
      ensures found == if fails then Err(EIO) else if path in tree then Ok(tree[path]) else Err(ENOENT)
    {
      if fails { return Err(EIO); }
      if path !in tree { return Err(ENOENT); }
      return Ok(tree[path]);
    }

    method Mkdir(path: Path, mode: nat, fails: bool) returns (error: Option<Errno>)
      requires |path| > 0
      modifies this
      ensures error.None? <==> !fails && path !in old(tree) && IsDirectory(old(tree), Parent(path))
      ensures tree == if error.None? then old(tree)[path := Directory(mode)] else old(tree)
    {
      if fails { return Some(EIO); }
      if path in tree { return Some(EEXIST); }
      if Parent(path) !in tree { return Some(ENOENT); }
      if !IsDirectory(tree, Parent(path)) { return Some(ENOTDIR); }
      tree := tree[path := Directory(mode)];
      return None;
    }

    /** `mkdir` with `recursive`, where the parent is already there: an existing directory is no error. */
    method MkdirRecursive(path: Path, mode: nat, fails: bool) returns (error: Option<Errno>)
      requires |path| > 0 && IsDirectory(tree, Parent(path))
      modifies this
      ensures error.None? <==> !fails && (path !in old(tree) || IsDirectory(old(tree), path))
      ensures tree == if error.None? && path !in old(tree) then old(tree)[path := Directory(mode)] else old(tree)
    {
      if !fails && IsDirectory(tree, path) { return None; }
      error := Mkdir(path, mode, fails);
    }

    /** `chmod` on a directory or a regular file. */
    method Chmod(path: Path, mode: nat, fails: bool) returns (error: Option<Errno>)
      requires path in tree && !tree[path].Symlink?
      modifies this
      ensures error.None? <==> !fails
      ensures tree == if fails then old(tree) else old(tree)[path := old(tree)[path].(mode := mode)]
    {
      if fails { return Some(EIO); }
      tree := tree[path := tree[path].(mode := mode)];
      return None;
    }

    method Rmdir(path: Path, fails: bool) returns (error: Option<Errno>)
      modifies this
      ensures error.None? <==> !fails && IsDirectory(old(tree), path) && !HasChild(old(tree), path)
      ensures tree == if error.None? then old(tree) - {path} else old(tree)
      ensures error == Some(ENOENT) <==> !fails && path !in old(tree)
    {
      if fails { return Some(EIO); }
      if path !in tree { return Some(ENOENT); }
      if !IsDirectory(tree, path) { return Some(ENOTDIR); }
      if HasChild(tree, path) { return Some(ENOTEMPTY); }
      tree := tree - {path};
      return None;
    }

    method Unlink(path: Path, fails: bool) returns (error: Option<Errno>)
      modifies this
      ensures error.None? <==> !fails && path in old(tree) && !IsDirectory(old(tree), path)
      ensures tree == if error.None? then old(tree) - {path} else old(tree)
      ensures error == Some(ENOENT) <==> !fails && path !in old(tree)
    {
      if fails { return Some(EIO); }
      if path !in tree { return Some(ENOENT); }
      if IsDirectory(tree, path) { return Some(EPERM); }
      tree := tree - {path};
      return None;
    }

    /** Exclusive creation of a regular file, as `open` with flag `wx`. */
    method CreateExclusive(path: Path, mode: nat, fails: bool) returns (error: Option<Errno>)
      requires |path| > 0
      modifies this
      ensures error.None? <==> !fails && path !in old(tree) && IsDirectory(old(tree), Parent(path))
      ensures tree == if error.None? then old(tree)[path := File([], mode)] else old(tree)
    {
      if fails { return Some(EIO); }
      if path in tree { return Some(EEXIST); }
      if Parent(path) !in tree { return Some(ENOENT); }
      if !IsDirectory(tree, Parent(path)) { return Some(ENOTDIR); }
      tree := tree[path := File([], mode)];
      return None;
    }

    /** Fill an open regular file; a failing write leaves some other bytes behind. */
    method Write(path: Path, content: seq<Byte>, partial: seq<Byte>, fails: bool) returns (error: Option<Errno>)
      requires path in tree && tree[path].File?
      modifies this
      ensures error.None? <==> !fails
      ensures tree == old(tree)[path := File(if fails then partial else content, old(tree)[path].mode)]
    {
      tree := tree[path := File(if fails then partial else content, tree[path].mode)];
      return if fails then Some(EIO) else None;
    }

    method MakeSymlink(to: string, path: Path, fails: bool) returns (error: Option<Errno>)
      requires |path| > 0
      modifies this
      ensures error.None? <==> !fails && path !in old(tree) && IsDirectory(old(tree), Parent(path))
      ensures tree == if error.None? then old(tree)[path := Symlink(to)] else old(tree)
    {
      if fails { return Some(EIO); }
      if path in tree { return Some(EEXIST); }
      if Parent(path) !in tree { return Some(ENOENT); }
      if !IsDirectory(tree, Parent(path)) { return Some(ENOTDIR); }
      tree := tree[path := Symlink(to)];
      return None;
    }

    /** `rename` of something that is not a directory; it replaces a non-directory in one step. */
    method RenameLeaf(from: Path, to: Path, fails: bool) returns (error: Option<Errno>)
      requires |to| > 0 && from != to && !IsDirectory(tree, from)
      modifies this
      ensures error.None?
        <==> !fails && from in old(tree) && IsDirectory(old(tree), Parent(to)) && !IsDirectory(old(tree), to)
      ensures tree == if error.None? then old(tree)[to := old(tree)[from]] - {from} else old(tree)
    {
      if fails { return Some(EIO); }
      if from !in tree || Parent(to) !in tree { return Some(ENOENT); }
      if !IsDirectory(tree, Parent(to)) { return Some(ENOTDIR); }
      if IsDirectory(tree, to) { return Some(EISDIR); }
      tree := tree[to := tree[from]] - {from};
      return None;
    }

    /** `rename` of a directory to a free name elsewhere: everything in it moves along. */
    method RenameDirectory(from: Path, to: Path, fails: bool) returns (error: Option<Errno>)
      requires |to| > 0 && Apart(from, to)
      modifies this
      ensures error.None?
        <==> !fails && IsDirectory(old(tree), from) && to !in old(tree) && IsDirectory(old(tree), Parent(to))
      ensures tree == if error.None? then Move(old(tree), from, to) else old(tree)
    {
      if fails { return Some(EIO); }
      if !IsDirectory(tree, from) || Parent(to) !in tree { return Some(ENOENT); }
      if !IsDirectory(tree, Parent(to)) { return Some(ENOTDIR); }
      if to in tree { return Some(EEXIST); }
      tree := Move(tree, from, to);
      return None;
    }

    /** `rm` with `recursive` and `force`. */
    method RemoveRecursively(path: Path, fails: bool)
      modifies this
      ensures tree == if fails then old(tree) else Pruned(old(tree), path)
    {
      if !fails { tree := Pruned(tree, path); }
    }
  }
}
