/** The changes that the portable strategy of `src/machine/linux.layer.ts` makes to a managed root while it stands
    inside the guard. Which calls fail is a parameter, so every statement holds for every combination of failures. */
module HeldMutation {
  import opened Options
  import opened FileTree

  const DEFAULT_DIRECTORY_MODE: nat := 448 // 0o700
  const DEFAULT_FILE_MODE: nat := 384 // 0o600

  /** The calls that can fail, one name for each place in the source. */
  datatype Step =
    | OpenRoot | StatRoot | BeforeMutation | LstatRoot | MakeGuard | MoveOut | LstatHeld
    | LstatAncestor(depth: nat) | MakeAncestor(depth: nat)
    | KindLstat | LeafLstat | LeafRmdir | LeafUnlink
    | MakeTarget | ChmodTarget
    | CreateTemporary | WriteTemporary | SyncTemporary | ChmodTemporary | CloseTemporary
    | RenameTemporary | OpenParent | SyncParent | CloseParent | UnlinkTemporary
    | MoveBack | RemoveGuard

  datatype Mutation =
    | Remove
    | MakeDirectory(permissions: Option<nat>, mode: nat)
    | WriteFile(content: seq<Byte>, permissions: Option<nat>, fileMode: Option<nat>)
    | PutSymlink(to: string)

  function FileMode(permissions: Option<nat>, fileMode: Option<nat>): nat {
    if permissions.Some? then permissions.value else if fileMode.Some? then fileMode.value else DEFAULT_FILE_MODE
  }

  function DirectoryMode(permissions: Option<nat>, mode: nat): nat {
    if permissions.None? then mode else permissions.value
  }

  /** What the caller asked to find at the target: given permissions go before a given mode, and a file for which
      neither is given is the owner's alone (0o600). */
  ghost predicate AsAsked(tree: Tree, target: Path, mutation: Mutation) {
    match mutation
    case Remove => target !in tree
    case MakeDirectory(permissions, mode) =>
      && target in tree && tree[target].Directory?
      && (permissions.Some? ==> tree[target].mode == permissions.value)
      && (permissions.None? ==> tree[target].mode == mode)
    case WriteFile(content, permissions, fileMode) =>
      && target in tree && tree[target].File? && tree[target].content == content
      && (permissions.Some? ==> tree[target].mode == permissions.value)
      && (permissions.None? && fileMode.Some? ==> tree[target].mode == fileMode.value)
      && (permissions.None? && fileMode.None? ==> tree[target].mode == 6 * 64)
    case PutSymlink(to) => target in tree && tree[target] == Symlink(to)
  }

  // ---------------------------------------------------------------- what a mutation may change

  /** `path` is a directory on the way to the target that was missing and has been created, for the owner alone
      (0o700). */
  ghost predicate NewAncestor(before: Tree, after: Tree, base: Path, parts: seq<string>, path: Path) {
    base < path && path <= base + parts && path !in before && path in after
      && after[path] == Directory(7 * 64)
  }

  /** The target is untouched, as requested, or gone to make room for an entry of the other kind. */
  ghost predicate TargetAt(before: Tree, after: Tree, target: Path, mutation: Mutation) {
    || SameAt(before, after, target)
    || (target in after && AsAsked(after, target, mutation))
    || (target !in after && target in before
        && (mutation.Remove? || before[target].Directory? != mutation.MakeDirectory?))
  }

  ghost predicate EditedAt(before: Tree, after: Tree, base: Path, rel: Path, mutation: Mutation, path: Path)
    requires |rel| > 0
  {
    || SameAt(before, after, path)
    || (!mutation.Remove? && NewAncestor(before, after, base, Parent(rel), path))
    || (path == base + rel && TargetAt(before, after, path, mutation))
  }

  /** Below `base` nothing but the target, newly created directories above it and the temporary name changed. */
  ghost predicate Edited(before: Tree, after: Tree, base: Path, rel: Path, temporary: string, mutation: Mutation)
    requires |rel| > 0
  {
    forall path :: base <= path && path != base + Sibling(rel, temporary)
                   ==> EditedAt(before, after, base, rel, mutation, path)
  }

  function Sibling(rel: Path, name: string): Path
    requires |rel| > 0
  {
    Parent(rel) + [name]
  }

  // ---------------------------------------------------------------- when a mutation can succeed

  /** No entry on the way to the target is something other than a directory. */
  ghost predicate WayIsOpen(tree: Tree, base: Path, parts: seq<string>) {
    forall path :: path in tree && base < path && path <= base + parts ==> tree[path].Directory?
  }

  /** The target can be replaced: no full directory stands where something else is wanted. */
  ghost predicate Placeable(tree: Tree, target: Path, temporary: Path, mutation: Mutation) {
    mutation.MakeDirectory? || (!HasChild(tree, target) && (mutation.Remove? || temporary !in tree))
  }

  ghost predicate Feasible(tree: Tree, base: Path, rel: Path, temporary: string, mutation: Mutation)
    requires |rel| > 0
  {
    WayIsOpen(tree, base, Parent(rel)) && Placeable(tree, base + rel, base + Sibling(rel, temporary), mutation)
  }

  // ---------------------------------------------------------------- small facts about trees

  lemma WithoutLeaf(tree: Tree, path: Path)
    requires WellFormed(tree) && !HasChild(tree, path)
    ensures WellFormed(tree - {path})
  {
    forall other | other in tree - {path} && |other| > 0 ensures IsDirectory(tree - {path}, Parent(other)) {
      assert IsDirectory(tree, Parent(other)) && Parent(other) < other;
    }
  }

  lemma WithEntry(tree: Tree, path: Path, entry: Entry)
    requires WellFormed(tree) && |path| > 0 && IsDirectory(tree, Parent(path))
    requires IsDirectory(tree, path) ==> entry.Directory?
    ensures WellFormed(tree[path := entry])
  {
  }

  lemma LeafHasNoChild(tree: Tree, path: Path)
    requires WellFormed(tree) && !IsDirectory(tree, path)
    ensures !HasChild(tree, path)
  {
    NothingBelowAbsent(tree, path);
  }

  // ---------------------------------------------------------------- the steps inside the guard

  method RemoveManagedLeaf(disk: Disk, path: Path, faults: set<Step>) returns (error: Option<Errno>)
    requires WellFormed(disk.tree)
    modifies disk
    ensures WellFormed(disk.tree)
    ensures disk.tree == if error.None? then old(disk.tree) - {path} else old(disk.tree)
    ensures error != Some(ENOENT)
    ensures error.None? ==> !HasChild(old(disk.tree), path)
    ensures faults == {} && !HasChild(old(disk.tree), path) ==> error.None?
  {
    var found := disk.Lstat(path, LeafLstat in faults);
    if found.Err? {
      error := if found.error == ENOENT then None else Some(found.error);
    } else if found.value.Directory? {
      error := disk.Rmdir(path, LeafRmdir in faults);
    } else {
      error := disk.Unlink(path, LeafUnlink in faults);
    }
    if error == Some(ENOENT) { error := None; }
    if !IsDirectory(old(disk.tree), path) { LeafHasNoChild(old(disk.tree), path); }
    if error.None? {
      WithoutLeaf(old(disk.tree), path);
      assert disk.tree == old(disk.tree) - {path};
    }
  }

  method PrepareManagedLeafKind(disk: Disk, path: Path, directory: bool, faults: set<Step>)
    returns (error: Option<Errno>)
    requires WellFormed(disk.tree)
    modifies disk
    ensures WellFormed(disk.tree)
    ensures error.None? ==> path !in disk.tree || disk.tree[path].Directory? == directory
    ensures disk.tree == old(disk.tree)
            || (path in old(disk.tree) && old(disk.tree)[path].Directory? != directory
                && disk.tree == old(disk.tree) - {path})
    ensures faults == {} && (directory || !HasChild(old(disk.tree), path)) ==> error.None?
    ensures !directory && HasChild(old(disk.tree), path) ==> error.Some?
  {
    if !IsDirectory(disk.tree, path) { LeafHasNoChild(disk.tree, path); }
    var found := disk.Lstat(path, KindLstat in faults);
    if found.Err? { return if found.error == ENOENT then None else Some(found.error); }
    error := None;
    if found.value.Directory? != directory {
      error := RemoveManagedLeaf(disk, path, faults);
    }
  }

  datatype Walk = Reached | NothingThere | Blocked

  /** One round of the ancestor loop. */
  method EnterAncestor(disk: Disk, candidate: Path, depth: nat, removing: bool, faults: set<Step>) returns (walk: Walk)
    requires WellFormed(disk.tree) && |candidate| > 0 && IsDirectory(disk.tree, Parent(candidate))
    modifies disk
    ensures WellFormed(disk.tree)
    ensures disk.tree == old(disk.tree)
            || (!removing && candidate !in old(disk.tree)
                && disk.tree == old(disk.tree)[candidate := Directory(DEFAULT_DIRECTORY_MODE)])
    ensures walk.Reached? ==> IsDirectory(disk.tree, candidate)
    ensures walk.NothingThere? ==> removing && candidate !in disk.tree
    ensures walk.Blocked? && faults == {} ==> candidate in old(disk.tree) && !IsDirectory(old(disk.tree), candidate)
    ensures IsDirectory(old(disk.tree), candidate)
      ==> disk.tree == old(disk.tree) && (walk.Reached? <==> LstatAncestor(depth) !in faults)
  {
    var ancestor := disk.Lstat(candidate, LstatAncestor(depth) in faults);
    if ancestor.Ok? { return if ancestor.value.Directory? then Reached else Blocked; }
    if ancestor.error != ENOENT { return Blocked; }
    if removing { return NothingThere; }
    WithEntry(disk.tree, candidate, Directory(DEFAULT_DIRECTORY_MODE));
    var error := disk.Mkdir(candidate, DEFAULT_DIRECTORY_MODE, MakeAncestor(depth) in faults);
    return if error.Some? then Blocked else Reached;
  }

  /** The ancestor loop: every directory on the way is checked, and created unless something is being removed. */
  method ReachParent(disk: Disk, held: Path, parts: seq<string>, removing: bool, faults: set<Step>) returns (walk: Walk)
    requires WellFormed(disk.tree) && IsDirectory(disk.tree, held)
    modifies disk
    ensures WellFormed(disk.tree)
    ensures OnlyAncestorsMade(old(disk.tree), disk.tree, held, parts, removing)
    ensures walk.Reached? ==> IsDirectory(disk.tree, held + parts)
    ensures walk.NothingThere? ==> removing && forall path :: held + parts <= path ==> path !in disk.tree
    ensures !walk.Blocked? ==> WayIsOpen(old(disk.tree), held, parts)
    ensures walk.Blocked? && faults == {} ==> !WayIsOpen(old(disk.tree), held, parts)
    ensures IsDirectory(old(disk.tree), held + parts)
      ==> disk.tree == old(disk.tree) && (walk.Reached? <==> AncestorsAreSeen(|parts|, faults))
  {
    var parent := held;
    assert held + parts[..0] == held;
    for k := 0 to |parts|
      invariant parent == held + parts[..k]
      invariant WellFormed(disk.tree) && IsDirectory(disk.tree, parent)
      invariant OnlyAncestorsMade(old(disk.tree), disk.tree, held, parts[..k], removing)
      invariant WayIsOpen(old(disk.tree), held, parts[..k])
      invariant IsDirectory(old(disk.tree), held + parts) ==> disk.tree == old(disk.tree) && AncestorsAreSeen(k, faults)
    {
      ghost var before := disk.tree;
      var candidate := parent + [parts[k]];
      NextCandidate(held, parts, k);
      AncestorOfDirectory(before, candidate, held + parts);
      walk := EnterAncestor(disk, candidate, k, removing, faults);
      assert SameAt(old(disk.tree), before, candidate) by {
        assert !NewAncestor(old(disk.tree), before, held, parts[..k], candidate);
      }
      OneMoreAncestor(old(disk.tree), before, disk.tree, held, parts, k, removing);
      if !walk.Reached? {
        AncestorsOfMore(old(disk.tree), disk.tree, held, parts, k + 1, removing);
        if walk.NothingThere? { NothingFurther(old(disk.tree), disk.tree, held, parts, k); }
        return;
      }
      OneMoreOpen(old(disk.tree), held, parts, k);
      parent := candidate;
    }
    assert parts[..|parts|] == parts;
    return Reached;
  }

  ghost predicate AncestorsAreSeen(depth: nat, faults: set<Step>) {
    forall k: nat :: k < depth ==> LstatAncestor(k) !in faults
  }

  lemma AncestorOfDirectory(tree: Tree, ancestor: Path, path: Path)
    requires WellFormed(tree) && ancestor <= path
    ensures IsDirectory(tree, path) ==> IsDirectory(tree, ancestor)
  {
    assert ancestor == path || ancestor < path;
    if IsDirectory(tree, path) && ancestor < path { AncestorsArePresent(tree, path, ancestor); }
  }

  ghost predicate OnlyAncestorsMade(before: Tree, after: Tree, held: Path, parts: seq<string>, removing: bool) {
    forall path :: SameAt(before, after, path) || (!removing && NewAncestor(before, after, held, parts, path))
  }

  lemma NextCandidate(held: Path, parts: seq<string>, k: nat)
    requires k < |parts|
    ensures var candidate := held + parts[..k] + [parts[k]];
            && candidate == held + parts[..k + 1] && Parent(candidate) == held + parts[..k]
            && held < candidate && candidate <= held + parts
  {
    assert parts[..k + 1] == parts[..k] + [parts[k]];
    assert parts == parts[..k + 1] + parts[k + 1..];
    assert held + parts == held + parts[..k + 1] + parts[k + 1..];
  }

  lemma OneMoreAncestor(first: Tree, before: Tree, after: Tree, held: Path, parts: seq<string>, k: nat, removing: bool)
    requires k < |parts| && OnlyAncestorsMade(first, before, held, parts[..k], removing)
    requires var candidate := held + parts[..k + 1];
             after == before
               || (!removing && candidate !in before && after == before[candidate := Directory(DEFAULT_DIRECTORY_MODE)])
    ensures OnlyAncestorsMade(first, after, held, parts[..k + 1], removing)
  {
    var candidate := held + parts[..k + 1];
    NextCandidate(held, parts, k);
    assert held + parts[..k] <= candidate;
    forall path
      ensures SameAt(first, after, path) || (!removing && NewAncestor(first, after, held, parts[..k + 1], path)) {
      assert SameAt(first, before, path) || (!removing && NewAncestor(first, before, held, parts[..k], path));
    }
  }

  lemma AncestorsOfMore(before: Tree, after: Tree, held: Path, parts: seq<string>, k: nat, removing: bool)
    requires k <= |parts| && OnlyAncestorsMade(before, after, held, parts[..k], removing)
    ensures OnlyAncestorsMade(before, after, held, parts, removing)
  {
    assert held + parts == held + parts[..k] + parts[k..];
    forall path ensures SameAt(before, after, path) || (!removing && NewAncestor(before, after, held, parts, path)) {
      assert SameAt(before, after, path) || (!removing && NewAncestor(before, after, held, parts[..k], path));
    }
  }

  lemma OneMoreOpen(tree: Tree, held: Path, parts: seq<string>, k: nat)
    requires k < |parts| && WayIsOpen(tree, held, parts[..k])
    requires held + parts[..k + 1] in tree ==> IsDirectory(tree, held + parts[..k + 1])
    ensures WayIsOpen(tree, held, parts[..k + 1])
  {
    NextCandidate(held, parts, k);
    forall path | path in tree && held < path && path <= held + parts[..k + 1] ensures tree[path].Directory? {
      OneStepLonger(path, held + parts[..k], parts[k]);
    }
  }

  lemma OneStepLonger(path: Path, whole: Path, name: string)
    requires path <= whole + [name]
    ensures path <= whole || path == whole + [name]
  {
    if |path| <= |whole| { assert path == (whole + [name])[..|path|] == whole[..|path|]; }
  }

  /** A missing directory on the way: nothing can be at or below it. */
  lemma NothingAtOrBelow(tree: Tree, path: Path)
    requires WellFormed(tree) && path !in tree
    ensures forall inner :: path <= inner ==> inner !in tree
  {
    NothingBelowAbsent(tree, path);
    forall inner | path <= inner ensures inner !in tree { assert path == inner || path < inner; }
  }

  lemma NothingFurther(before: Tree, after: Tree, held: Path, parts: seq<string>, k: nat)
    requires k < |parts| && WellFormed(before) && WellFormed(after) && WayIsOpen(before, held, parts[..k])
    requires held + parts[..k + 1] !in before && held + parts[..k + 1] !in after
    ensures WayIsOpen(before, held, parts)
    ensures forall path :: held + parts <= path ==> path !in after
  {
    var candidate := held + parts[..k + 1];
    NothingAtOrBelow(before, candidate);
    NothingAtOrBelow(after, candidate);
    NextCandidate(held, parts, k);
    forall path | held + parts <= path ensures path !in after { assert candidate <= path; }
    OneMoreOpen(before, held, parts, k);
    forall path | path in before && held < path && path <= held + parts ensures before[path].Directory? {
      PrefixesAreOrdered(path, candidate, held + parts);
    }
  }

  method MakeDirectoryAt(disk: Disk, target: Path, permissions: Option<nat>, directoryMode: nat, faults: set<Step>)
    returns (done: bool)
    requires WellFormed(disk.tree) && |target| > 0 && IsDirectory(disk.tree, Parent(target))
    modifies disk
    ensures WellFormed(disk.tree)
    ensures forall path :: path != target ==> SameAt(old(disk.tree), disk.tree, path)
    ensures TargetAt(old(disk.tree), disk.tree, target, MakeDirectory(permissions, directoryMode))
    ensures done ==> AsAsked(disk.tree, target, MakeDirectory(permissions, directoryMode))
    ensures faults == {} ==> done
  {
    var mode := DirectoryMode(permissions, directoryMode);
    var error := PrepareManagedLeafKind(disk, target, true, faults);
    if error.Some? { return false; }
    ghost var prepared := disk.tree;
    error := disk.MkdirRecursive(target, mode, MakeTarget in faults);
    if error.Some? { return false; }
    if target !in prepared { WithEntry(prepared, target, Directory(mode)); }
    ghost var made := disk.tree;
    error := disk.Chmod(target, mode, ChmodTarget in faults);
    WithEntry(made, target, Directory(mode));
    return error.None?;
  }

  /** What filling a temporary file or making a temporary link leaves behind, finished or not. */
  ghost predicate TemporaryStep(before: Tree, after: Tree, temporary: Path, mutation: Mutation, done: bool) {
    && WellFormed(after)
    && (forall path :: path != temporary ==> SameAt(before, after, path))
    && (temporary in before ==> after == before && !done)
    && (temporary !in before && temporary in after ==> !after[temporary].Directory?)
    && (done ==> AsAsked(after, temporary, mutation))
  }

  /** Write the temporary sibling: exclusive creation, content, flush, permissions, close. */
  method FillTemporary(disk: Disk, temporary: Path, mutation: Mutation, partial: seq<Byte>, faults: set<Step>)
    returns (done: bool)
    requires WellFormed(disk.tree) && |temporary| > 0 && IsDirectory(disk.tree, Parent(temporary))
    requires UsesTemporary(mutation)
    modifies disk
    ensures TemporaryStep(old(disk.tree), disk.tree, temporary, mutation, done)
    ensures faults == {} && temporary !in old(disk.tree) ==> done
  {
    if mutation.PutSymlink? {
      WithEntryUnless(disk.tree, temporary, Symlink(mutation.to));
      var error := disk.MakeSymlink(mutation.to, temporary, CreateTemporary in faults);
      return error.None?;
    }
    var mode := FileMode(mutation.permissions, mutation.fileMode);
    ghost var before := disk.tree;
    var error := disk.CreateExclusive(temporary, mode, CreateTemporary in faults);
    if error.Some? { return false; }
    done := FillFile(disk, temporary, mutation.content, mode, partial, faults);
    WithEntryUnless(before, temporary, disk.tree[temporary]);
    assert disk.tree == before[temporary := disk.tree[temporary]];
  }

  lemma WithEntryUnless(tree: Tree, path: Path, entry: Entry)
    requires WellFormed(tree) && |path| > 0 && IsDirectory(tree, Parent(path))
    ensures path !in tree ==> WellFormed(tree[path := entry])
  {
    if path !in tree { WithEntry(tree, path, entry); }
  }

  method FillFile(disk: Disk, path: Path, content: seq<Byte>, mode: nat, partial: seq<Byte>, faults: set<Step>)
    returns (done: bool)
    requires path in disk.tree && disk.tree[path].File?
    modifies disk
    ensures path in disk.tree && disk.tree[path].File? && disk.tree == old(disk.tree)[path := disk.tree[path]]
    ensures done ==> disk.tree[path] == File(content, mode)
    ensures faults == {} ==> done
  {
    var error := disk.Write(path, content, partial, WriteTemporary in faults);
    if error.Some? || SyncTemporary in faults { return false; }
    error := disk.Chmod(path, mode, ChmodTemporary in faults);
    return error.None? && CloseTemporary !in faults;
  }

  lemma SameChildren(before: Tree, after: Tree, path: Path)
    requires forall inner :: path < inner ==> SameAt(before, after, inner)
    ensures HasChild(before, path) == HasChild(after, path)
  {
    if HasChild(before, path) {
      var inner :| inner in before && path < inner;
      assert SameAt(before, after, inner);
    }
    if HasChild(after, path) {
      var inner :| inner in after && path < inner;
      assert SameAt(before, after, inner);
    }
  }

  method ReplaceTarget(disk: Disk, target: Path, temporary: Path, mutation: Mutation, partial: seq<Byte>,
                       faults: set<Step>)
    returns (done: bool)
    requires WellFormed(disk.tree) && |target| > 0 && |temporary| > 0 && target != temporary
    requires Parent(temporary) == Parent(target) && IsDirectory(disk.tree, Parent(target))
    requires UsesTemporary(mutation)
    modifies disk
    ensures WellFormed(disk.tree)
    ensures forall path :: path != target && path != temporary ==> SameAt(old(disk.tree), disk.tree, path)
    ensures TargetAt(old(disk.tree), disk.tree, target, mutation)
    ensures done ==> AsAsked(disk.tree, target, mutation)
    ensures done ==> temporary !in old(disk.tree) && temporary !in disk.tree
    ensures temporary !in old(disk.tree) && UnlinkTemporary !in faults ==> temporary !in disk.tree
    ensures temporary in old(disk.tree)
      ==> disk.tree == if IsUnlinked(old(disk.tree), temporary, faults) then old(disk.tree) - {temporary}
                       else old(disk.tree)
    ensures done ==> Placeable(old(disk.tree), target, temporary, mutation)
    ensures faults == {} && Placeable(old(disk.tree), target, temporary, mutation) ==> done
  {
    done := FillTemporary(disk, temporary, mutation, partial, faults);
    ghost var filled := disk.tree;
    assert SameAt(old(disk.tree), filled, target) && SameAt(old(disk.tree), filled, Parent(target));
    SameChildren(old(disk.tree), filled, target);
    if done {
      done := ExchangeTarget(disk, target, temporary, mutation, faults);
    }
    ghost var before := disk.tree;
    if !IsDirectory(before, temporary) { LeafHasNoChild(before, temporary); WithoutLeaf(before, temporary); }
    var _ := disk.Unlink(temporary, UnlinkTemporary in faults);
    forall path | path != target && path != temporary ensures SameAt(old(disk.tree), disk.tree, path) {
      assert SameAt(old(disk.tree), filled, path) && SameAt(filled, before, path);
    }
  }

  /** Put the finished temporary in the target's place and flush the directory. */
  method ExchangeTarget(disk: Disk, target: Path, temporary: Path, mutation: Mutation, faults: set<Step>)
    returns (done: bool)
    requires WellFormed(disk.tree) && |target| > 0 && |temporary| > 0 && target != temporary
    requires Parent(temporary) == Parent(target) && IsDirectory(disk.tree, Parent(target))
    requires UsesTemporary(mutation)
    requires AsAsked(disk.tree, temporary, mutation)
    modifies disk
    ensures WellFormed(disk.tree)
    ensures forall path :: path != target && path != temporary ==> SameAt(old(disk.tree), disk.tree, path)
    ensures TargetAt(old(disk.tree), disk.tree, target, mutation)
    ensures done ==> AsAsked(disk.tree, target, mutation) && temporary !in disk.tree
    ensures temporary in disk.tree ==> !disk.tree[temporary].Directory?
    ensures done ==> !HasChild(old(disk.tree), target)
    ensures faults == {} && !HasChild(old(disk.tree), target) ==> done
  {
    var error := PrepareManagedLeafKind(disk, target, false, faults);
    if error.Some? { return false; }
    ghost var prepared := disk.tree;
    assert SameAt(old(disk.tree), prepared, temporary);
    assert SameAt(old(disk.tree), prepared, Parent(target));
    error := disk.RenameLeaf(temporary, target, RenameTemporary in faults);
    if error.Some? { return false; }
    WithEntry(prepared, target, prepared[temporary]);
    LeafHasNoChild(prepared[target := prepared[temporary]], temporary);
    WithoutLeaf(prepared[target := prepared[temporary]], temporary);
    done := OpenParent !in faults && SyncParent !in faults && CloseParent !in faults;
  }

  // ---------------------------------------------------------------- the mutation of the isolated root

  ghost predicate EditedOnly(before: Tree, after: Tree, base: Path, rel: Path, temporary: string, mutation: Mutation)
    requires |rel| > 0
  {
    forall path :: path != base + Sibling(rel, temporary) ==> EditedAt(before, after, base, rel, mutation, path)
  }

  /** The temporary name is as it was: always on success, and otherwise when it was free and could be unlinked. */
  ghost predicate TemporaryGone(before: Tree, after: Tree, temporary: Path, faults: set<Step>, done: bool) {
    && (done ==> SameAt(before, after, temporary))
    && (temporary !in before && UnlinkTemporary !in faults ==> temporary !in after)
  }

  predicate UsesTemporary(mutation: Mutation) {
    mutation.WriteFile? || mutation.PutSymlink?
  }

  predicate IsUnlinked(tree: Tree, temporary: Path, faults: set<Step>) {
    !IsDirectory(tree, temporary) && UnlinkTemporary !in faults
  }

  /** What becomes of an entry that already stood at the temporary name, when `unlinked` says whether the clean-up
      removes it: below `base` this is all that changes, unless the mutation needs no temporary. */
  ghost predicate TakenTemporary(before: Tree, after: Tree, base: Path, temporary: Path, mutation: Mutation,
                                 unlinked: bool)
  {
    && (temporary in before && !UsesTemporary(mutation) ==> SameAt(before, after, temporary))
    && (temporary in before && UsesTemporary(mutation)
        ==> forall path :: base <= path ==> OnlyUnlinkedAt(before, after, temporary, unlinked, path))
  }

  ghost predicate OnlyUnlinkedAt(before: Tree, after: Tree, temporary: Path, unlinked: bool, path: Path) {
    if unlinked && path == temporary then path !in after else SameAt(before, after, path)
  }

  /** The last part of the body: the kind of mutation decides what happens at the target. */
  method PlaceTarget(disk: Disk, target: Path, temporary: Path, mutation: Mutation, partial: seq<Byte>,
                     faults: set<Step>)
    returns (done: bool)
    requires WellFormed(disk.tree) && |target| > 0 && |temporary| > 0 && target != temporary
    requires Parent(temporary) == Parent(target) && IsDirectory(disk.tree, Parent(target))
    modifies disk
    ensures WellFormed(disk.tree)
    ensures forall path :: path != target && path != temporary ==> SameAt(old(disk.tree), disk.tree, path)
    ensures TargetAt(old(disk.tree), disk.tree, target, mutation)
    ensures TemporaryGone(old(disk.tree), disk.tree, temporary, faults, done)
    ensures forall base :: TakenTemporary(old(disk.tree), disk.tree, base, temporary, mutation,
                                          IsUnlinked(old(disk.tree), temporary, faults))
    ensures done ==> AsAsked(disk.tree, target, mutation) && Placeable(old(disk.tree), target, temporary, mutation)
    ensures faults == {} && Placeable(old(disk.tree), target, temporary, mutation) ==> done
  {
    match mutation {
      case Remove =>
        var error := RemoveManagedLeaf(disk, target, faults);
        done := error.None?;
      case MakeDirectory(permissions, mode) =>
        done := MakeDirectoryAt(disk, target, permissions, mode, faults);
        assert SameAt(old(disk.tree), disk.tree, temporary);
      case _ =>
        done := ReplaceTarget(disk, target, temporary, mutation, partial, faults);
    }
  }

  method MutateHeld(disk: Disk, held: Path, rel: Path, temporary: string, mutation: Mutation, partial: seq<Byte>,
                    faults: set<Step>)
    returns (done: bool)
    requires WellFormed(disk.tree) && IsDirectory(disk.tree, held) && |rel| > 0 && rel[|rel| - 1] != temporary
    modifies disk
    ensures WellFormed(disk.tree)
    ensures EditedOnly(old(disk.tree), disk.tree, held, rel, temporary, mutation)
    ensures TemporaryGone(old(disk.tree), disk.tree, held + Sibling(rel, temporary), faults, done)
    ensures TakenTemporary(old(disk.tree), disk.tree, held, held + Sibling(rel, temporary), mutation,
                           AncestorsAreSeen(|rel| - 1, faults)
                           && IsUnlinked(old(disk.tree), held + Sibling(rel, temporary), faults))
    ensures done
      ==> AsAsked(disk.tree, held + rel, mutation) && Feasible(old(disk.tree), held, rel, temporary, mutation)
    ensures faults == {} && Feasible(old(disk.tree), held, rel, temporary, mutation) ==> done
  {
    var parts := Parent(rel);
    var target, beside := held + rel, held + Sibling(rel, temporary);
    assert Parent(target) == held + parts == Parent(beside);
    assert target == held + parts + [rel[|rel| - 1]] && beside == held + parts + [temporary];
    AncestorsOfTaken(disk.tree, held + parts, beside);
    var walk := ReachParent(disk, held, parts, mutation.Remove?, faults);
    ghost var reached := disk.tree;
    assert SameAt(old(disk.tree), reached, target) && SameAt(old(disk.tree), reached, beside);
    WalkKeepsTarget(old(disk.tree), reached, held, parts, target, mutation.Remove?);
    if walk.NothingThere? { return true; }
    if walk.Blocked? { return false; }
    done := PlaceTarget(disk, target, beside, mutation, partial, faults);
    WalkThenPlace(old(disk.tree), reached, disk.tree, held, rel, temporary, mutation);
  }

  lemma AncestorsOfTaken(tree: Tree, parent: Path, path: Path)
    requires WellFormed(tree) && |path| > 0 && Parent(path) == parent
    ensures path in tree ==> IsDirectory(tree, parent)
  {
  }

  /** Creating ancestors does not fill or empty the target. */
  lemma WalkKeepsTarget(before: Tree, reached: Tree, held: Path, parts: seq<string>, target: Path, removing: bool)
    requires OnlyAncestorsMade(before, reached, held, parts, removing) && held + parts < target
    ensures HasChild(before, target) == HasChild(reached, target)
  {
    forall inner | target < inner ensures SameAt(before, reached, inner) {
      assert !NewAncestor(before, reached, held, parts, inner);
    }
    SameChildren(before, reached, target);
  }

  lemma WalkThenPlace(before: Tree, reached: Tree, after: Tree, held: Path, rel: Path, temporary: string,
                      mutation: Mutation)
    requires |rel| > 0 && OnlyAncestorsMade(before, reached, held, Parent(rel), mutation.Remove?)
    requires SameAt(before, reached, held + rel)
    requires forall path :: path != held + rel && path != held + Sibling(rel, temporary)
                            ==> SameAt(reached, after, path)
    requires TargetAt(reached, after, held + rel, mutation)
    ensures EditedOnly(before, after, held, rel, temporary, mutation)
  {
    forall path | path != held + Sibling(rel, temporary) ensures EditedAt(before, after, held, rel, mutation, path) {
      assert SameAt(before, reached, path)
             || (!mutation.Remove? && NewAncestor(before, reached, held, Parent(rel), path));
      if path != held + rel { assert SameAt(reached, after, path); }
    }
  }
}
