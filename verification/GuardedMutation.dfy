/** The portable strategy of `src/machine/linux.layer.ts`: the managed root is moved into a private
    guard directory, changed there, and moved back, and `finally` blocks undo what a failure left open. */
module GuardedMutation {
  import opened FileTree
  import opened HeldMutation

  // ---------------------------------------------------------------- out of the way and back

  function GuardName(name: string, suffix: string): string {
    "." + name + ".canonfig-guard-" + suffix
  }

  function TemporaryName(name: string, suffix: string): string {
    "." + name + ".canonfig-" + suffix
  }

  /** Both names are hidden, tell what they stand for, and differ when their suffixes do and from one another. */
  lemma FreshNamesAreApart(name: string, suffix: string, other: string)
    ensures "." + name + ".canonfig-" <= TemporaryName(name, suffix)
            && "." + name + ".canonfig-guard-" <= GuardName(name, suffix)
    ensures GuardName(name, suffix) == GuardName(name, other) <==> suffix == other
    ensures TemporaryName(name, suffix) == TemporaryName(name, other) <==> suffix == other
    ensures TemporaryName(name, suffix) == GuardName(name, other) <==> suffix == "guard-" + other
  {
    var temporary, guard := "." + name + ".canonfig-", "." + name + ".canonfig-guard-";
    assert guard == temporary + "guard-";
    assert TemporaryName(name, suffix)[|temporary|..] == suffix && TemporaryName(name, other)[|temporary|..] == other;
    assert GuardName(name, suffix)[|guard|..] == suffix && GuardName(name, other)[|guard|..] == other;
    assert GuardName(name, other) == temporary + ("guard-" + other);
    assert GuardName(name, other)[|temporary|..] == "guard-" + other;
  }

  /** The places a run uses: the managed root, the guard beside it and the root's name inside the guard. */
  datatype Places = Places(directory: Path, name: string, guardSuffix: string) {
    function Root(): Path { directory + [name] }
    function Guard(): Path { directory + [GuardName(name, guardSuffix)] }
    function Held(): Path { Guard() + [name] }
  }

  lemma PlacesAreApart(places: Places)
    ensures Apart(places.Root(), places.Guard()) && Apart(places.Root(), places.Held())
    ensures Parent(places.Root()) == Parent(places.Guard()) == places.directory
            && Parent(places.Held()) == places.Guard()
  {
    assert |GuardName(places.name, places.guardSuffix)| > |places.name|;
    assert places.Root()[|places.directory|] != places.Guard()[|places.directory|];
    assert places.Held()[|places.directory|] == places.Guard()[|places.directory|];
  }

  lemma RootOrGuard(places: Places, path: Path)
    ensures !(places.Root() <= path && places.Guard() <= path)
  {
    PlacesAreApart(places);
    if places.Root() <= path && places.Guard() <= path { PrefixesAreOrdered(places.Root(), places.Guard(), path); }
  }

  /** The tree once the root stands inside the guard. */
  ghost function Isolated(tree: Tree, places: Places): Tree {
    Move(tree[places.Guard() := Directory(DEFAULT_DIRECTORY_MODE)], places.Root(), places.Held())
  }

  lemma MovedBack(from: Path, to: Path, path: Path)
    requires from <= path
    ensures to <= Moved(from, to, path) && Moved(to, from, Moved(from, to, path)) == path
  {
    assert Moved(from, to, path)[|to|..] == path[|from|..];
  }

  /** Which path inside the guard stands for `path` of the managed root. */
  lemma IsolatedAt(tree: Tree, places: Places, path: Path)
    requires places.Root() <= path
    ensures var moved := Moved(places.Root(), places.Held(), path);
            && (moved in Isolated(tree, places) <==> path in tree)
            && (path in tree ==> Isolated(tree, places)[moved] == tree[path])
  {
    PlacesAreApart(places);
    var root, held, guard := places.Root(), places.Held(), places.Guard();
    MovedBack(root, held, path);
    assert path != guard;
    MoveAt(tree[guard := Directory(DEFAULT_DIRECTORY_MODE)], root, held, Moved(root, held, path));
  }

  lemma RootIsAway(tree: Tree, places: Places, path: Path)
    requires places.Root() <= path
    ensures path !in Isolated(tree, places)
  {
    PlacesAreApart(places);
    MoveAt(tree[places.Guard() := Directory(DEFAULT_DIRECTORY_MODE)], places.Root(), places.Held(), path);
  }

  /** Outside the root only the guard is new. */
  lemma IsolatedElsewhere(tree: Tree, places: Places, path: Path)
    requires WellFormed(tree) && places.Guard() !in tree && !(places.Root() <= path) && !(places.Held() <= path)
    ensures path == places.Guard() ==> path in Isolated(tree, places)
    ensures path != places.Guard() ==> SameAt(tree, Isolated(tree, places), path)
  {
    PlacesAreApart(places);
    MoveAt(tree[places.Guard() := Directory(DEFAULT_DIRECTORY_MODE)], places.Root(), places.Held(), path);
  }

  lemma IsolatedWellFormed(tree: Tree, places: Places)
    requires WellFormed(tree) && IsDirectory(tree, places.Root()) && places.Guard() !in tree
    ensures WellFormed(tree[places.Guard() := Directory(DEFAULT_DIRECTORY_MODE)])
    ensures WellFormed(Isolated(tree, places)) && IsDirectory(Isolated(tree, places), places.Held())
    ensures places.Held() !in tree
  {
    PlacesAreApart(places);
    assert IsDirectory(tree, Parent(places.Root()));
    NothingBelowAbsent(tree, places.Guard());
    WithEntry(tree, places.Guard(), Directory(DEFAULT_DIRECTORY_MODE));
    MoveWellFormed(tree[places.Guard() := Directory(DEFAULT_DIRECTORY_MODE)], places.Root(), places.Held());
    IsolatedAt(tree, places, places.Root());
    assert Moved(places.Root(), places.Held(), places.Root()) == places.Held();
  }

  /** Edits made in isolation, seen after the way back, are the same edits of the managed root. */
  lemma EditsComeHome(tree: Tree, places: Places, edited: Tree, rel: Path, temporary: string, mutation: Mutation)
    requires |rel| > 0 && EditedOnly(Isolated(tree, places), edited, places.Held(), rel, temporary, mutation)
    ensures Edited(tree, Move(edited, places.Held(), places.Root()), places.Root(), rel, temporary, mutation)
  {
    var root, held := places.Root(), places.Held();
    forall path | root <= path && path != root + Sibling(rel, temporary)
      ensures EditedAt(tree, Move(edited, held, root), root, rel, mutation, path)
    {
      var moved := Moved(root, held, path);
      MovedBack(root, held, path);
      SamePlace(root, held, Sibling(rel, temporary), path);
      assert EditedAt(Isolated(tree, places), edited, held, rel, mutation, moved);
      EditComesHome(tree, places, edited, rel, mutation, path);
    }
  }

  lemma EditComesHome(tree: Tree, places: Places, edited: Tree, rel: Path, mutation: Mutation, path: Path)
    requires |rel| > 0 && places.Root() <= path
    requires EditedAt(Isolated(tree, places), edited, places.Held(), rel, mutation,
                      Moved(places.Root(), places.Held(), path))
    ensures EditedAt(tree, Move(edited, places.Held(), places.Root()), places.Root(), rel, mutation, path)
  {
    HomeAt(tree, places, edited, path);
    EditTransfers(tree, Isolated(tree, places), edited, Move(edited, places.Held(), places.Root()),
                  places.Root(), places.Held(), rel, mutation, path);
  }

  lemma SamePlace(root: Path, held: Path, rel: Path, path: Path)
    requires root <= path
    ensures Moved(root, held, path) == held + rel <==> path == root + rel
  {
    assert path == root + path[|root|..];
    assert (held + rel)[|held|..] == rel && Moved(root, held, path)[|held|..] == path[|root|..];
  }

  /** An edit between `isolated` and `edited` is the same edit between trees that agree with them at `path`. */
  lemma EditTransfers(tree: Tree, isolated: Tree, edited: Tree, home: Tree, root: Path, held: Path, rel: Path,
                      mutation: Mutation, path: Path)
    requires |rel| > 0 && root <= path
    requires var moved := Moved(root, held, path);
             && (path in home <==> moved in edited) && (path in home ==> home[path] == edited[moved])
             && (path in tree <==> moved in isolated) && (path in tree ==> tree[path] == isolated[moved])
             && EditedAt(isolated, edited, held, rel, mutation, moved)
    ensures EditedAt(tree, home, root, rel, mutation, path)
  {
    SamePlace(root, held, rel, path);
    if NewAncestor(isolated, edited, held, Parent(rel), Moved(root, held, path)) {
      AncestorComesHome(root, held, Parent(rel), path);
    }
  }

  lemma AncestorComesHome(root: Path, held: Path, parts: Path, path: Path)
    requires root <= path && held < Moved(root, held, path) && Moved(root, held, path) <= held + parts
    ensures root < path && path <= root + parts
  {
    var moved, tail := Moved(root, held, path), path[|root|..];
    assert tail == moved[|held|..] == (held + parts)[|held|..|moved|] == parts[..|tail|];
    assert path == root + tail;
  }

  /** One path of the root before, in isolation after the edits, and back home. */
  lemma HomeAt(tree: Tree, places: Places, edited: Tree, path: Path)
    requires places.Root() <= path
    ensures var home, moved := Move(edited, places.Held(), places.Root()), Moved(places.Root(), places.Held(), path);
            && (path in home <==> moved in edited)
            && (path in home ==> home[path] == edited[moved])
            && (path in tree <==> moved in Isolated(tree, places))
            && (path in tree ==> tree[path] == Isolated(tree, places)[moved])
  {
    PlacesAreApart(places);
    IsolatedAt(tree, places, path);
    MoveAt(edited, places.Held(), places.Root(), path);
  }

  /** In isolation nothing outside the guard has changed, and nothing is left at the root's own place. */
  lemma NothingElseEdited(isolated: Tree, places: Places, edited: Tree, rel: Path, temporary: string,
                          mutation: Mutation, path: Path)
    requires |rel| > 0 && EditedOnly(isolated, edited, places.Held(), rel, temporary, mutation)
             && !(places.Held() <= path)
    ensures SameAt(isolated, edited, path)
  {
    assert EditedAt(isolated, edited, places.Held(), rel, mutation, path);
  }

  /** Back home nothing outside the root and the guard has changed, and the guard is empty. */
  lemma NothingElseComesHome(tree: Tree, places: Places, edited: Tree, rel: Path, temporary: string,
                             mutation: Mutation, path: Path)
    requires |rel| > 0 && EditedOnly(Isolated(tree, places), edited, places.Held(), rel, temporary, mutation)
    requires WellFormed(tree) && places.Guard() !in tree && !(places.Root() <= path)
    ensures !(places.Guard() <= path) ==> SameAt(tree, Move(edited, places.Held(), places.Root()), path)
    ensures places.Guard() < path ==> path !in Move(edited, places.Held(), places.Root())
  {
    var root, held, guard := places.Root(), places.Held(), places.Guard();
    PlacesAreApart(places);
    MoveAt(edited, held, root, path);
    if !(held <= path) {
      NothingElseEdited(Isolated(tree, places), places, edited, rel, temporary, mutation, path);
      IsolatedElsewhere(tree, places, path);
      if guard < path { NothingBelowAbsent(tree, guard); }
    }
  }

  // ---------------------------------------------------------------- the whole run

  predicate MovesOut(faults: set<Step>) {
    BeforeMutation !in faults && LstatRoot !in faults && MakeGuard !in faults && MoveOut !in faults
  }

  /** Exactly when the root leaves its place. */
  ghost predicate Isolates(tree: Tree, places: Places, faults: set<Step>) {
    && IsDirectory(tree, places.Root()) && places.Guard() !in tree
    && OpenRoot !in faults && StatRoot !in faults && MovesOut(faults)
  }

  /** Exactly when the run comes to the clean-up behind the mutation, and this removes what stood at the temporary
      name. */
  ghost predicate UnlinksTaken(tree: Tree, places: Places, rel: Path, temporary: string, faults: set<Step>)
    requires |rel| > 0
  {
    && Isolates(tree, places, faults) && LstatHeld !in faults && AncestorsAreSeen(|rel| - 1, faults)
    && IsUnlinked(tree, places.Root() + Sibling(rel, temporary), faults)
  }

  /** The managed root with nothing changed in it but what the mutation may change. */
  ghost predicate RootEdited(before: Tree, after: Tree, places: Places, rel: Path, temporary: string,
                             mutation: Mutation,
                             faults: set<Step>, done: bool)
    requires |rel| > 0
  {
    && Edited(before, after, places.Root(), rel, temporary, mutation)
    && TemporaryGone(before, after, places.Root() + Sibling(rel, temporary), faults, done)
    && (done ==> AsAsked(after, places.Root() + rel, mutation))
  }

  /** What becomes of an entry of the root that already stood at the temporary name. */
  ghost predicate TakenFate(before: Tree, after: Tree, places: Places, rel: Path, temporary: string,
                            mutation: Mutation, faults: set<Step>)
    requires |rel| > 0
  {
    TakenTemporary(before, after, places.Root(), places.Root() + Sibling(rel, temporary), mutation,
                   UnlinksTaken(before, places, rel, temporary, faults))
  }

  lemma TemporaryComesHome(tree: Tree, places: Places, edited: Tree, inner: Path, faults: set<Step>, done: bool)
    requires TemporaryGone(Isolated(tree, places), edited, places.Held() + inner, faults, done)
    ensures TemporaryGone(tree, Move(edited, places.Held(), places.Root()), places.Root() + inner, faults, done)
  {
    SamePlace(places.Root(), places.Held(), inner, places.Root() + inner);
    HomeAt(tree, places, edited, places.Root() + inner);
  }

  lemma TakenComesHome(tree: Tree, places: Places, edited: Tree, inner: Path, mutation: Mutation, unlinked: bool)
    requires TakenTemporary(Isolated(tree, places), edited, places.Held(), places.Held() + inner, mutation, unlinked)
    ensures TakenTemporary(tree, Move(edited, places.Held(), places.Root()), places.Root(), places.Root() + inner,
                           mutation, unlinked)
  {
    var root, held := places.Root(), places.Held();
    SamePlace(root, held, inner, root + inner);
    HomeAt(tree, places, edited, root + inner);
    if root + inner in tree && UsesTemporary(mutation) {
      forall path | root <= path
        ensures OnlyUnlinkedAt(tree, Move(edited, held, root), root + inner, unlinked, path)
      {
        MovedBack(root, held, path);
        SamePlace(root, held, inner, path);
        assert OnlyUnlinkedAt(Isolated(tree, places), edited, held + inner, unlinked, Moved(root, held, path));
        HomeAt(tree, places, edited, path);
      }
    }
  }

  lemma TargetComesHome(tree: Tree, places: Places, edited: Tree, inner: Path, mutation: Mutation)
    ensures AsAsked(edited, places.Held() + inner, mutation)
      ==> AsAsked(Move(edited, places.Held(), places.Root()), places.Root() + inner, mutation)
  {
    SamePlace(places.Root(), places.Held(), inner, places.Root() + inner);
    HomeAt(tree, places, edited, places.Root() + inner);
  }

  /** Exactly when a run without failures succeeds: both fresh names are free, the way is open and the target can make
      room. */
  ghost predicate CanSucceed(tree: Tree, places: Places, rel: Path, temporary: string, mutation: Mutation)
    requires |rel| > 0
  {
    && IsDirectory(tree, places.Root()) && places.Guard() !in tree
    && Feasible(tree, places.Root(), rel, temporary, mutation)
  }

  lemma FeasibleInIsolation(tree: Tree, places: Places, rel: Path, temporary: string, mutation: Mutation)
    requires |rel| > 0
    ensures Feasible(tree, places.Root(), rel, temporary, mutation)
            <==> Feasible(Isolated(tree, places), places.Held(), rel, temporary, mutation)
  {
    var root, held, isolated := places.Root(), places.Held(), Isolated(tree, places);
    WayInIsolation(tree, places, Parent(rel));
    ChildrenInIsolation(tree, places, rel);
    IsolatedAt(tree, places, root + Sibling(rel, temporary));
    SamePlace(root, held, Sibling(rel, temporary), root + Sibling(rel, temporary));
  }

  lemma WayInIsolation(tree: Tree, places: Places, parts: seq<string>)
    ensures WayIsOpen(tree, places.Root(), parts) <==> WayIsOpen(Isolated(tree, places), places.Held(), parts)
  {
    var root, held, isolated := places.Root(), places.Held(), Isolated(tree, places);
    if WayIsOpen(tree, root, parts) {
      forall path | path in isolated && held < path && path <= held + parts ensures isolated[path].Directory? {
        var there := Moved(held, root, path);
        MovedBack(held, root, path);
        IsolatedAt(tree, places, there);
        AncestorComesHome(root, held, parts, there);
      }
    }
    if WayIsOpen(isolated, held, parts) {
      forall path | path in tree && root < path && path <= root + parts ensures tree[path].Directory? {
        MovedBack(root, held, path);
        IsolatedAt(tree, places, path);
        AncestorComesHome(held, root, parts, Moved(root, held, path));
      }
    }
  }

  lemma BelowMoves(from: Path, to: Path, rel: Path, inner: Path)
    requires from + rel < inner
    ensures from <= inner && to + rel < Moved(from, to, inner)
  {
    assert inner == from + rel + inner[|from + rel|..];
    assert inner[|from|..] == rel + inner[|from + rel|..];
  }

  lemma ChildrenInIsolation(tree: Tree, places: Places, rel: Path)
    ensures HasChild(tree, places.Root() + rel) <==> HasChild(Isolated(tree, places), places.Held() + rel)
  {
    var root, held, isolated := places.Root(), places.Held(), Isolated(tree, places);
    if HasChild(tree, root + rel) {
      var inner :| inner in tree && root + rel < inner;
      BelowMoves(root, held, rel, inner);
      IsolatedAt(tree, places, inner);
    }
    if HasChild(isolated, held + rel) {
      var inner :| inner in isolated && held + rel < inner;
      BelowMoves(held, root, rel, inner);
      MovedBack(held, root, inner);
      IsolatedAt(tree, places, Moved(held, root, inner));
    }
  }

  /** The first steps of the `try` body: `held` says whether the root has left its place. */
  method Isolate(disk: Disk, places: Places, faults: set<Step>) returns (held: bool)
    requires WellFormed(disk.tree) && IsDirectory(disk.tree, places.Root())
    modifies disk
    ensures WellFormed(disk.tree)
    ensures held <==> places.Guard() !in old(disk.tree) && MovesOut(faults)
    ensures held ==> disk.tree == Isolated(old(disk.tree), places) && IsDirectory(disk.tree, places.Held())
    ensures !held ==> disk.tree == old(disk.tree)
                      || (&& places.Guard() !in old(disk.tree)
                          && disk.tree == old(disk.tree)[places.Guard() := Directory(DEFAULT_DIRECTORY_MODE)])
  {
    ghost var before := disk.tree;
    PlacesAreApart(places);
    if BeforeMutation in faults { return false; }
    var visible := disk.Lstat(places.Root(), LstatRoot in faults);
    if visible.Err? { return false; }
    var error := disk.Mkdir(places.Guard(), DEFAULT_DIRECTORY_MODE, MakeGuard in faults);
    if error.Some? { return false; }
    IsolatedWellFormed(before, places);
    error := disk.RenameDirectory(places.Root(), places.Held(), MoveOut in faults);
    held := error.None?;
  }

  /** What stands at the temporary name of the isolated root. */
  lemma TakenInIsolation(tree: Tree, places: Places, rel: Path, temporary: string, faults: set<Step>)
    requires |rel| > 0
    ensures IsUnlinked(Isolated(tree, places), places.Held() + Sibling(rel, temporary), faults)
            <==> IsUnlinked(tree, places.Root() + Sibling(rel, temporary), faults)
  {
    SamePlace(places.Root(), places.Held(), Sibling(rel, temporary), places.Root() + Sibling(rel, temporary));
    IsolatedAt(tree, places, places.Root() + Sibling(rel, temporary));
  }

  lemma NothingEdited(tree: Tree, held: Path, rel: Path, temporary: string, mutation: Mutation, faults: set<Step>)
    requires |rel| > 0
    ensures EditedOnly(tree, tree, held, rel, temporary, mutation)
    ensures TemporaryGone(tree, tree, held + Sibling(rel, temporary), faults, false)
    ensures TakenTemporary(tree, tree, held, held + Sibling(rel, temporary), mutation, false)
  {
    forall path ensures SameAt(tree, tree, path) {}
  }

  /** The `try` body: `held` says whether the root has left its place. */
  method IsolateAndMutate(disk: Disk, places: Places, rel: Path, temporary: string, mutation: Mutation,
                          partial: seq<Byte>, faults: set<Step>)
    returns (done: bool, held: bool)
    requires WellFormed(disk.tree) && IsDirectory(disk.tree, places.Root()) && |rel| > 0 && rel[|rel| - 1] != temporary
    modifies disk
    ensures WellFormed(disk.tree)
    ensures !held ==> !done && (|| disk.tree == old(disk.tree)
                                || (&& places.Guard() !in old(disk.tree)
                                    && disk.tree
                                        == old(disk.tree)[places.Guard() := Directory(DEFAULT_DIRECTORY_MODE)]))
    ensures held <==> places.Guard() !in old(disk.tree) && MovesOut(faults)
    ensures held ==> EditedOnly(Isolated(old(disk.tree), places), disk.tree, places.Held(), rel, temporary, mutation)
    ensures held
      ==> TemporaryGone(Isolated(old(disk.tree), places), disk.tree, places.Held() + Sibling(rel, temporary), faults,
                        done)
    ensures held
      ==> TakenTemporary(Isolated(old(disk.tree), places), disk.tree, places.Held(),
                         places.Held() + Sibling(rel, temporary), mutation,
                         LstatHeld !in faults && AncestorsAreSeen(|rel| - 1, faults)
                         && IsUnlinked(old(disk.tree), places.Root() + Sibling(rel, temporary), faults))
    ensures held && done ==> AsAsked(disk.tree, places.Held() + rel, mutation)
    ensures done ==> CanSucceed(old(disk.tree), places, rel, temporary, mutation)
    ensures faults == {} && CanSucceed(old(disk.tree), places, rel, temporary, mutation) ==> done
  {
    ghost var before := disk.tree;
    done := false;
    held := Isolate(disk, places, faults);
    if !held { return; }
    FeasibleInIsolation(before, places, rel, temporary, mutation);
    TakenInIsolation(before, places, rel, temporary, faults);
    var isolated := disk.Lstat(places.Held(), LstatHeld in faults);
    if isolated.Err? {
      NothingEdited(disk.tree, places.Held(), rel, temporary, mutation, faults);
      return false, true;
    }
    done := MutateHeld(disk, places.Held(), rel, temporary, mutation, partial, faults);
  }

  /** Why the way back can only fail by an injected failure: the root's place is free and its directory is there. */
  lemma TheWayBackIsFree(tree: Tree, places: Places, edited: Tree, rel: Path, temporary: string, mutation: Mutation)
    requires |rel| > 0 && EditedOnly(Isolated(tree, places), edited, places.Held(), rel, temporary, mutation)
    requires WellFormed(tree) && IsDirectory(tree, places.Root()) && places.Guard() !in tree && WellFormed(edited)
    ensures IsDirectory(edited, places.Held()) && places.Root() !in edited && IsDirectory(edited, places.directory)
    ensures WellFormed(Move(edited, places.Held(), places.Root()))
    ensures IsDirectory(Move(edited, places.Held(), places.Root()), places.Root())
  {
    HeldStays(tree, places, edited, rel, temporary, mutation);
    RootPlaceIsFree(tree, places, edited, rel, temporary, mutation);
    ReturnIsWellFormed(places, edited);
  }

  lemma ReturnIsWellFormed(places: Places, edited: Tree)
    requires WellFormed(edited) && IsDirectory(edited, places.Held()) && IsDirectory(edited, places.directory)
    ensures WellFormed(Move(edited, places.Held(), places.Root()))
    ensures IsDirectory(Move(edited, places.Held(), places.Root()), places.Root())
  {
    PlacesAreApart(places);
    MoveWellFormed(edited, places.Held(), places.Root());
    assert Moved(places.Root(), places.Held(), places.Root()) == places.Held();
    MoveAt(edited, places.Held(), places.Root(), places.Root());
  }

  lemma RootPlaceIsFree(tree: Tree, places: Places, edited: Tree, rel: Path, temporary: string, mutation: Mutation)
    requires |rel| > 0 && EditedOnly(Isolated(tree, places), edited, places.Held(), rel, temporary, mutation)
    requires WellFormed(tree) && IsDirectory(tree, places.Root()) && places.Guard() !in tree
    ensures places.Root() !in edited && IsDirectory(edited, places.directory)
  {
    PlacesAreApart(places);
    assert IsDirectory(tree, Parent(places.Root()));
    NothingElseEdited(Isolated(tree, places), places, edited, rel, temporary, mutation, places.Root());
    NothingElseEdited(Isolated(tree, places), places, edited, rel, temporary, mutation, places.directory);
    RootIsAway(tree, places, places.Root());
    IsolatedElsewhere(tree, places, places.directory);
  }

  lemma HeldStays(tree: Tree, places: Places, edited: Tree, rel: Path, temporary: string, mutation: Mutation)
    requires |rel| > 0 && EditedOnly(Isolated(tree, places), edited, places.Held(), rel, temporary, mutation)
    requires WellFormed(tree) && IsDirectory(tree, places.Root()) && places.Guard() !in tree
    ensures IsDirectory(edited, places.Held())
  {
    IsolatedWellFormed(tree, places);
    assert EditedAt(Isolated(tree, places), edited, places.Held(), rel, mutation, places.Held());
    assert SameAt(Isolated(tree, places), edited, places.Held());
  }

  /** What holds of the tree whatever failed: everything outside the root and the guard is as it was. */
  ghost predicate OutsideUntouched(before: Tree, after: Tree, places: Places) {
    forall path :: !(places.Root() <= path) && !(places.Guard() <= path) ==> SameAt(before, after, path)
  }

  /** The root is in its place, edited as asked or less, and the guard is gone, or empty if it could not be removed. */
  ghost predicate AtHome(before: Tree, after: Tree, places: Places, rel: Path, temporary: string, mutation: Mutation,
                         faults: set<Step>, done: bool)
    requires |rel| > 0
  {
    && (IsDirectory(before, places.Root()) ==> IsDirectory(after, places.Root()))
    && RootEdited(before, after, places, rel, temporary, mutation, faults, done)
    && (places.Guard() !in before ==>
          forall path :: places.Guard() <= path && path in after ==> path == places.Guard() && RemoveGuard in faults)
  }

  /** The root stands inside the guard, whole: moving it back by hand gives what the run would have left. */
  ghost predicate InGuard(before: Tree, after: Tree, places: Places, rel: Path, temporary: string, mutation: Mutation,
                          faults: set<Step>)
    requires |rel| > 0
  {
    && IsDirectory(after, places.Held())
    && (forall path :: places.Root() <= path ==> path !in after)
    && exists done :: RootEdited(before, Move(after, places.Held(), places.Root()), places, rel, temporary, mutation,
                                 faults, done)
  }

  /** The tree just before the guard is removed, when the root is back or never left. */
  ghost predicate Returned(before: Tree, after: Tree, places: Places, rel: Path, temporary: string, mutation: Mutation,
                           faults: set<Step>, done: bool)
    requires |rel| > 0
  {
    && WellFormed(after) && IsDirectory(after, places.Root())
    && OutsideUntouched(before, after, places)
    && RootEdited(before, after, places, rel, temporary, mutation, faults, done)
    && TakenFate(before, after, places, rel, temporary, mutation, faults)
    && (places.Guard() !in before ==> forall path :: places.Guard() < path ==> path !in after)
  }

  /** Exactly when a run that finds the guard's name taken removes what stands there. */
  ghost predicate CleansUp(tree: Tree, places: Places, faults: set<Step>) {
    IsDirectory(tree, places.Root()) && OpenRoot !in faults && StatRoot !in faults && RemoveGuard !in faults
  }

  method PortableSafeRootMutation(disk: Disk, places: Places, rel: Path, mutation: Mutation, partial: seq<Byte>,
                                  temporarySuffix: string, faults: set<Step>) returns (done: bool)
    requires WellFormed(disk.tree) && |rel| > 0
    modifies disk
    ensures WellFormed(disk.tree)
    ensures OutsideUntouched(old(disk.tree), disk.tree, places)
    ensures var temporary := TemporaryName(rel[|rel| - 1], temporarySuffix);
            if Isolates(old(disk.tree), places, faults) && MoveBack in faults
            then !done && InGuard(old(disk.tree), disk.tree, places, rel, temporary, mutation, faults)
            else AtHome(old(disk.tree), disk.tree, places, rel, temporary, mutation, faults, done)
    ensures var temporary, there := TemporaryName(rel[|rel| - 1], temporarySuffix),
              if Isolates(old(disk.tree), places, faults) && MoveBack in faults
              then Move(disk.tree, places.Held(), places.Root()) else disk.tree;
            TakenFate(old(disk.tree), there, places, rel, temporary, mutation, faults)
    ensures done ==> AsAsked(disk.tree, places.Root() + rel, mutation)
    ensures places.Guard() in old(disk.tree)
      ==> !done && disk.tree == if CleansUp(old(disk.tree), places, faults) then Pruned(old(disk.tree), places.Guard())
                                else old(disk.tree)
    ensures var temporary := TemporaryName(rel[|rel| - 1], temporarySuffix);
            && (done ==> CanSucceed(old(disk.tree), places, rel, temporary, mutation))
            && (faults == {} && CanSucceed(old(disk.tree), places, rel, temporary, mutation) ==> done)
  {
    ghost var before := disk.tree;
    var temporary := TemporaryName(rel[|rel| - 1], temporarySuffix);
    if OpenRoot in faults || StatRoot in faults || !IsDirectory(disk.tree, places.Root()) {
      NothingBelowAbsentUnless(before, places);
      Untouched(before, places, rel, temporary, mutation, faults);
      return false;
    }
    assert |temporary| > |rel[|rel| - 1]|;
    var held;
    done, held := IsolateAndMutate(disk, places, rel, temporary, mutation, partial, faults);
    ghost var returned := disk.tree;
    if held {
      RootComesHome(before, places, disk.tree, rel, temporary, mutation, faults, done);
      TakenComesHome(before, places, disk.tree, Sibling(rel, temporary), mutation,
                     UnlinksTaken(before, places, rel, temporary, faults));
      WayBackLeaves(before, places, disk.tree, rel, temporary, mutation, faults, done);
      var back := PutBack(disk, places, faults);
      if !back { return false; }
      returned := disk.tree;
    } else {
      NeverLeft(before, disk.tree, places, rel, temporary, mutation, faults);
    }
    disk.RemoveRecursively(places.Guard(), RemoveGuard in faults);
    GuardRemoved(before, returned, disk.tree, places, rel, temporary, mutation, faults, done);
  }

  /** The way back in the `finally` block; nothing but an injected failure can stop it. */
  method PutBack(disk: Disk, places: Places, faults: set<Step>) returns (back: bool)
    requires IsDirectory(disk.tree, places.Held()) && places.Root() !in disk.tree
             && IsDirectory(disk.tree, places.directory)
    modifies disk
    ensures back <==> MoveBack !in faults
    ensures disk.tree == if back then Move(old(disk.tree), places.Held(), places.Root()) else old(disk.tree)
  {
    PlacesAreApart(places);
    var error := disk.RenameDirectory(places.Held(), places.Root(), MoveBack in faults);
    back := error.None?;
  }

  /** What the edits in isolation are, seen from the root's own place. */
  lemma RootComesHome(before: Tree, places: Places, edited: Tree, rel: Path, temporary: string, mutation: Mutation,
                      faults: set<Step>, done: bool)
    requires |rel| > 0 && EditedOnly(Isolated(before, places), edited, places.Held(), rel, temporary, mutation)
    requires TemporaryGone(Isolated(before, places), edited, places.Held() + Sibling(rel, temporary), faults, done)
    requires done ==> AsAsked(edited, places.Held() + rel, mutation)
    ensures RootEdited(before, Move(edited, places.Held(), places.Root()), places, rel, temporary, mutation, faults,
                       done)
  {
    EditsComeHome(before, places, edited, rel, temporary, mutation);
    TemporaryComesHome(before, places, edited, Sibling(rel, temporary), faults, done);
    TargetComesHome(before, places, edited, rel, mutation);
  }

  /** What the way back leaves, taken or not. */
  lemma WayBackLeaves(before: Tree, places: Places, edited: Tree, rel: Path, temporary: string, mutation: Mutation,
                      faults: set<Step>, done: bool)
    requires WellFormed(before) && IsDirectory(before, places.Root()) && places.Guard() !in before && WellFormed(edited)
    requires |rel| > 0 && EditedOnly(Isolated(before, places), edited, places.Held(), rel, temporary, mutation)
    requires RootEdited(before, Move(edited, places.Held(), places.Root()), places, rel, temporary, mutation, faults,
                        done)
    requires TakenFate(before, Move(edited, places.Held(), places.Root()), places, rel, temporary, mutation, faults)
    ensures IsDirectory(edited, places.Held()) && places.Root() !in edited && IsDirectory(edited, places.directory)
    ensures Returned(before, Move(edited, places.Held(), places.Root()), places, rel, temporary, mutation, faults, done)
    ensures OutsideUntouched(before, edited, places)
            && InGuard(before, edited, places, rel, temporary, mutation, faults)
  {
    TheWayBackIsFree(before, places, edited, rel, temporary, mutation);
    StaysInGuard(before, places, edited, rel, temporary, mutation);
    CameHome(before, places, edited, rel, temporary, mutation);
    PlacesAreApart(places);
  }

  lemma NothingBelowAbsentUnless(tree: Tree, places: Places)
    requires WellFormed(tree)
    ensures places.Guard() !in tree ==> forall path :: places.Guard() <= path ==> path !in tree
  {
    if places.Guard() !in tree {
      NothingBelowAbsent(tree, places.Guard());
      forall path | places.Guard() <= path ensures path !in tree {
        assert path == places.Guard() || places.Guard() < path;
      }
    }
  }

  lemma Untouched(before: Tree, places: Places, rel: Path, temporary: string, mutation: Mutation, faults: set<Step>)
    requires |rel| > 0 && !Isolates(before, places, faults)
    ensures OutsideUntouched(before, before, places)
    ensures TakenFate(before, before, places, rel, temporary, mutation, faults)
    ensures RootEdited(before, before, places, rel, temporary, mutation, faults, false)
  {
    forall path ensures SameAt(before, before, path) {}
    NothingTaken(before, before, places, places.Root() + Sibling(rel, temporary), mutation);
  }

  lemma StaysInGuard(before: Tree, places: Places, edited: Tree, rel: Path, temporary: string, mutation: Mutation)
    requires |rel| > 0 && EditedOnly(Isolated(before, places), edited, places.Held(), rel, temporary, mutation)
    requires WellFormed(before) && places.Guard() !in before
    ensures OutsideUntouched(before, edited, places)
    ensures forall path :: places.Root() <= path ==> path !in edited
  {
    PlacesAreApart(places);
    forall path
      ensures !(places.Root() <= path) && !(places.Guard() <= path) ==> SameAt(before, edited, path)
      ensures places.Root() <= path ==> path !in edited
    {
      RootOrGuard(places, path);
      if !(places.Held() <= path) {
        NothingElseEdited(Isolated(before, places), places, edited, rel, temporary, mutation, path);
        if places.Root() <= path { RootIsAway(before, places, path); } else { IsolatedElsewhere(before, places, path); }
      }
    }
  }

  lemma CameHome(before: Tree, places: Places, edited: Tree, rel: Path, temporary: string, mutation: Mutation)
    requires |rel| > 0 && EditedOnly(Isolated(before, places), edited, places.Held(), rel, temporary, mutation)
    requires WellFormed(before) && places.Guard() !in before
    ensures OutsideUntouched(before, Move(edited, places.Held(), places.Root()), places)
    ensures forall path :: places.Guard() < path ==> path !in Move(edited, places.Held(), places.Root())
  {
    forall path
      ensures !(places.Root() <= path) && !(places.Guard() <= path) ==>
                SameAt(before, Move(edited, places.Held(), places.Root()), path)
      ensures places.Guard() < path ==> path !in Move(edited, places.Held(), places.Root())
    {
      RootOrGuard(places, path);
      if !(places.Root() <= path) { NothingElseComesHome(before, places, edited, rel, temporary, mutation, path); }
    }
  }

  lemma NeverLeft(before: Tree, after: Tree, places: Places, rel: Path, temporary: string, mutation: Mutation,
                  faults: set<Step>)
    requires |rel| > 0 && WellFormed(before) && WellFormed(after) && IsDirectory(before, places.Root())
    requires !Isolates(before, places, faults)
    requires after == before
             || (places.Guard() !in before && after == before[places.Guard() := Directory(DEFAULT_DIRECTORY_MODE)])
    ensures Returned(before, after, places, rel, temporary, mutation, faults, false)
  {
    PlacesAreApart(places);
    forall path | path != places.Guard() ensures SameAt(before, after, path) {}
    if places.Guard() !in before { NothingBelowAbsent(before, places.Guard()); }
    forall path | places.Root() <= path ensures SameAt(before, after, path) { RootOrGuard(places, path); }
    NothingTaken(before, after, places, places.Root() + Sibling(rel, temporary), mutation);
    SameRootSameEdit(before, before, after, places, rel, temporary, mutation, faults, false);
  }

  /** Only the root's own paths matter to `RootEdited`. */
  lemma SameRootSameEdit(before: Tree, one: Tree, other: Tree, places: Places, rel: Path, temporary: string,
                         mutation: Mutation,
                         faults: set<Step>, done: bool)
    requires |rel| > 0 && RootEdited(before, one, places, rel, temporary, mutation, faults, done)
    requires forall path :: places.Root() <= path ==> SameAt(one, other, path)
    ensures RootEdited(before, other, places, rel, temporary, mutation, faults, done)
  {
    var root := places.Root();
    assert SameAt(one, other, root + rel) && SameAt(one, other, root + Sibling(rel, temporary));
    forall path | root <= path && path != root + Sibling(rel, temporary)
      ensures EditedAt(before, other, root, rel, mutation, path)
    {
      assert EditedAt(before, one, root, rel, mutation, path) && SameAt(one, other, path);
    }
  }

  ghost predicate WithoutGuard(returned: Tree, after: Tree, places: Places, faults: set<Step>) {
    after == if RemoveGuard in faults then returned else Pruned(returned, places.Guard())
  }

  lemma GuardRemovedAt(returned: Tree, after: Tree, places: Places, faults: set<Step>, path: Path)
    requires WithoutGuard(returned, after, places, faults)
    ensures !(places.Guard() <= path) ==> SameAt(returned, after, path)
    ensures places.Root() <= path ==> SameAt(returned, after, path)
  {
    RootOrGuard(places, path);
  }

  /** Nothing but the root's own paths matters to `TakenTemporary`. */
  lemma TakenAfterGuard(before: Tree, returned: Tree, after: Tree, places: Places, temporary: Path,
                        mutation: Mutation, unlinked: bool, faults: set<Step>)
    requires TakenTemporary(before, returned, places.Root(), temporary, mutation, unlinked)
    requires WithoutGuard(returned, after, places, faults) && places.Root() <= temporary
    ensures TakenTemporary(before, after, places.Root(), temporary, mutation, unlinked)
  {
    GuardRemovedAt(returned, after, places, faults, temporary);
    if temporary in before && UsesTemporary(mutation) {
      forall path | places.Root() <= path ensures OnlyUnlinkedAt(before, after, temporary, unlinked, path) {
        assert OnlyUnlinkedAt(before, returned, temporary, unlinked, path);
        GuardRemovedAt(returned, after, places, faults, path);
      }
    }
  }

  lemma NothingTaken(before: Tree, after: Tree, places: Places, temporary: Path, mutation: Mutation)
    requires forall path :: places.Root() <= path ==> SameAt(before, after, path)
    requires places.Root() <= temporary
    ensures TakenTemporary(before, after, places.Root(), temporary, mutation, false)
  {
  }

  lemma GuardRemovedWellFormed(returned: Tree, after: Tree, places: Places, faults: set<Step>)
    requires WellFormed(returned) && WithoutGuard(returned, after, places, faults)
    ensures WellFormed(after)
  {
    forall path | path in after && |path| > 0 ensures IsDirectory(after, Parent(path)) {
      assert IsDirectory(returned, Parent(path));
      BelowParent(places.Guard(), path);
    }
  }

  lemma GuardRemoved(before: Tree, returned: Tree, after: Tree, places: Places, rel: Path, temporary: string,
                     mutation: Mutation,
                     faults: set<Step>, done: bool)
    requires |rel| > 0 && Returned(before, returned, places, rel, temporary, mutation, faults, done)
    requires WithoutGuard(returned, after, places, faults)
    ensures WellFormed(after) && OutsideUntouched(before, after, places)
    ensures AtHome(before, after, places, rel, temporary, mutation, faults, done)
    ensures TakenFate(before, after, places, rel, temporary, mutation, faults)
  {
    TakenAfterGuard(before, returned, after, places, places.Root() + Sibling(rel, temporary), mutation,
                    UnlinksTaken(before, places, rel, temporary, faults), faults);
    GuardRemovedWellFormed(returned, after, places, faults);
    forall path | places.Root() <= path ensures SameAt(returned, after, path) {
      GuardRemovedAt(returned, after, places, faults, path);
    }
    SameRootSameEdit(before, returned, after, places, rel, temporary, mutation, faults, done);
    forall path | !(places.Root() <= path) && !(places.Guard() <= path) ensures SameAt(before, after, path) {
      assert SameAt(before, returned, path);
      GuardRemovedAt(returned, after, places, faults, path);
    }
    GuardRemovedAt(returned, after, places, faults, places.Root());
    forall path | places.Guard() !in before && places.Guard() <= path && path in after
      ensures path == places.Guard() && RemoveGuard in faults
    {
      assert path == places.Guard() || places.Guard() < path;
    }
  }
}
