/** The bounded walk over included requirement files in `validatePipRequirementInputs` of
    `src/agent/agent-resolution.service.ts`. What a file is and what its lines say are parameters. */
module PipRequirements {
  import opened Options

  /** A logical line: an include of a file, given by its resolved path, or any other, allowed or not. */
  datatype Line = Include(file: string) | Accepted | Refused

  datatype Content = Content(canonicalPath: string, digest: string, size: nat, lines: Option<seq<Line>>)

  /** What is found at a path: whether it may be used, its canonical path, and what reading gives. */
  datatype Facts = Facts(allowed: bool, canonical: string, content: Option<Content>)

  type Host = string -> Facts

  datatype Authorization = Authorization(path: string, canonicalPath: string, digest: string)

  const MAX_DEPTH: nat := 8
  const MAX_FILES: nat := 64
  const MAX_BYTES: nat := 1024 * 1024

  // ---------------------------------------------------------------- the include tree

  /** Files, each with the files it includes, and the files behind it. */
  datatype Forest = Empty | Visit(file: string, includes: Forest, rest: Forest)

  function Includes(lines: seq<Line>): seq<string> {
    if lines == [] then []
    else var last := lines[|lines| - 1];
         Includes(lines[..|lines| - 1]) + if last.Include? then [last.file] else []
  }

  ghost predicate NoneRefused(lines: seq<Line>) {
    forall k :: 0 <= k < |lines| ==> !lines[k].Refused?
  }

  /** The file may be read, is what its path says, and every line is in order. */
  ghost predicate IsUsable(host: Host, file: string) {
    var facts := host(file);
    && facts.allowed && facts.content.Some? && facts.content.value.canonicalPath == facts.canonical
    && facts.content.value.lines.Some? && NoneRefused(facts.content.value.lines.value)
  }

  function LinesOf(host: Host, file: string): seq<Line> {
    var content := host(file).content;
    if content.Some? && content.value.lines.Some? then content.value.lines.value else []
  }

  /** The forest that including unfolds these files to. */
  ghost predicate IsForest(host: Host, forest: Forest, files: seq<string>) {
    match forest
    case Empty => files == []
    case Visit(file, includes, rest) =>
      && files != [] && files[0] == file && IsUsable(host, file)
      && IsForest(host, includes, Includes(LinesOf(host, file))) && IsForest(host, rest, files[1..])
  }

  function Count(forest: Forest): nat {
    match forest case Empty => 0 case Visit(_, includes, rest) => 1 + Count(includes) + Count(rest)
  }

  function SizeOf(host: Host, file: string): nat {
    if host(file).content.Some? then host(file).content.value.size else 0
  }

  function Bytes(host: Host, forest: Forest): nat {
    match forest
    case Empty => 0
    case Visit(file, includes, rest) => SizeOf(host, file) + Bytes(host, includes) + Bytes(host, rest)
  }

  /** The number of levels. */
  function Levels(forest: Forest): nat {
    match forest
    case Empty => 0
    case Visit(_, includes, rest) => if 1 + Levels(includes) > Levels(rest) then 1 + Levels(includes) else Levels(rest)
  }

  function AuthorizationOf(host: Host, file: string): Authorization {
    var facts := host(file);
    Authorization(file, facts.canonical, if facts.content.Some? then facts.content.value.digest else "")
  }

  function Preorder(host: Host, forest: Forest): seq<Authorization> {
    match forest
    case Empty => []
    case Visit(file, includes, rest) => [AuthorizationOf(host, file)] + Preorder(host, includes) + Preorder(host, rest)
  }

  /** No file is one of its own ancestors, or of those given. */
  predicate NoAncestorRepeats(host: Host, forest: Forest, ancestors: seq<string>) {
    match forest
    case Empty => true
    case Visit(file, includes, rest) =>
      && host(file).canonical !in ancestors
      && NoAncestorRepeats(host, includes, ancestors + [host(file).canonical])
      && NoAncestorRepeats(host, rest, ancestors)
  }

  function Append(left: Forest, right: Forest): Forest {
    match left case Empty => right case Visit(file, includes, rest) => Visit(file, includes, Append(rest, right))
  }

  lemma {:induction false} AppendAdds(host: Host, left: Forest, right: Forest, ancestors: seq<string>)
    ensures Count(Append(left, right)) == Count(left) + Count(right)
    ensures Bytes(host, Append(left, right)) == Bytes(host, left) + Bytes(host, right)
    ensures Levels(Append(left, right)) == if Levels(left) > Levels(right) then Levels(left) else Levels(right)
    ensures NoAncestorRepeats(host, Append(left, right), ancestors)
      <==> NoAncestorRepeats(host, left, ancestors) && NoAncestorRepeats(host, right, ancestors)
  {
    if left.Visit? {
      AppendAdds(host, left.rest, right, ancestors);
    }
  }

  lemma {:induction false} AppendInOrder(host: Host, left: Forest, right: Forest)
    ensures Preorder(host, Append(left, right)) == Preorder(host, left) + Preorder(host, right)
  {
    if left.Visit? {
      AppendInOrder(host, left.rest, right);
      var head := [AuthorizationOf(host, left.file)] + Preorder(host, left.includes);
      assert head + (Preorder(host, left.rest) + Preorder(host, right)) == head + Preorder(host, left.rest)
             + Preorder(host, right);
    }
  }

  lemma VisitIsForest(host: Host, file: string, includes: Forest, rest: Forest, files: seq<string>)
    requires files != [] && files[0] == file && IsUsable(host, file)
    requires IsForest(host, includes, Includes(LinesOf(host, file))) && IsForest(host, rest, files[1..])
    ensures IsForest(host, Visit(file, includes, rest), files)
  {
  }

  lemma {:induction false} AppendIsForest(host: Host, left: Forest, right: Forest, files: seq<string>,
                                          more: seq<string>)
    requires IsForest(host, left, files) && IsForest(host, right, more)
    ensures IsForest(host, Append(left, right), files + more)
  {
    if left.Visit? {
      AppendIsForest(host, left.rest, right, files[1..], more);
      assert (files + more)[1..] == files[1..] + more && (files + more)[0] == files[0];
      VisitIsForest(host, left.file, left.includes, Append(left.rest, right), files + more);
    } else {
      assert files + more == more;
    }
  }

  /** Files unfold in one way only. */
  lemma {:induction false} ForestIsUnique(host: Host, one: Forest, other: Forest, files: seq<string>)
    requires IsForest(host, one, files) && IsForest(host, other, files)
    ensures one == other
    decreases one
  {
    if one.Visit? && other.Visit? {
      ForestIsUnique(host, one.includes, other.includes, Includes(LinesOf(host, one.file)));
      ForestIsUnique(host, one.rest, other.rest, files[1..]);
    }
  }

  lemma {:induction false} ForestSplits(host: Host, forest: Forest, files: seq<string>, more: seq<string>)
    returns (left: Forest, right: Forest)
    requires IsForest(host, forest, files + more)
    ensures forest == Append(left, right) && IsForest(host, left, files) && IsForest(host, right, more)
    decreases forest
  {
    if files == [] {
      assert files + more == more;
      left, right := Empty, forest;
    } else {
      assert (files + more)[1..] == files[1..] + more;
      var rest, behind := ForestSplits(host, forest.rest, files[1..], more);
      left, right := Visit(forest.file, forest.includes, rest), behind;
    }
  }

  // ---------------------------------------------------------------- what may be walked

  /** The walk's variables. */
  datatype State = State(visited: seq<string>, authorizations: seq<Authorization>, fileCount: nat, totalBytes: nat)

  /** The forest keeps the bounds when it is entered at this depth in this state. */
  ghost predicate Fits(host: Host, forest: Forest, depth: nat, state: State) {
    && depth + Levels(forest) <= 9
    && state.fileCount + Count(forest) <= 64
    && state.totalBytes + Bytes(host, forest) <= 0x100000
    && NoAncestorRepeats(host, forest, state.visited)
  }

  /** Walking a forest adds its files in preorder and leaves the stack as it was. */
  function After(host: Host, forest: Forest, state: State): State {
    State(state.visited, state.authorizations + Preorder(host, forest), state.fileCount + Count(forest),
          state.totalBytes + Bytes(host, forest))
  }

  lemma AppendFits(host: Host, left: Forest, right: Forest, depth: nat, state: State)
    requires state.fileCount <= MAX_FILES && state.totalBytes <= MAX_BYTES && depth <= MAX_DEPTH + 1
    ensures Fits(host, Append(left, right), depth, state)
      <==> Fits(host, left, depth, state) && Fits(host, right, depth, After(host, left, state))
  {
    AppendAdds(host, left, right, state.visited);
    StackIsRestored(host, left, state);
  }

  lemma StackIsRestored(host: Host, forest: Forest, state: State)
    ensures After(host, forest, state).visited == state.visited
  {
  }

  lemma AppendAfter(host: Host, left: Forest, right: Forest, state: State)
    ensures After(host, Append(left, right), state) == After(host, right, After(host, left, state))
  {
    AppendAdds(host, left, right, state.visited);
    AppendInOrder(host, left, right);
    Associated(state.authorizations, Preorder(host, left), Preorder(host, right));
  }

  lemma Associated(a: seq<Authorization>, b: seq<Authorization>, c: seq<Authorization>)
    ensures a + (b + c) == a + b + c
  {
  }

  /** There is a forest of the files that keeps the bounds. */
  ghost predicate CanWalk(host: Host, files: seq<string>, depth: nat, state: State) {
    exists forest :: IsForest(host, forest, files) && Fits(host, forest, depth, state)
  }

  lemma MiddleFits(host: Host, forest: Forest, done: Forest, files: seq<string>, file: string, more: seq<string>,
                   depth: nat, state: State)
    requires IsForest(host, forest, files + ([file] + more)) && Fits(host, forest, depth, state)
             && IsForest(host, done, files)
    requires state.fileCount <= MAX_FILES && state.totalBytes <= MAX_BYTES && depth <= MAX_DEPTH + 1
    ensures CanWalk(host, [file], depth, After(host, done, state))
  {
    var left, right := ForestSplits(host, forest, files, [file] + more);
    ForestIsUnique(host, left, done, files);
    AppendFits(host, left, right, depth, state);
    FirstFits(host, right, file, more, depth, After(host, done, state));
  }

  lemma FirstFits(host: Host, forest: Forest, file: string, more: seq<string>, depth: nat, state: State)
    requires IsForest(host, forest, [file] + more) && Fits(host, forest, depth, state) && depth <= MAX_DEPTH + 1
    ensures CanWalk(host, [file], depth, state)
  {
    var first, rest := ForestSplits(host, forest, [file], more);
    AppendFits(host, first, rest, depth, state);
  }

  lemma NextFails(host: Host, done: Forest, files: seq<string>, file: string, more: seq<string>, depth: nat,
                  state: State)
    requires IsForest(host, done, files) && !CanWalk(host, [file], depth, After(host, done, state))
    requires state.fileCount <= MAX_FILES && state.totalBytes <= MAX_BYTES && depth <= MAX_DEPTH + 1
    ensures !CanWalk(host, files + [file] + more, depth, state)
  {
    assert files + [file] + more == files + ([file] + more);
    if CanWalk(host, files + [file] + more, depth, state) {
      var forest :| IsForest(host, forest, files + [file] + more) && Fits(host, forest, depth, state);
      MiddleFits(host, forest, done, files, file, more, depth, state);
    }
  }

  class Walk {
    const host: Host
    var visited: seq<string>
    var authorizations: seq<Authorization>
    var fileCount: nat
    var totalBytes: nat

    ghost function Now(): State
      reads this
    {
      State(visited, authorizations, fileCount, totalBytes)
    }

    ghost predicate WithinBounds()
      reads this
    {
      fileCount <= MAX_FILES && totalBytes <= MAX_BYTES
    }

    constructor (host: Host)
      ensures this.host == host && Now() == State([], [], 0, 0)
    {
      this.host := host;
      visited, authorizations, fileCount, totalBytes := [], [], 0, 0;
    }

    /** The recursive function of the source: it succeeds exactly when the file's include tree exists and keeps the
        bounds. */
    method VisitFile(file: string, depth: nat) returns (ok: bool, ghost tree: Forest)
      requires WithinBounds() && depth <= MAX_DEPTH + 1
      modifies this
      ensures ok <==> CanWalk(host, [file], depth, old(Now()))
      ensures ok
        ==> IsForest(host, tree, [file]) && Fits(host, tree, depth, old(Now()))
            && Now() == After(host, tree, old(Now()))
      decreases MAX_DEPTH + 1 - depth, 1
    {
      ghost var before := Now();
      tree := Empty;
      ok := Enter(file, depth);
      if !ok { return; }
      ghost var includes;
      ok, includes := VisitLines(host(file).content.value.lines.value, depth);
      TreeOfFile(host, file, includes, depth, before, ok);
      if !ok { return; }
      visited := visited[..|visited| - 1];
      tree := Visit(file, includes, Empty);
      assert visited == before.visited;
    }

    /** What is checked and recorded before a file's lines are looked at. */
    method Enter(file: string, depth: nat) returns (ok: bool)
      requires WithinBounds()
      modifies this
      ensures ok ==> CanEnter(host, file, depth, old(Now())) && Now() == Entered(host, file, old(Now()))
      ensures !ok ==> !CanWalk(host, [file], depth, old(Now()))
    {
      ghost var before := Now();
      if !CanEnter(host, file, depth, before) { CannotEnter(host, file, depth, before); }
      var facts := host(file);
      if depth > MAX_DEPTH || fileCount >= MAX_FILES || !facts.allowed || facts.canonical in visited { return false; }
      visited := visited + [facts.canonical];
      fileCount := fileCount + 1;
      if facts.content.None? || facts.content.value.canonicalPath != facts.canonical { return false; }
      var content := facts.content.value;
      authorizations := authorizations + [Authorization(file, content.canonicalPath, content.digest)];
      totalBytes := totalBytes + content.size;
      return totalBytes <= MAX_BYTES && content.lines.Some?;
    }

    /** The loop over a file's lines. */
    method VisitLines(lines: seq<Line>, depth: nat) returns (ok: bool, ghost forest: Forest)
      requires WithinBounds() && depth <= MAX_DEPTH
      modifies this
      ensures ok <==> NoneRefused(lines) && CanWalk(host, Includes(lines), depth + 1, old(Now()))
      ensures ok
        ==> IsForest(host, forest, Includes(lines)) && Fits(host, forest, depth + 1, old(Now()))
            && Now() == After(host, forest, old(Now()))
      decreases MAX_DEPTH + 1 - depth, 0
    {
      ghost var before := Now();
      forest := Empty;
      for k := 0 to |lines|
        invariant NoneRefused(lines[..k]) && IsWalked(host, forest, Includes(lines[..k]), depth + 1, before, Now())
      {
        LinesOfOneMore(lines, k);
        if lines[k].Refused? { return false, forest; }
        if lines[k].Include? {
          ghost var tree;
          ok, tree := VisitFile(lines[k].file, depth + 1);
          if !ok {
            IncludeFails(host, forest, lines, k, depth + 1, before);
            return;
          }
          WalkedOneMore(host, forest, tree, Includes(lines[..k]), lines[k].file, depth + 1, before);
          forest := Append(forest, tree);
        }
      }
      ok := true;
      assert lines[..|lines|] == lines;
    }
  }

  /** The walk has gone through these files and kept the bounds. */
  ghost predicate IsWalked(host: Host, forest: Forest, files: seq<string>, depth: nat, before: State, now: State) {
    IsForest(host, forest, files) && Fits(host, forest, depth, before) && now == After(host, forest, before)
  }

  lemma LinesOfOneMore(lines: seq<Line>, k: nat)
    requires k < |lines|
    ensures Includes(lines[..k + 1]) == if lines[k].Include? then Includes(lines[..k]) + [lines[k].file]
                                        else Includes(lines[..k])
    ensures NoneRefused(lines[..k + 1]) <==> NoneRefused(lines[..k]) && !lines[k].Refused?
    ensures lines[k].Refused? ==> !NoneRefused(lines)
  {
    assert lines[..k + 1][..k] == lines[..k];
    assert lines[..k + 1] == lines[..k] + [lines[k]];
    assert Includes(lines[..k]) + [] == Includes(lines[..k]);
  }

  lemma WalkedOneMore(host: Host, done: Forest, tree: Forest, files: seq<string>, file: string, depth: nat,
                      before: State)
    requires before.fileCount <= MAX_FILES && before.totalBytes <= MAX_BYTES && depth <= MAX_DEPTH + 1
    requires IsForest(host, done, files) && Fits(host, done, depth, before)
    requires IsForest(host, tree, [file]) && Fits(host, tree, depth, After(host, done, before))
    ensures IsWalked(host, Append(done, tree), files + [file], depth, before,
                     After(host, tree, After(host, done, before)))
  {
    AppendIsForest(host, done, tree, files, [file]);
    AppendFits(host, done, tree, depth, before);
    AppendAfter(host, done, tree, before);
  }

  ghost predicate CanEnter(host: Host, file: string, depth: nat, state: State) {
    var facts := host(file);
    && depth <= MAX_DEPTH && state.fileCount < MAX_FILES && facts.allowed && facts.canonical !in state.visited
    && facts.content.Some? && facts.content.value.canonicalPath == facts.canonical && facts.content.value.lines.Some?
    && state.totalBytes + facts.content.value.size <= MAX_BYTES
  }

  lemma CannotEnter(host: Host, file: string, depth: nat, state: State)
    requires !CanEnter(host, file, depth, state)
    ensures !CanWalk(host, [file], depth, state)
  {
    forall forest | IsForest(host, forest, [file]) ensures !Fits(host, forest, depth, state) {
      assert forest.Visit? && forest.file == file;
    }
  }

  lemma {:induction false} IncludesOfPart(lines: seq<Line>, k: nat) returns (more: seq<string>)
    requires k <= |lines|
    ensures Includes(lines) == Includes(lines[..k]) + more
  {
    if k == |lines| {
      assert lines[..k] == lines;
      more := [];
    } else {
      var shorter, last := lines[..|lines| - 1], lines[|lines| - 1];
      var before := IncludesOfPart(shorter, k);
      assert shorter[..k] == lines[..k];
      more := before + if last.Include? then [last.file] else [];
      assert Includes(lines[..k]) + before + (if last.Include? then [last.file] else []) == Includes(lines[..k]) + more;
    }
  }

  lemma IncludeFails(host: Host, done: Forest, lines: seq<Line>, k: nat, depth: nat, state: State)
    requires k < |lines| && lines[k].Include? && IsForest(host, done, Includes(lines[..k]))
    requires !CanWalk(host, [lines[k].file], depth, After(host, done, state))
    requires state.fileCount <= MAX_FILES && state.totalBytes <= MAX_BYTES && depth <= MAX_DEPTH + 1
    ensures !CanWalk(host, Includes(lines), depth, state)
  {
    assert lines[..k + 1][..k] == lines[..k];
    var more := IncludesOfPart(lines, k + 1);
    NextFails(host, done, Includes(lines[..k]), lines[k].file, more, depth, state);
  }

  /** The state in which a file's lines are walked. */
  function Entered(host: Host, file: string, state: State): State {
    State(state.visited + [host(file).canonical], state.authorizations + [AuthorizationOf(host, file)],
          state.fileCount + 1,
          state.totalBytes + SizeOf(host, file))
  }

  lemma TreeOfFile(host: Host, file: string, includes: Forest, depth: nat, state: State, ok: bool)
    requires CanEnter(host, file, depth, state)
    requires ok
      <==> NoneRefused(LinesOf(host, file))
           && CanWalk(host, Includes(LinesOf(host, file)), depth + 1, Entered(host, file, state))
    requires ok
      ==> IsForest(host, includes, Includes(LinesOf(host, file)))
          && Fits(host, includes, depth + 1, Entered(host, file, state))
    ensures ok <==> CanWalk(host, [file], depth, state)
    ensures ok
      ==> IsForest(host, Visit(file, includes, Empty), [file]) && Fits(host, Visit(file, includes, Empty), depth, state)
    ensures After(host, includes, Entered(host, file, state)).(visited := state.visited)
            == After(host, Visit(file, includes, Empty), state)
  {
    AuthorizationsInOrder(state.authorizations, AuthorizationOf(host, file), Preorder(host, includes));
    var tree := Visit(file, includes, Empty);
    assert Preorder(host, tree) == [AuthorizationOf(host, file)] + Preorder(host, includes) + [];
    assert Count(tree) == 1 + Count(includes) && Bytes(host, tree) == SizeOf(host, file) + Bytes(host, includes);
    assert [file][1..] == [];
    if ok { assert IsForest(host, tree, [file]) && Fits(host, tree, depth, state); }
    forall forest | IsForest(host, forest, [file]) && Fits(host, forest, depth, state) ensures ok {
      LoneTree(host, forest, file);
      assert Fits(host, forest.includes, depth + 1, Entered(host, file, state));
    }
  }

  lemma LoneTree(host: Host, forest: Forest, file: string)
    requires IsForest(host, forest, [file])
    ensures forest.Visit? && forest.rest.Empty? && forest.file == file
            && IsForest(host, forest.includes, Includes(LinesOf(host, file)))
    ensures IsUsable(host, file)
  {
    assert [file][1..] == [];
  }

  lemma AuthorizationsInOrder(before: seq<Authorization>, own: Authorization, nested: seq<Authorization>)
    ensures before + [own] + nested == before + ([own] + nested + [])
  {
  }

  // ---------------------------------------------------------------- the whole validation

  const START := State([], [], 0, 0)

  /** All files named on the command line. The walk succeeds exactly when their include forest exists and keeps every
      bound, and then it authorizes its files in preorder. */
  method ValidatePipRequirements(host: Host, files: seq<string>)
    returns (ok: bool, authorizations: seq<Authorization>, ghost forest: Forest)
    ensures ok <==> CanWalk(host, files, 0, START)
    ensures ok
      ==> IsForest(host, forest, files) && Fits(host, forest, 0, START) && authorizations == Preorder(host, forest)
    ensures ok ==> |authorizations| <= 64 && TotalSize(host, authorizations) <= 0x100000
    ensures ok ==> forall k :: 0 <= k < |authorizations| ==> IsAuthorizationOf(host, authorizations[k])
  {
    var walk := new Walk(host);
    ok, forest := VisitEntries(walk, files);
    authorizations := walk.authorizations;
    PreorderCounts(host, forest);
    if ok { PreorderIsUsable(host, forest, files); }
  }

  /** The size of what was read, file by file. */
  ghost function TotalSize(host: Host, authorizations: seq<Authorization>): nat {
    if authorizations == [] then 0
    else var content := host(authorizations[0].path).content;
         (if content.Some? then content.value.size else 0) + TotalSize(host, authorizations[1..])
  }

  /** The file may be read, and path, canonical path and digest are those of what is read there. */
  ghost predicate IsAuthorizationOf(host: Host, authorization: Authorization) {
    var facts := host(authorization.path);
    && facts.allowed && facts.content.Some? && authorization.canonicalPath == facts.canonical
    && facts.canonical == facts.content.value.canonicalPath && authorization.digest == facts.content.value.digest
  }

  lemma {:induction false} PreorderIsUsable(host: Host, forest: Forest, files: seq<string>)
    requires IsForest(host, forest, files)
    ensures forall k :: 0 <= k < |Preorder(host, forest)| ==> IsAuthorizationOf(host, Preorder(host, forest)[k])
    decreases forest
  {
    if forest.Visit? {
      PreorderIsUsable(host, forest.includes, Includes(LinesOf(host, forest.file)));
      PreorderIsUsable(host, forest.rest, files[1..]);
    }
  }

  lemma {:induction false} TotalOfBoth(host: Host, one: seq<Authorization>, other: seq<Authorization>)
    ensures TotalSize(host, one + other) == TotalSize(host, one) + TotalSize(host, other)
  {
    if one == [] {
      assert one + other == other;
    } else {
      assert (one + other)[1..] == one[1..] + other;
      TotalOfBoth(host, one[1..], other);
    }
  }

  method VisitEntries(walk: Walk, files: seq<string>) returns (ok: bool, ghost forest: Forest)
    requires walk.WithinBounds()
    modifies walk
    ensures ok <==> CanWalk(walk.host, files, 0, old(walk.Now()))
    ensures ok ==> IsWalked(walk.host, forest, files, 0, old(walk.Now()), walk.Now())
  {
    forest := Empty;
    ghost var start := walk.Now();
    for k := 0 to |files|
      invariant IsWalked(walk.host, forest, files[..k], 0, start, walk.Now())
    {
      ghost var tree;
      ok, tree := walk.VisitFile(files[k], 0);
      if !ok {
        EntryFails(walk.host, forest, files, k, 0, start);
        return;
      }
      EntryWalked(walk.host, forest, tree, files, k, 0, start);
      forest := Append(forest, tree);
    }
    ok := true;
    assert files[..|files|] == files;
  }

  lemma EntryFails(host: Host, done: Forest, files: seq<string>, k: nat, depth: nat, start: State)
    requires k < |files| && IsForest(host, done, files[..k])
             && !CanWalk(host, [files[k]], depth, After(host, done, start))
    requires start.fileCount <= MAX_FILES && start.totalBytes <= MAX_BYTES && depth <= MAX_DEPTH + 1
    ensures !CanWalk(host, files, depth, start)
  {
    assert files == files[..k] + [files[k]] + files[k + 1..];
    NextFails(host, done, files[..k], files[k], files[k + 1..], depth, start);
  }

  lemma EntryWalked(host: Host, done: Forest, tree: Forest, files: seq<string>, k: nat, depth: nat, start: State)
    requires start.fileCount <= MAX_FILES && start.totalBytes <= MAX_BYTES && depth <= MAX_DEPTH + 1
    requires k < |files| && IsForest(host, done, files[..k]) && Fits(host, done, depth, start)
    requires IsForest(host, tree, [files[k]]) && Fits(host, tree, depth, After(host, done, start))
    ensures IsWalked(host, Append(done, tree), files[..k + 1], depth, start,
                     After(host, tree, After(host, done, start)))
  {
    assert files[..k + 1] == files[..k] + [files[k]];
    WalkedOneMore(host, done, tree, files[..k], files[k], depth, start);
  }

  lemma {:induction false} PreorderCounts(host: Host, forest: Forest)
    ensures |Preorder(host, forest)| == Count(forest) && TotalSize(host, Preorder(host, forest)) == Bytes(host, forest)
  {
    if forest.Visit? {
      var first, includes, rest := [AuthorizationOf(host, forest.file)], Preorder(host, forest.includes),
                                   Preorder(host, forest.rest);
      PreorderCounts(host, forest.includes);
      PreorderCounts(host, forest.rest);
      TotalOfBoth(host, first + includes, rest);
      TotalOfBoth(host, first, includes);
      assert first[1..] == [];
    }
  }

  // ---------------------------------------------------------------- include cycles

  predicate IncludesFile(host: Host, file: string, other: string) {
    other in Includes(LinesOf(host, file))
  }

  /** Each file includes the next. */
  ghost predicate IsIncludePath(host: Host, path: seq<string>) {
    path != [] && forall k :: 0 <= k < |path| - 1 ==> IncludesFile(host, path[k], path[k + 1])
  }

  lemma {:induction false} TreeOfMember(host: Host, forest: Forest, files: seq<string>, file: string,
                                        ancestors: seq<string>)
    returns (tree: Forest)
    requires IsForest(host, forest, files) && file in files && NoAncestorRepeats(host, forest, ancestors)
    ensures IsForest(host, tree, [file]) && NoAncestorRepeats(host, tree, ancestors)
    decreases forest
  {
    if files[0] == file {
      tree := Visit(file, forest.includes, Empty);
      assert [file][1..] == [];
    } else {
      tree := TreeOfMember(host, forest.rest, files[1..], file, ancestors);
    }
  }

  /** Along includes, the canonical paths of all files passed are among the ancestors of the tree that is reached. */
  lemma {:induction false} TreeAlongPath(host: Host, tree: Forest, path: seq<string>, k: nat)
    returns (lower: Forest, ancestors: seq<string>)
    requires IsIncludePath(host, path) && k < |path|
    requires IsForest(host, tree, [path[0]]) && NoAncestorRepeats(host, tree, [])
    ensures IsForest(host, lower, [path[k]]) && NoAncestorRepeats(host, lower, ancestors)
    ensures forall m :: 0 <= m < k ==> host(path[m]).canonical in ancestors
  {
    if k == 0 {
      lower, ancestors := tree, [];
    } else {
      var before, passed := TreeAlongPath(host, tree, path, k - 1);
      LoneTree(host, before, path[k - 1]);
      assert IncludesFile(host, path[k - 1], path[(k - 1) + 1]);
      ancestors := passed + [host(path[k - 1]).canonical];
      lower := TreeOfMember(host, before.includes, Includes(LinesOf(host, path[k - 1])), path[k], ancestors);
    }
  }

  /** Each step along includes is a level further down. */
  lemma {:induction false} LevelsAlongPath(host: Host, forest: Forest, files: seq<string>, path: seq<string>)
    requires IsForest(host, forest, files) && IsIncludePath(host, path) && path[0] in files
    ensures |path| <= Levels(forest)
    decreases forest
  {
    if files[0] == path[0] {
      if |path| > 1 {
        assert IncludesFile(host, path[0], path[0 + 1]);
        LaterIncludes(host, path);
        LevelsAlongPath(host, forest.includes, Includes(LinesOf(host, path[0])), path[1..]);
      }
    } else {
      LevelsAlongPath(host, forest.rest, files[1..], path);
    }
  }

  lemma LaterIncludes(host: Host, path: seq<string>)
    requires IsIncludePath(host, path) && |path| > 1
    ensures IsIncludePath(host, path[1..])
  {
    forall k | 0 <= k < |path[1..]| - 1 ensures IncludesFile(host, path[1..][k], path[1..][k + 1]) {
      assert IncludesFile(host, path[k + 1], path[k + 1 + 1]);
    }
  }

  /** Files included more than eight levels below one that is named make the walk fail. */
  lemma DeepPathsFail(host: Host, files: seq<string>, path: seq<string>)
    requires IsIncludePath(host, path) && path[0] in files && |path| > 9
    ensures !CanWalk(host, files, 0, START)
  {
    if CanWalk(host, files, 0, START) {
      var forest :| IsForest(host, forest, files) && Fits(host, forest, 0, START);
      LevelsAlongPath(host, forest, files, path);
    }
  }

  /** A file that leads to itself, under whatever names and through whatever links, makes the walk fail wherever it is
      reachable from. */
  lemma CyclesFail(host: Host, files: seq<string>, path: seq<string>, i: nat, j: nat)
    requires IsIncludePath(host, path) && path[0] in files
    requires i < j < |path| && host(path[i]).canonical == host(path[j]).canonical
    ensures !CanWalk(host, files, 0, START)
  {
    if CanWalk(host, files, 0, START) {
      var forest :| IsForest(host, forest, files) && Fits(host, forest, 0, START);
      var root := TreeOfMember(host, forest, files, path[0], []);
      var lower, ancestors := TreeAlongPath(host, root, path, j);
      LoneTree(host, lower, path[j]);
    }
  }
}
