/** Path claims of a profile's resources and their conflicts: `validateResourcePathConflicts` of
    `src/domain/profile.ts`. */
module PathConflicts {
  import opened Options
  import opened Sorting
  import opened TargetPaths

  datatype Kind = File | Directory | Config | Skill | Tool | Credential

  datatype Entry = Entry(path: string, isDirectory: bool)

  datatype Resource = Resource(id: string, kind: Kind, target: string, entries: seq<Entry>)

  /** A managed path below a target. */
  datatype EntryClaim = EntryClaim(path: string, rawPath: string, isDirectory: bool)

  datatype Claim = Claim(id: string, target: string, path: string, rawPath: string, isRoot: bool, isDirectory: bool)

  datatype Clash =
    | DeclaredTwice(path: string)
    | ManagedOverlap(path: string, other: string)
    | TargetOverlap(path: string, other: string)

  datatype PathError =
    | InvalidTarget(id: string, target: string, reason: Issue)
    | Conflict(id: string, target: string, conflictsWith: string, clash: Clash)

  // ---------------------------------------------------------------- collecting claims

  predicate EntryLe(left: Entry, right: Entry) {
    TextLe(left.path, right.path)
  }

  predicate ResourceLe(left: Resource, right: Resource) {
    TextLe(left.id, right.id)
  }

  function AcceptedClaims(target: string, entries: seq<Entry>, platform: Platform): seq<EntryClaim> {
    if entries == [] then []
    else
      var before, last := AcceptedClaims(target, entries[..|entries| - 1], platform), entries[|entries| - 1];
      if InvalidRelativeTargetReason(last.path, platform).Some? then before
      else before + [EntryClaim(NormalizedPath(target + "/" + last.path, platform), last.path, last.isDirectory)]
  }

  function EntryClaims(resource: Resource, platform: Platform): seq<EntryClaim> {
    AcceptedClaims(resource.target, Sort(resource.entries, EntryLe), platform)
  }

  ghost predicate RefusesEntry(resource: Resource, entries: seq<Entry>, platform: Platform, error: PathError) {
    && error.InvalidTarget? && error.id == resource.id
    && InvalidRelativeTargetReason(error.target, platform) == Some(error.reason)
    && Declares(entries, error.target)
  }

  ghost predicate Declares(entries: seq<Entry>, path: string) {
    exists k :: 0 <= k < |entries| && entries[k].path == path
  }

  ghost predicate RefusesTarget(resource: Resource, error: PathError) {
    && error.InvalidTarget? && error.id == resource.id && error.target == resource.target
    && InvalidTargetReason(resource.target) == Some(error.reason)
  }

  ghost predicate Refuses(resource: Resource, platform: Platform, error: PathError) {
    RefusesTarget(resource, error) || RefusesEntry(resource, resource.entries, platform, error)
  }

  ghost predicate Refused(resources: seq<Resource>, platform: Platform, error: PathError) {
    exists k :: 0 <= k < |resources| && Refuses(resources[k], platform, error)
  }

  /** The errors for entries, one after the other. */
  function EntryErrors(id: string, entries: seq<Entry>, platform: Platform): seq<PathError> {
    if entries == [] then []
    else
      var before, last := EntryErrors(id, entries[..|entries| - 1], platform), entries[|entries| - 1];
      var reason := InvalidRelativeTargetReason(last.path, platform);
      if reason.Some? then before + [InvalidTarget(id, last.path, reason.value)] else before
  }

  lemma {:induction false} EntryErrorsRefuse(resource: Resource, entries: seq<Entry>, platform: Platform,
                                             error: PathError)
    ensures error in EntryErrors(resource.id, entries, platform) <==> RefusesEntry(resource, entries, platform, error)
  {
    if entries != [] {
      EntryErrorsRefuse(resource, entries[..|entries| - 1], platform, error);
      OneMoreEntry(entries, |entries| - 1, error.target);
      assert entries[..|entries| - 1 + 1] == entries;
    }
  }

  lemma OneMoreEntry(entries: seq<Entry>, k: nat, path: string)
    requires k < |entries|
    ensures Declares(entries[..k + 1], path) <==> Declares(entries[..k], path) || path == entries[k].path
  {
    var more, fewer := entries[..k + 1], entries[..k];
    assert more[k] == entries[k] && forall j :: 0 <= j < k ==> more[j] == fewer[j];
    if Declares(fewer, path) {
      var j :| 0 <= j < |fewer| && fewer[j].path == path;
      assert more[j].path == path;
    }
  }

  lemma OneMoreClaim(resource: Resource, entries: seq<Entry>, k: nat, platform: Platform)
    requires k < |entries|
    ensures
      var path, before := entries[k].path, entries[..k];
      var claims, errors := AcceptedClaims(resource.target, before, platform),
                            EntryErrors(resource.id, before, platform);
      var reason := InvalidRelativeTargetReason(path, platform);
      && AcceptedClaims(resource.target, entries[..k + 1], platform)
         == (if reason.Some? then claims
             else claims + [EntryClaim(NormalizedPath(resource.target + "/" + path, platform), path,
                                       entries[k].isDirectory)])
      && EntryErrors(resource.id, entries[..k + 1], platform)
         == (if reason.Some? then errors + [InvalidTarget(resource.id, path, reason.value)] else errors)
  {
    assert entries[..k + 1][..k] == entries[..k];
  }

  method CanonicalResourcePathClaims(resource: Resource, platform: Platform)
    returns (claims: seq<EntryClaim>, errors: seq<PathError>)
    ensures claims == EntryClaims(resource, platform)
    ensures errors == EntryErrors(resource.id, Sort(resource.entries, EntryLe), platform)
  {
    var entries := Sort(resource.entries, EntryLe);
    claims, errors := [], [];
    for k := 0 to |entries|
      invariant claims == AcceptedClaims(resource.target, entries[..k], platform)
      invariant errors == EntryErrors(resource.id, entries[..k], platform)
    {
      var entry := entries[k];
      OneMoreClaim(resource, entries, k, platform);
      var reason := InvalidRelativeTargetReason(entry.path, platform);
      if reason.Some? {
        errors := errors + [InvalidTarget(resource.id, entry.path, reason.value)];
        continue;
      }
      var path := NormalizedTargetPath(resource.target + "/" + entry.path, platform);
      claims := claims + [EntryClaim(path, entry.path, entry.isDirectory)];
    }
    assert entries[..|entries|] == entries;
  }

  lemma SortedEntriesRefuseTheSame(resource: Resource, platform: Platform, error: PathError)
    ensures RefusesEntry(resource, Sort(resource.entries, EntryLe), platform, error)
      <==> RefusesEntry(resource, resource.entries, platform, error)
  {
    EntryLeIsTotalPreorder();
    SortIsSorted(resource.entries, EntryLe);
    SameMembers(resource.entries, Sort(resource.entries, EntryLe));
    DeclaresMeansAmong(resource.entries, error.target);
    DeclaresMeansAmong(Sort(resource.entries, EntryLe), error.target);
  }

  lemma DeclaresMeansAmong(entries: seq<Entry>, path: string)
    ensures Declares(entries, path) <==> exists entry :: entry in entries && entry.path == path
  {
  }

  lemma SameMembers<T>(one: seq<T>, other: seq<T>)
    requires multiset(one) == multiset(other)
    ensures forall x :: x in one <==> x in other
  {
    forall x ensures x in one <==> x in other {
      assert x in one <==> x in multiset(one);
      assert x in other <==> x in multiset(other);
    }
  }

  lemma EntryLeIsTotalPreorder()
    ensures TotalPreorder(EntryLe)
  {
    TextLeIsTotalPreorder();
    forall x, y, z | EntryLe(x, y) && EntryLe(y, z)
      ensures EntryLe(x, z) { TextLeIsTransitive(x.path, y.path, z.path); }
    forall x, y ensures EntryLe(x, y) || EntryLe(y, x) { TextLeIsTotal(x.path, y.path); }
  }

  lemma ResourceLeIsTotalPreorder()
    ensures TotalPreorder(ResourceLe)
  {
    forall x, y, z | ResourceLe(x, y) && ResourceLe(y, z)
      ensures ResourceLe(x, z) { TextLeIsTransitive(x.id, y.id, z.id); }
    forall x, y ensures ResourceLe(x, y) || ResourceLe(y, x) { TextLeIsTotal(x.id, y.id); }
  }

  type ClaimIndex = map<string, seq<EntryClaim>>

  /** `claimsByResource`: of resources with the same id the last one counts. */
  function Indexed(resources: seq<Resource>, platform: Platform): ClaimIndex {
    if resources == [] then map[]
    else var last := resources[|resources| - 1];
         Indexed(resources[..|resources| - 1], platform)[last.id := EntryClaims(last, platform)]
  }

  /** The errors for one resource: its target's, then its entries'. */
  function ErrorsOf(resource: Resource, platform: Platform): seq<PathError> {
    var reason := InvalidTargetReason(resource.target);
    (if reason.Some? then [InvalidTarget(resource.id, resource.target, reason.value)] else [])
    + EntryErrors(resource.id, Sort(resource.entries, EntryLe), platform)
  }

  function FlatMap<T, U>(f: T -> seq<U>, values: seq<T>): seq<U> {
    if values == [] then [] else FlatMap(f, values[..|values| - 1]) + f(values[|values| - 1])
  }

  lemma {:induction false} FlatMapMembers<T(!new), U>(f: T -> seq<U>, values: seq<T>, x: U)
    ensures x in FlatMap(f, values) <==> exists value :: value in values && x in f(value)
  {
    if values != [] {
      var shorter, last := values[..|values| - 1], values[|values| - 1];
      FlatMapMembers(f, shorter, x);
      assert values == shorter + [last];
    }
  }

  function ErrorsOn(platform: Platform): Resource -> seq<PathError> {
    resource => ErrorsOf(resource, platform)
  }

  lemma ErrorsOfRefuse(resource: Resource, platform: Platform, error: PathError)
    ensures error in ErrorsOf(resource, platform) <==> Refuses(resource, platform, error)
  {
    EntryErrorsRefuse(resource, Sort(resource.entries, EntryLe), platform, error);
    SortedEntriesRefuseTheSame(resource, platform, error);
  }

  method CollectClaims(resources: seq<Resource>, platform: Platform) returns (index: ClaimIndex, errors: seq<PathError>)
    ensures index == Indexed(resources, platform)
    ensures errors == FlatMap(ErrorsOn(platform), resources)
    ensures forall error :: error in errors <==> Refused(resources, platform, error)
  {
    index, errors := map[], [];
    for k := 0 to |resources|
      invariant index == Indexed(resources[..k], platform)
      invariant errors == FlatMap(ErrorsOn(platform), resources[..k])
    {
      var resource := resources[k];
      assert resources[..k + 1][..k] == resources[..k];
      var reason := InvalidTargetReason(resource.target);
      var invalid := if reason.Some? then [InvalidTarget(resource.id, resource.target, reason.value)] else [];
      var claims, refused := CanonicalResourcePathClaims(resource, platform);
      errors := errors + (invalid + refused);
      index := index[resource.id := claims];
    }
    assert resources[..|resources|] == resources;
    forall error { CollectedIsRefused(resources, platform, error); }
  }

  lemma CollectedIsRefused(resources: seq<Resource>, platform: Platform, error: PathError)
    ensures error in FlatMap(ErrorsOn(platform), resources) <==> Refused(resources, platform, error)
  {
    FlatMapMembers(ErrorsOn(platform), resources, error);
    RefusedMeansAmong(resources, platform, error);
    forall resource | resource in resources
      ensures error in ErrorsOn(platform)(resource) <==> Refuses(resource, platform, error) {
      ErrorsOfRefuse(resource, platform, error);
    }
  }

  predicate ManagesFiles(kind: Kind) {
    kind.File? || kind.Directory? || kind.Config? || kind.Skill?
  }

  function Root(resource: Resource, platform: Platform): Claim {
    Claim(resource.id, resource.target, NormalizedPath(resource.target, platform), resource.target, true,
          resource.kind.Directory? || resource.kind.Skill?)
  }

  function Owned(resource: Resource, claims: seq<EntryClaim>): seq<Claim> {
    seq(|claims|,
        k requires 0 <= k < |claims| => Claim(resource.id, resource.target, claims[k].path, claims[k].rawPath, false,
                                              claims[k].isDirectory))
  }

  function ClaimsOf(resource: Resource, index: ClaimIndex, platform: Platform): seq<Claim> {
    if !ManagesFiles(resource.kind) then []
    else [Root(resource, platform)] + Owned(resource, if resource.id in index then index[resource.id] else [])
  }

  function AllClaims(resources: seq<Resource>, index: ClaimIndex, platform: Platform): seq<Claim> {
    if resources == [] then []
    else AllClaims(resources[..|resources| - 1], index, platform)
         + ClaimsOf(resources[|resources| - 1], index, platform)
  }

  /** Everything the resources lay claim to. */
  function Claims(resources: seq<Resource>, platform: Platform): seq<Claim> {
    AllClaims(Sort(resources, ResourceLe), Indexed(Sort(resources, ResourceLe), platform), platform)
  }

  // ---------------------------------------------------------------- what conflicts

  predicate ClaimLe(left: Claim, right: Claim) {
    if left.id != right.id then TextLe(left.id, right.id)
    else if left.path != right.path then TextLe(left.path, right.path)
    else TextLe(left.rawPath, right.rawPath)
  }

  lemma ClaimLeIsTotalPreorder()
    ensures TotalPreorder(ClaimLe)
  {
    forall x, y ensures ClaimLe(x, y) || ClaimLe(y, x) {
      TextLeIsTotal(x.id, y.id);
      TextLeIsTotal(x.path, y.path);
      TextLeIsTotal(x.rawPath, y.rawPath);
    }
    forall x, y, z | ClaimLe(x, y) && ClaimLe(y, z) ensures ClaimLe(x, z) { ClaimLeIsTransitive(x, y, z); }
  }

  lemma Between(x: string, y: string, z: string)
    requires TextLe(x, y) && TextLe(y, z)
    ensures TextLe(x, z) && (x == z ==> x == y)
  {
    TextLeIsTransitive(x, y, z);
    TextLeIsTotal(x, y);
  }

  lemma ClaimLeIsTransitive(x: Claim, y: Claim, z: Claim)
    requires ClaimLe(x, y) && ClaimLe(y, z)
    ensures ClaimLe(x, z)
  {
    TextLeIsTotal(x.id, y.id);
    TextLeIsTotal(y.id, z.id);
    Between(x.id, y.id, z.id);
    if x.id == z.id {
      TextLeIsTotal(x.path, y.path);
      TextLeIsTotal(y.path, z.path);
      Between(x.path, y.path, z.path);
      if x.path == z.path { Between(x.rawPath, y.rawPath, z.rawPath); }
    }
  }

  /** Claims of different resources on overlapping paths. */
  predicate Crosses(claim: Claim, other: Claim) {
    claim.id != other.id && Overlaps(claim.path, other.path)
  }

  /** One claim is a declared directory strictly above the other. */
  predicate IsAncestry(claim: Claim, other: Claim) {
    (Below(claim.path, other.path) && other.isDirectory) || (Below(other.path, claim.path) && claim.isDirectory)
  }

  /** Entries of one resource that overlap without the one being a declared directory above the other. */
  predicate Clashes(claim: Claim, other: Claim) {
    && claim.id == other.id && !claim.isRoot && !other.isRoot && Overlaps(claim.path, other.path)
    && (claim.rawPath == other.rawPath || !IsAncestry(claim, other))
  }

  predicate HasConflict(errors: seq<PathError>, id: string, other: string) {
    exists k :: 0 <= k < |errors| && errors[k].Conflict? && errors[k].id == id && errors[k].conflictsWith == other
  }

  ghost predicate Settled(errors: seq<PathError>, claim: Claim, other: Claim) {
    Crosses(claim, other) || Clashes(claim, other) ==> HasConflict(errors, claim.id, other.id)
  }

  ghost predicate Justified(error: PathError, claim: Claim, other: Claim) {
    && error.Conflict? && error.id == claim.id && error.conflictsWith == other.id
    && (if claim.id != other.id
          then Crosses(claim, other) && error.target == claim.target
               && error.clash == TargetOverlap(claim.path, other.path)
        else && Clashes(claim, other) && error.target == claim.rawPath
             && error.clash == if claim.rawPath == other.rawPath then DeclaredTwice(claim.path)
                               else ManagedOverlap(claim.path, other.path))
  }

  /** No pair of resources is reported twice. */
  ghost predicate OncePerPair(errors: seq<PathError>) {
    forall j, k :: 0 <= j < k < |errors| && errors[j].Conflict? && errors[k].Conflict?
                   && errors[j].id != errors[j].conflictsWith
      ==> errors[j].id != errors[k].id || errors[j].conflictsWith != errors[k].conflictsWith
  }

  /** The error for two clashing entries of one resource. */
  function WithinError(claim: Claim, other: Claim): PathError {
    Conflict(claim.id, claim.rawPath, other.id,
             if claim.rawPath == other.rawPath then DeclaredTwice(claim.path)
             else ManagedOverlap(claim.path, other.path))
  }

  /** The errors that are about one resource, in order. */
  function Within(errors: seq<PathError>): seq<PathError> {
    if errors == [] then []
    else var last := errors[|errors| - 1];
         Within(errors[..|errors| - 1]) + if last.Conflict? && last.id == last.conflictsWith then [last] else []
  }

  /** The clashing pairs of one row below a column, then all rows: each pair once, in the order of the loops. */
  function RowClashes(claims: seq<Claim>, row: nat, column: nat): seq<PathError>
    requires row < |claims| && column <= |claims|
  {
    if column <= row + 1 then []
    else RowClashes(claims, row, column - 1)
         + if Clashes(claims[row], claims[column - 1]) then [WithinError(claims[row], claims[column - 1])] else []
  }

  function AllClashes(claims: seq<Claim>, rows: nat): seq<PathError>
    requires rows <= |claims|
  {
    if rows == 0 then [] else AllClashes(claims, rows - 1) + RowClashes(claims, rows - 1, |claims|)
  }

  lemma WithinOneMore(errors: seq<PathError>, error: PathError)
    ensures Within(errors + [error]) == Within(errors) + if error.Conflict? && error.id == error.conflictsWith
                                                           then [error] else []
  {
    assert (errors + [error])[..|errors|] == errors;
  }

  lemma {:induction false} NothingWithin(errors: seq<PathError>)
    requires forall error :: error in errors ==> error.InvalidTarget?
    ensures Within(errors) == []
  {
    if errors != [] {
      assert errors[|errors| - 1] in errors;
      NothingWithin(errors[..|errors| - 1]);
    }
  }

  /** What one pair adds to the errors so far: a clash always, an overlap of two resources when it is their first. */
  function Reported(errors: seq<PathError>, claim: Claim, other: Claim): Option<PathError> {
    if Clashes(claim, other) then Some(WithinError(claim, other))
    else if Crosses(claim, other) && !HasConflict(errors, claim.id, other.id)
    then Some(Conflict(claim.id, claim.target, other.id, TargetOverlap(claim.path, other.path)))
    else None
  }

  function WithReport(errors: seq<PathError>, claim: Claim, other: Claim): seq<PathError> {
    if Reported(errors, claim, other).Some? then errors + [Reported(errors, claim, other).value] else errors
  }

  /** The body of the pair loop. */
  method ReportPair(errors: seq<PathError>, claim: Claim, other: Claim) returns (more: seq<PathError>)
    ensures more == WithReport(errors, claim, other)
  {
    more := errors;
    if !Overlaps(claim.path, other.path) { return; }
    if claim.id == other.id {
      if claim.isRoot || other.isRoot { return; }
      if claim.rawPath == other.rawPath {
        more := errors + [Conflict(claim.id, claim.rawPath, other.id, DeclaredTwice(claim.path))];
        return;
      }
      OverlapIsSegmentPrefix(claim.path, other.path);
      var ancestor := if Below(claim.path, other.path) then Some(other)
                      else if Below(other.path, claim.path) then Some(claim) else None;
      if ancestor.Some? && ancestor.value.isDirectory { return; }
      more := errors + [Conflict(claim.id, claim.rawPath, other.id, ManagedOverlap(claim.path, other.path))];
      return;
    }
    if !HasConflict(errors, claim.id, other.id) {
      more := errors + [Conflict(claim.id, claim.target, other.id, TargetOverlap(claim.path, other.path))];
    }
  }

  /** After that the pair is settled, by at most one new error that it justifies, and no two resources are reported
      twice. */
  lemma PairIsReported(errors: seq<PathError>, claim: Claim, other: Claim)
    requires OncePerPair(errors)
    ensures var more := WithReport(errors, claim, other);
      && OncePerPair(more) && Settled(more, claim, other)
      && (more == errors || exists error :: more == errors + [error] && Justified(error, claim, other))
  {
    if Reported(errors, claim, other).Some? {
      var error := Reported(errors, claim, other).value;
      assert (errors + [error])[|errors|] == error && Justified(error, claim, other);
    }
  }

  lemma PairIsListed(errors: seq<PathError>, claim: Claim, other: Claim)
    ensures Within(WithReport(errors, claim, other))
      == Within(errors) + if Clashes(claim, other) then [WithinError(claim, other)] else []
  {
    assert Within(errors) + [] == Within(errors);
    if Reported(errors, claim, other).Some? { WithinOneMore(errors, Reported(errors, claim, other).value); }
  }

  ghost predicate JustifiedBy(error: PathError, claims: seq<Claim>) {
    exists i, j :: 0 <= i < j < |claims| && Justified(error, claims[i], claims[j])
  }

  lemma SettledStays(errors: seq<PathError>, more: seq<PathError>, claim: Claim, other: Claim)
    requires errors <= more && Settled(errors, claim, other)
    ensures Settled(more, claim, other)
  {
    if HasConflict(errors, claim.id, other.id) {
      var k :| 0 <= k < |errors| && errors[k].Conflict? && errors[k].id == claim.id
               && errors[k].conflictsWith == other.id;
      assert more[k] == errors[k];
    }
  }

  /** All pairs below row `row`, and in that row those below column `column`. */
  ghost predicate SettledUpTo(errors: seq<PathError>, claims: seq<Claim>, row: nat, column: nat) {
    forall i, j :: 0 <= i < j < |claims| && (i < row || (i == row && j < column))
                   ==> Settled(errors, claims[i], claims[j])
  }

  ghost predicate Grown(start: seq<PathError>, errors: seq<PathError>, claims: seq<Claim>) {
    start <= errors && forall k :: |start| <= k < |errors| ==> JustifiedBy(errors[k], claims)
  }

  /** What the loops have done before this pair. */
  ghost predicate IsAt(start: seq<PathError>, errors: seq<PathError>, claims: seq<Claim>, row: nat, column: nat)
    requires row < |claims| && column <= |claims|
  {
    && Grown(start, errors, claims) && OncePerPair(errors) && SettledUpTo(errors, claims, row, column)
    && Within(errors) == AllClashes(claims, row) + RowClashes(claims, row, column)
  }

  ghost predicate IsBefore(start: seq<PathError>, errors: seq<PathError>, claims: seq<Claim>, row: nat)
    requires row <= |claims|
  {
    && Grown(start, errors, claims) && OncePerPair(errors) && SettledUpTo(errors, claims, row, 0)
    && Within(errors) == AllClashes(claims, row)
  }

  method ReportPairs(start: seq<PathError>, claims: seq<Claim>) returns (errors: seq<PathError>)
    requires forall error :: error in start ==> error.InvalidTarget?
    ensures IsBefore(start, errors, claims, |claims|)
  {
    errors := start;
    NothingReported(start, claims);
    for index := 0 to |claims|
      invariant IsBefore(start, errors, claims, index)
    {
      RowStarts(start, errors, claims, index);
      for otherIndex := index + 1 to |claims|
        invariant IsAt(start, errors, claims, index, otherIndex)
      {
        PairStep(start, errors, claims, index, otherIndex);
        errors := ReportPair(errors, claims[index], claims[otherIndex]);
      }
      RowEnds(start, errors, claims, index);
    }
  }

  lemma NothingReported(start: seq<PathError>, claims: seq<Claim>)
    requires forall error :: error in start ==> error.InvalidTarget?
    ensures IsBefore(start, start, claims, 0)
  {
    NothingWithin(start);
    assert forall k :: 0 <= k < |start| ==> start[k] in start;
  }

  lemma RowStarts(start: seq<PathError>, errors: seq<PathError>, claims: seq<Claim>, row: nat)
    requires row < |claims| && IsBefore(start, errors, claims, row)
    ensures IsAt(start, errors, claims, row, row + 1)
  {
    assert AllClashes(claims, row) + [] == AllClashes(claims, row);
  }

  lemma RowEnds(start: seq<PathError>, errors: seq<PathError>, claims: seq<Claim>, row: nat)
    requires row < |claims| && IsAt(start, errors, claims, row, |claims|)
    ensures IsBefore(start, errors, claims, row + 1)
  {
  }

  lemma PairStep(start: seq<PathError>, errors: seq<PathError>, claims: seq<Claim>, row: nat, column: nat)
    requires row < column < |claims| && IsAt(start, errors, claims, row, column)
    ensures IsAt(start, WithReport(errors, claims[row], claims[column]), claims, row, column + 1)
  {
    PairIsReported(errors, claims[row], claims[column]);
    PairIsListed(errors, claims[row], claims[column]);
    var more := WithReport(errors, claims[row], claims[column]);
    StepSettles(errors, more, claims, row, column);
    StepGrows(start, errors, more, claims, row, column);
    RowOneMore(claims, row, column);
  }

  lemma RowOneMore(claims: seq<Claim>, row: nat, column: nat)
    requires row < column < |claims|
    ensures AllClashes(claims, row) + RowClashes(claims, row, column + 1)
      == AllClashes(claims, row) + RowClashes(claims, row, column)
         + if Clashes(claims[row], claims[column]) then [WithinError(claims[row], claims[column])] else []
  {
  }

  lemma StepSettles(errors: seq<PathError>, more: seq<PathError>, claims: seq<Claim>, row: nat, column: nat)
    requires row < column < |claims| && SettledUpTo(errors, claims, row, column)
    requires errors <= more && Settled(more, claims[row], claims[column])
    ensures SettledUpTo(more, claims, row, column + 1)
  {
    forall i, j | 0 <= i < j < |claims| && (i < row || (i == row && j < column + 1))
      ensures Settled(more, claims[i], claims[j]) {
      if i < row || j < column { SettledStays(errors, more, claims[i], claims[j]); }
    }
  }

  lemma StepGrows(start: seq<PathError>, errors: seq<PathError>, more: seq<PathError>, claims: seq<Claim>, row: nat,
                  column: nat)
    requires row < column < |claims| && Grown(start, errors, claims)
    requires more == errors || exists error :: more == errors + [error] && Justified(error, claims[row], claims[column])
    ensures Grown(start, more, claims)
  {
  }

  lemma SettledAll(errors: seq<PathError>, claims: seq<Claim>)
    requires SettledUpTo(errors, claims, |claims|, 0)
    ensures forall i, j :: 0 <= i < j < |claims| ==> Settled(errors, claims[i], claims[j])
  {
  }

  // ---------------------------------------------------------------- the whole validation

  ghost predicate OverlapBetween(claims: seq<Claim>, id: string, other: string) {
    exists claim, opposite :: claim in claims && opposite in claims && claim.id == id && opposite.id == other
                              && Overlaps(claim.path, opposite.path)
  }

  /** Two entries, at different places, of the resource with this id clash. */
  ghost predicate ClashWithin(claims: seq<Claim>, id: string) {
    exists i, j :: 0 <= i < j < |claims| && claims[i].id == id && Clashes(claims[i], claims[j])
  }

  /** Every conflicting pair is reported exactly once, lower id first, and nothing else is. */
  method ValidateResourcePathConflicts(resources: seq<Resource>, platform: Platform) returns (errors: seq<PathError>)
    ensures forall id, other :: id != other
                                ==> (HasConflict(errors, id, other)
                                     <==> TextLe(id, other) && OverlapBetween(Claims(resources, platform), id, other))
    ensures forall id :: HasConflict(errors, id, id) <==> ClashWithin(Claims(resources, platform), id)
    ensures OncePerPair(errors)
    ensures forall error :: error in errors && error.InvalidTarget? <==> Refused(resources, platform, error)
    ensures forall error :: error in errors && error.Conflict? ==> JustifiedIn(error, Claims(resources, platform))
    ensures FlatMap(ErrorsOn(platform), Sort(resources, ResourceLe)) <= errors
    ensures var claims := Sort(Claims(resources, platform), ClaimLe); Within(errors) == AllClashes(claims, |claims|)
  {
    var index, refused := CollectClaims(Sort(resources, ResourceLe), platform);
    var unsorted := CollectAll(Sort(resources, ResourceLe), index, platform);
    var claims := Sort(unsorted, ClaimLe);
    forall error { SortedResourcesRefuseTheSame(resources, platform, error); }
    errors := ReportPairs(refused, claims);
    SettledAll(errors, claims);
    ReportIsExact(refused, errors, unsorted);
  }

  /** The `flatMap` over resources. */
  method CollectAll(resources: seq<Resource>, index: ClaimIndex, platform: Platform) returns (claims: seq<Claim>)
    ensures claims == AllClaims(resources, index, platform)
  {
    claims := [];
    for k := 0 to |resources|
      invariant claims == AllClaims(resources[..k], index, platform)
    {
      assert resources[..k + 1][..k] == resources[..k];
      claims := claims + ClaimsOf(resources[k], index, platform);
    }
    assert resources[..|resources|] == resources;
  }

  lemma SortedResourcesRefuseTheSame(resources: seq<Resource>, platform: Platform, error: PathError)
    ensures Refused(Sort(resources, ResourceLe), platform, error) <==> Refused(resources, platform, error)
  {
    ResourceLeIsTotalPreorder();
    SortIsSorted(resources, ResourceLe);
    SameMembers(resources, Sort(resources, ResourceLe));
    RefusedMeansAmong(resources, platform, error);
    RefusedMeansAmong(Sort(resources, ResourceLe), platform, error);
  }

  lemma RefusedMeansAmong(resources: seq<Resource>, platform: Platform, error: PathError)
    ensures Refused(resources, platform, error)
      <==> exists resource :: resource in resources && Refuses(resource, platform, error)
  {
  }

  /** An error says which two claims, of these ids, it is about. */
  ghost predicate JustifiedIn(error: PathError, claims: seq<Claim>) {
    exists claim, other :: claim in claims && other in claims && Justified(error, claim, other)
  }

  lemma ReportIsExact(refused: seq<PathError>, errors: seq<PathError>, unsorted: seq<Claim>)
    requires forall error :: error in refused ==> error.InvalidTarget?
    requires Grown(refused, errors, Sort(unsorted, ClaimLe))
    requires forall i, j :: 0 <= i < j < |Sort(unsorted, ClaimLe)|
                            ==> Settled(errors, Sort(unsorted, ClaimLe)[i], Sort(unsorted, ClaimLe)[j])
    ensures forall id, other :: id != other
                                ==> (HasConflict(errors, id, other)
                                     <==> TextLe(id, other) && OverlapBetween(unsorted, id, other))
    ensures forall id :: HasConflict(errors, id, id) <==> ClashWithin(unsorted, id)
    ensures forall error :: error in errors && error.InvalidTarget? <==> error in refused
    ensures forall error :: error in errors && error.Conflict? ==> JustifiedIn(error, unsorted)
  {
    var claims := Sort(unsorted, ClaimLe);
    ClaimLeIsTotalPreorder();
    SortIsSorted(unsorted, ClaimLe);
    SameMembers(unsorted, claims);
    forall error | error in errors ensures error.InvalidTarget? <==> error in refused
      ensures error.Conflict? ==> JustifiedIn(error, unsorted)
    {
      var k :| 0 <= k < |errors| && errors[k] == error;
      if k < |refused| { assert refused[k] == error; }
    }
    forall id, other | id != other
      ensures HasConflict(errors, id, other) <==> TextLe(id, other) && OverlapBetween(unsorted, id, other) {
      CrossReportIsExact(refused, errors, claims, id, other);
    }
    forall id ensures HasConflict(errors, id, id) <==> ClashWithin(unsorted, id) {
      WithinReportIsExact(refused, errors, claims, id);
      if ClashWithin(unsorted, id) { ClashSurvivesSorting(unsorted, claims, id); }
      if ClashWithin(claims, id) { ClashSurvivesSorting(claims, unsorted, id); }
    }
  }

  lemma NotAmongRefused(refused: seq<PathError>, errors: seq<PathError>, k: nat)
    requires k < |errors| && errors[k].Conflict? && refused <= errors
    requires forall error :: error in refused ==> error.InvalidTarget?
    ensures k >= |refused|
  {
    forall j | 0 <= j < |refused| ensures errors[j].InvalidTarget? {
      assert refused[j] in refused && refused[j] == errors[j];
    }
  }

  lemma CrossReportIsExact(refused: seq<PathError>, errors: seq<PathError>, claims: seq<Claim>, id: string,
                           other: string)
    requires forall error :: error in refused ==> error.InvalidTarget?
    requires Grown(refused, errors, claims) && IsSorted(claims, ClaimLe) && id != other
    requires forall i, j :: 0 <= i < j < |claims| ==> Settled(errors, claims[i], claims[j])
    ensures HasConflict(errors, id, other) <==> TextLe(id, other) && OverlapBetween(claims, id, other)
  {
    if HasConflict(errors, id, other) {
      var k :| 0 <= k < |errors| && errors[k].Conflict? && errors[k].id == id && errors[k].conflictsWith == other;
      NotAmongRefused(refused, errors, k);
      var i, j :| 0 <= i < j < |claims| && Justified(errors[k], claims[i], claims[j]);
      assert ClaimLe(claims[i], claims[j]) && claims[i] in claims && claims[j] in claims;
    }
    if TextLe(id, other) && OverlapBetween(claims, id, other) {
      var claim, opposite :| claim in claims && opposite in claims && claim.id == id && opposite.id == other
                             && Overlaps(claim.path, opposite.path);
      var i :| 0 <= i < |claims| && claims[i] == claim;
      var j :| 0 <= j < |claims| && claims[j] == opposite;
      TextLeIsTotal(id, other);
      assert j < i ==> ClaimLe(claims[j], claims[i]);
      assert Settled(errors, claims[i], claims[j]);
    }
  }

  lemma WithinReportIsExact(refused: seq<PathError>, errors: seq<PathError>, claims: seq<Claim>, id: string)
    requires forall error :: error in refused ==> error.InvalidTarget?
    requires Grown(refused, errors, claims)
    requires forall i, j :: 0 <= i < j < |claims| ==> Settled(errors, claims[i], claims[j])
    ensures HasConflict(errors, id, id) <==> ClashWithin(claims, id)
  {
    if HasConflict(errors, id, id) {
      var k :| 0 <= k < |errors| && errors[k].Conflict? && errors[k].id == id && errors[k].conflictsWith == id;
      NotAmongRefused(refused, errors, k);
      var i, j :| 0 <= i < j < |claims| && Justified(errors[k], claims[i], claims[j]);
    }
    if ClashWithin(claims, id) {
      var i, j :| 0 <= i < j < |claims| && claims[i].id == id && Clashes(claims[i], claims[j]);
      assert Settled(errors, claims[i], claims[j]);
    }
  }

  lemma ClashesIsSymmetric(claim: Claim, other: Claim)
    ensures Clashes(claim, other) <==> Clashes(other, claim)
  {
    OverlapIsSegmentPrefix(claim.path, other.path);
  }

  lemma TwoPlaces<T>(values: seq<T>, value: T)
    requires multiset(values)[value] >= 2
    ensures exists j, k :: 0 <= j < k < |values| && values[j] == value && values[k] == value
  {
    var j :| 0 <= j < |values| && values[j] == value;
    assert values == values[..j] + [value] + values[j + 1..];
    if value in values[..j] {
      var k :| 0 <= k < j && values[..j][k] == value;
      assert values[k] == value;
    } else {
      assert multiset(values[..j])[value] == 0;
      assert value in values[j + 1..];
      var k :| 0 <= k < |values[j + 1..]| && values[j + 1..][k] == value;
      assert values[j + 1 + k] == value;
    }
  }

  lemma ClashSurvivesSorting(one: seq<Claim>, other: seq<Claim>, id: string)
    requires multiset(one) == multiset(other) && ClashWithin(one, id)
    ensures ClashWithin(other, id)
  {
    var i, j :| 0 <= i < j < |one| && one[i].id == id && Clashes(one[i], one[j]);
    SameMembers(one, other);
    if one[i] == one[j] {
      Twice(one, i, j);
      TwoPlaces(other, one[i]);
    } else {
      assert one[i] in other && one[j] in other;
      var k :| 0 <= k < |other| && other[k] == one[i];
      var l :| 0 <= l < |other| && other[l] == one[j];
      ClashesIsSymmetric(other[k], other[l]);
    }
  }

  // ---------------------------------------------------------------- resources with ids of their own

  ghost predicate IdsDiffer(resources: seq<Resource>) {
    forall j, k :: 0 <= j < k < |resources| ==> resources[j].id != resources[k].id
  }

  function OwnClaims(resource: Resource, platform: Platform): seq<Claim> {
    if ManagesFiles(resource.kind) then [Root(resource, platform)] + Owned(resource, EntryClaims(resource, platform))
    else []
  }

  lemma IndexedKeeps(resources: seq<Resource>, platform: Platform, id: string)
    requires resources != [] && resources[|resources| - 1].id != id
             && id in Indexed(resources[..|resources| - 1], platform)
    ensures id in Indexed(resources, platform)
    ensures Indexed(resources, platform)[id] == Indexed(resources[..|resources| - 1], platform)[id]
  {
  }

  lemma {:induction false} IndexedOwn(resources: seq<Resource>, platform: Platform, k: nat)
    requires IdsDiffer(resources) && k < |resources|
    ensures resources[k].id in Indexed(resources, platform)
    ensures Indexed(resources, platform)[resources[k].id] == EntryClaims(resources[k], platform)
  {
    var shorter := resources[..|resources| - 1];
    if k < |resources| - 1 {
      IndexedOwn(shorter, platform, k);
      assert shorter[k] == resources[k];
      IndexedKeeps(resources, platform, resources[k].id);
    }
  }

  lemma OwnClaimsHaveTheId(resource: Resource, platform: Platform)
    ensures forall k :: 0 <= k < |OwnClaims(resource, platform)| ==> OwnClaims(resource, platform)[k].id == resource.id
  {
  }

  lemma SortedIdsAreDistinct(resources: seq<Resource>)
    requires IdsDiffer(resources)
    ensures IdsDiffer(Sort(resources, ResourceLe)) && multiset(Sort(resources, ResourceLe)) == multiset(resources)
  {
    var sorted := Sort(resources, ResourceLe);
    ResourceLeIsTotalPreorder();
    SortIsSorted(resources, ResourceLe);
    SameMembers(resources, sorted);
    forall j, k | 0 <= j < k < |sorted| ensures sorted[j].id != sorted[k].id {
      assert sorted[j] in resources && sorted[k] in resources;
      var i :| 0 <= i < |resources| && resources[i] == sorted[j];
      var l :| 0 <= l < |resources| && resources[l] == sorted[k];
      if i == l {
        Twice(sorted, j, k);
        TwoPlaces(resources, sorted[j]);
      }
    }
  }

  /** The claims in order are, resource by resource, the resource's own. */
  lemma {:induction false} ClaimsAreOwn(resources: seq<Resource>, upTo: nat, platform: Platform)
    requires IdsDiffer(resources) && upTo <= |resources|
    ensures AllClaims(resources[..upTo], Indexed(resources, platform), platform)
            == OwnOfAll(resources[..upTo], platform)
  {
    if upTo > 0 {
      ClaimsAreOwn(resources, upTo - 1, platform);
      IndexedOwn(resources, platform, upTo - 1);
      assert resources[..upTo][..upTo - 1] == resources[..upTo - 1];
    }
  }

  function OwnClaimsOn(platform: Platform): Resource -> seq<Claim> {
    resource => OwnClaims(resource, platform)
  }

  function OwnOfAll(resources: seq<Resource>, platform: Platform): seq<Claim> {
    FlatMap(OwnClaimsOn(platform), resources)
  }

  lemma OwnOfAllMembers(resources: seq<Resource>, platform: Platform, claim: Claim)
    ensures claim in OwnOfAll(resources, platform)
      <==> exists resource :: resource in resources && claim in OwnClaims(resource, platform)
  {
    FlatMapMembers(OwnClaimsOn(platform), resources, claim);
    assert forall resource :: OwnClaimsOn(platform)(resource) == OwnClaims(resource, platform);
  }

  /** Claims of one resource that clash were declared by that resource. */
  lemma {:induction false} ClashIsWithinOne(resources: seq<Resource>, platform: Platform, id: string)
    requires IdsDiffer(resources)
    ensures ClashWithin(OwnOfAll(resources, platform), id)
      <==> exists resource :: resource in resources && resource.id == id
                              && ClashWithin(OwnClaims(resource, platform), id)
  {
    if resources != [] {
      var shorter, last := resources[..|resources| - 1], resources[|resources| - 1];
      assert resources == shorter + [last] && last in resources;
      ClashIsWithinOne(shorter, platform, id);
      OwnClaimsHaveTheId(last, platform);
      forall k | 0 <= k < |OwnOfAll(shorter, platform)| ensures OwnOfAll(shorter, platform)[k].id != last.id {
        var owner := OwnerOf(shorter, platform, OwnOfAll(shorter, platform)[k]);
      }
      ClashInBoth(OwnOfAll(shorter, platform), OwnClaims(last, platform), id);
      if id != last.id { NoClashWithoutTheId(OwnClaims(last, platform), id); }
    }
  }

  lemma NoClashWithoutTheId(claims: seq<Claim>, id: string)
    requires forall k :: 0 <= k < |claims| ==> claims[k].id != id
    ensures !ClashWithin(claims, id)
  {
  }

  ghost predicate OfOtherIds(one: seq<Claim>, other: seq<Claim>) {
    forall i, j :: 0 <= i < |one| && 0 <= j < |other| ==> one[i].id != other[j].id
  }

  lemma ClashInEither(one: seq<Claim>, other: seq<Claim>, id: string, i: nat, j: nat)
    requires OfOtherIds(one, other) && i < j < |one + other|
    requires (one + other)[i].id == id && Clashes((one + other)[i], (one + other)[j])
    ensures ClashWithin(one, id) || ClashWithin(other, id)
  {
    var both := one + other;
    if j < |one| {
      assert one[i] == both[i] && one[j] == both[j];
    } else if i < |one| {
      assert false;
    } else {
      assert other[i - |one|] == both[i] && other[j - |one|] == both[j];
    }
  }

  lemma ClashInBoth(one: seq<Claim>, other: seq<Claim>, id: string)
    requires OfOtherIds(one, other)
    ensures ClashWithin(one + other, id) <==> ClashWithin(one, id) || ClashWithin(other, id)
  {
    var both := one + other;
    if ClashWithin(both, id) {
      var i: nat, j: nat :| 0 <= i < j < |both| && both[i].id == id && Clashes(both[i], both[j]);
      ClashInEither(one, other, id, i, j);
    }
    if ClashWithin(one, id) {
      var i, j :| 0 <= i < j < |one| && one[i].id == id && Clashes(one[i], one[j]);
      assert both[i] == one[i] && both[j] == one[j];
    }
    if ClashWithin(other, id) {
      var i, j :| 0 <= i < j < |other| && other[i].id == id && Clashes(other[i], other[j]);
      assert both[|one| + i] == other[i] && both[|one| + j] == other[j];
    }
  }

  // ---------------------------------------------------------------- claims, told by the resources

  ghost predicate HasFiles(resource: Resource) {
    resource.kind == File || resource.kind == Directory || resource.kind == Config || resource.kind == Skill
  }

  /** A resource with files takes its target and what its accepted entries name below it. */
  ghost predicate Takes(resource: Resource, platform: Platform, path: string) {
    HasFiles(resource)
      && (path == NormalizedPath(resource.target, platform)
          || exists entry :: entry in resource.entries && TakesEntry(resource.target, platform, entry, path))
  }

  ghost predicate TakesEntry(target: string, platform: Platform, entry: Entry, path: string) {
    InvalidRelativeTargetReason(entry.path, platform).None?
      && path == NormalizedPath(target + "/" + entry.path, platform)
  }

  /** Two accepted entries whose paths overlap, and which are written alike or neither of which is a declared directory
      strictly above the other. */
  ghost predicate EntriesMeet(target: string, platform: Platform, entry: Entry, other: Entry) {
    && InvalidRelativeTargetReason(entry.path, platform).None?
    && InvalidRelativeTargetReason(other.path, platform).None?
    && var path, path' := NormalizedPath(target + "/" + entry.path, platform),
                          NormalizedPath(target + "/" + other.path, platform);
       && Overlaps(path, path')
       && (entry.path == other.path
           || !((Below(path, path') && other.isDirectory) || (Below(path', path) && entry.isDirectory)))
  }

  ghost predicate SomeEntriesMeet(target: string, platform: Platform, entries: seq<Entry>) {
    exists i, j :: 0 <= i < j < |entries| && EntriesMeet(target, platform, entries[i], entries[j])
  }

  ghost predicate IsClaimOf(target: string, platform: Platform, entry: Entry, claim: EntryClaim) {
    TakesEntry(target, platform, entry, claim.path) && claim.rawPath == entry.path
      && claim.isDirectory == entry.isDirectory
  }

  ghost predicate IsClaimOfSome(target: string, platform: Platform, entries: seq<Entry>, claim: EntryClaim) {
    exists entry :: entry in entries && IsClaimOf(target, platform, entry, claim)
  }

  lemma ClaimOfOneMore(target: string, platform: Platform, entries: seq<Entry>, last: Entry, claim: EntryClaim)
    ensures IsClaimOfSome(target, platform, entries + [last], claim)
      <==> IsClaimOfSome(target, platform, entries, claim) || IsClaimOf(target, platform, last, claim)
  {
    if IsClaimOf(target, platform, last, claim) { assert last in entries + [last]; }
  }

  lemma AcceptedOneMore(target: string, entries: seq<Entry>, last: Entry, platform: Platform, claim: EntryClaim)
    ensures claim in AcceptedClaims(target, entries + [last], platform)
      <==> claim in AcceptedClaims(target, entries, platform) || IsClaimOf(target, platform, last, claim)
  {
    assert (entries + [last])[..|entries|] == entries;
  }

  lemma {:induction false} AcceptedMembers(target: string, entries: seq<Entry>, platform: Platform, claim: EntryClaim)
    ensures claim in AcceptedClaims(target, entries, platform) <==> IsClaimOfSome(target, platform, entries, claim)
  {
    if entries != [] {
      var before, last := entries[..|entries| - 1], entries[|entries| - 1];
      AcceptedMembers(target, before, platform, claim);
      assert entries == before + [last];
      ClaimOfOneMore(target, platform, before, last, claim);
      AcceptedOneMore(target, before, last, platform, claim);
    }
  }

  lemma TakenIsClaimed(resource: Resource, platform: Platform, path: string)
    ensures Takes(resource, platform, path)
      <==> exists claim :: claim in OwnClaims(resource, platform) && claim.path == path
  {
    var sorted := Sort(resource.entries, EntryLe);
    EntryLeIsTotalPreorder();
    SortIsSorted(resource.entries, EntryLe);
    SameMembers(resource.entries, sorted);
    if Takes(resource, platform, path) { TakenHasClaim(resource, platform, path); }
    if claim :| claim in OwnClaims(resource, platform) && claim.path == path {
      ClaimIsTaken(resource, platform, claim);
    }
  }

  lemma TakenHasClaim(resource: Resource, platform: Platform, path: string)
    requires Takes(resource, platform, path)
    requires forall entry :: entry in Sort(resource.entries, EntryLe) <==> entry in resource.entries
    ensures exists claim :: claim in OwnClaims(resource, platform) && claim.path == path
  {
    if path == NormalizedPath(resource.target, platform) {
      assert OwnClaims(resource, platform)[0] == Root(resource, platform);
    } else {
      var entry :| entry in resource.entries && TakesEntry(resource.target, platform, entry, path);
      var claims, claim := EntryClaims(resource, platform), EntryClaim(path, entry.path, entry.isDirectory);
      AcceptedMembers(resource.target, Sort(resource.entries, EntryLe), platform, claim);
      var k :| 0 <= k < |claims| && claims[k] == claim;
      OwnClaimAt(resource, platform, k);
    }
  }

  /** Behind the root, a resource's own claims are those of its entries. */
  lemma OwnClaimAt(resource: Resource, platform: Platform, k: nat)
    requires HasFiles(resource) && k < |EntryClaims(resource, platform)|
    ensures |OwnClaims(resource, platform)| == |EntryClaims(resource, platform)| + 1
    ensures var claim := EntryClaims(resource, platform)[k];
      OwnClaims(resource, platform)[k + 1]
      == Claim(resource.id, resource.target, claim.path, claim.rawPath, false, claim.isDirectory)
  {
  }

  lemma ClaimIsTaken(resource: Resource, platform: Platform, claim: Claim)
    requires claim in OwnClaims(resource, platform)
    requires forall entry :: entry in Sort(resource.entries, EntryLe) <==> entry in resource.entries
    ensures Takes(resource, platform, claim.path)
  {
    var claims := EntryClaims(resource, platform);
    var k :| 0 <= k < |OwnClaims(resource, platform)| && OwnClaims(resource, platform)[k] == claim;
    if k > 0 {
      OwnClaimAt(resource, platform, k - 1);
      AcceptedMembers(resource.target, Sort(resource.entries, EntryLe), platform, claims[k - 1]);
    }
  }

  ghost predicate ClaimsMeet(claim: EntryClaim, other: EntryClaim) {
    && Overlaps(claim.path, other.path)
    && (claim.rawPath == other.rawPath
        || !((Below(claim.path, other.path) && other.isDirectory)
             || (Below(other.path, claim.path) && claim.isDirectory)))
  }

  ghost predicate SomeClaimsMeet(claims: seq<EntryClaim>) {
    exists i, j :: 0 <= i < j < |claims| && ClaimsMeet(claims[i], claims[j])
  }

  lemma MeetWithLast(claims: seq<EntryClaim>, last: EntryClaim)
    ensures SomeClaimsMeet(claims + [last])
      <==> SomeClaimsMeet(claims) || exists claim :: claim in claims && ClaimsMeet(claim, last)
  {
    var all := claims + [last];
    if SomeClaimsMeet(claims) {
      var i, j :| 0 <= i < j < |claims| && ClaimsMeet(claims[i], claims[j]);
      assert all[i] == claims[i] && all[j] == claims[j];
    }
    if claim :| claim in claims && ClaimsMeet(claim, last) {
      var i :| 0 <= i < |claims| && claims[i] == claim;
      assert all[i] == claim && all[|claims|] == last;
    }
  }

  lemma EntriesMeetWithLast(target: string, platform: Platform, entries: seq<Entry>, last: Entry)
    ensures SomeEntriesMeet(target, platform, entries + [last])
      <==> SomeEntriesMeet(target, platform, entries)
           || exists entry :: entry in entries && EntriesMeet(target, platform, entry, last)
  {
    var all := entries + [last];
    if SomeEntriesMeet(target, platform, entries) {
      var i, j :| 0 <= i < j < |entries| && EntriesMeet(target, platform, entries[i], entries[j]);
      assert all[i] == entries[i] && all[j] == entries[j];
    }
    if entry :| entry in entries && EntriesMeet(target, platform, entry, last) {
      var i :| 0 <= i < |entries| && entries[i] == entry;
      assert all[i] == entry && all[|entries|] == last;
    }
  }

  lemma MeetingIsOfEntries(target: string, platform: Platform, entries: seq<Entry>, last: Entry)
    requires InvalidRelativeTargetReason(last.path, platform).None?
    ensures var claim := EntryClaim(NormalizedPath(target + "/" + last.path, platform), last.path, last.isDirectory);
      (exists other :: other in AcceptedClaims(target, entries, platform) && ClaimsMeet(other, claim))
      <==> exists entry :: entry in entries && EntriesMeet(target, platform, entry, last)
  {
    var claim := EntryClaim(NormalizedPath(target + "/" + last.path, platform), last.path, last.isDirectory);
    if other :| other in AcceptedClaims(target, entries, platform) && ClaimsMeet(other, claim) {
      AcceptedMembers(target, entries, platform, other);
    }
    if entry :| entry in entries && EntriesMeet(target, platform, entry, last) {
      var other := EntryClaim(NormalizedPath(target + "/" + entry.path, platform), entry.path, entry.isDirectory);
      assert TakesEntry(target, platform, entry, other.path);
      AcceptedMembers(target, entries, platform, other);
    }
  }

  lemma {:induction false} ClaimsMeetAsEntries(target: string, platform: Platform, entries: seq<Entry>)
    ensures SomeClaimsMeet(AcceptedClaims(target, entries, platform)) <==> SomeEntriesMeet(target, platform, entries)
  {
    if entries != [] {
      var before, last := entries[..|entries| - 1], entries[|entries| - 1];
      assert entries == before + [last];
      ClaimsMeetAsEntries(target, platform, before);
      EntriesMeetWithLast(target, platform, before, last);
      if InvalidRelativeTargetReason(last.path, platform).None? {
        MeetingIsOfEntries(target, platform, before, last);
        MeetWithLast(AcceptedClaims(target, before, platform),
                     EntryClaim(NormalizedPath(target + "/" + last.path, platform), last.path, last.isDirectory));
      }
    }
  }

  lemma MeetingIsSymmetric(target: string, platform: Platform, entry: Entry, other: Entry)
    ensures EntriesMeet(target, platform, entry, other) <==> EntriesMeet(target, platform, other, entry)
  {
    OverlapIsSegmentPrefix(NormalizedPath(target + "/" + entry.path, platform),
                           NormalizedPath(target + "/" + other.path, platform));
  }

  lemma MeetingSurvivesSorting(target: string, platform: Platform, one: seq<Entry>, other: seq<Entry>)
    requires multiset(one) == multiset(other) && SomeEntriesMeet(target, platform, one)
    ensures SomeEntriesMeet(target, platform, other)
  {
    var i, j :| 0 <= i < j < |one| && EntriesMeet(target, platform, one[i], one[j]);
    SameMembers(one, other);
    if one[i] == one[j] {
      Twice(one, i, j);
      TwoPlaces(other, one[i]);
    } else {
      assert one[i] in other && one[j] in other;
      var k :| 0 <= k < |other| && other[k] == one[i];
      var l :| 0 <= l < |other| && other[l] == one[j];
      MeetingIsSymmetric(target, platform, other[k], other[l]);
    }
  }

  lemma ClashAt(resource: Resource, platform: Platform, i: nat, j: nat)
    requires HasFiles(resource) && i < j < |EntryClaims(resource, platform)|
    ensures |OwnClaims(resource, platform)| == |EntryClaims(resource, platform)| + 1
    ensures Clashes(OwnClaims(resource, platform)[i + 1], OwnClaims(resource, platform)[j + 1])
      <==> ClaimsMeet(EntryClaims(resource, platform)[i], EntryClaims(resource, platform)[j])
  {
    OwnClaimAt(resource, platform, i);
    OwnClaimAt(resource, platform, j);
  }

  lemma RootNeverClashes(resource: Resource, platform: Platform, other: Claim)
    requires HasFiles(resource)
    ensures OwnClaims(resource, platform) != [] && !Clashes(OwnClaims(resource, platform)[0], other)
  {
  }

  lemma OwnClashesMeet(resource: Resource, platform: Platform)
    requires ClashWithin(OwnClaims(resource, platform), resource.id)
    ensures HasFiles(resource) && SomeClaimsMeet(EntryClaims(resource, platform))
  {
    var own := OwnClaims(resource, platform);
    var i, j :| 0 <= i < j < |own| && own[i].id == resource.id && Clashes(own[i], own[j]);
    RootNeverClashes(resource, platform, own[j]);
    assert |own| == |EntryClaims(resource, platform)| + 1;
    ClashAt(resource, platform, i - 1, j - 1);
  }

  lemma OwnClashesAreMeetings(resource: Resource, platform: Platform)
    ensures ClashWithin(OwnClaims(resource, platform), resource.id)
      <==> HasFiles(resource) && SomeClaimsMeet(EntryClaims(resource, platform))
  {
    var claims := EntryClaims(resource, platform);
    if ClashWithin(OwnClaims(resource, platform), resource.id) { OwnClashesMeet(resource, platform); }
    if HasFiles(resource) && SomeClaimsMeet(claims) {
      var i, j :| 0 <= i < j < |claims| && ClaimsMeet(claims[i], claims[j]);
      ClashAt(resource, platform, i, j);
      OwnClaimAt(resource, platform, i);
    }
  }

  /** A resource clashes with itself exactly when two of its entries meet. */
  lemma OwnClashesAreOfEntries(resource: Resource, platform: Platform)
    ensures ClashWithin(OwnClaims(resource, platform), resource.id)
      <==> HasFiles(resource) && SomeEntriesMeet(resource.target, platform, resource.entries)
  {
    var sorted := Sort(resource.entries, EntryLe);
    EntryLeIsTotalPreorder();
    SortIsSorted(resource.entries, EntryLe);
    OwnClashesAreMeetings(resource, platform);
    ClaimsMeetAsEntries(resource.target, platform, sorted);
    if SomeEntriesMeet(resource.target, platform, sorted) {
      MeetingSurvivesSorting(resource.target, platform, sorted, resource.entries);
    }
    if SomeEntriesMeet(resource.target, platform, resource.entries) {
      MeetingSurvivesSorting(resource.target, platform, resource.entries, sorted);
    }
  }

  /** Paths of the two resources overlap. */
  ghost predicate PathsMeet(resource: Resource, opposite: Resource, platform: Platform) {
    exists path, other :: Takes(resource, platform, path) && Takes(opposite, platform, other) && Overlaps(path, other)
  }

  lemma MeetingIsOfPaths(resource: Resource, opposite: Resource, platform: Platform)
    ensures Meet(resource, opposite, platform) <==> PathsMeet(resource, opposite, platform)
  {
    if Meet(resource, opposite, platform) {
      var claim, other := MeetingClaims(resource, opposite, platform);
      TakenIsClaimed(resource, platform, claim.path);
      TakenIsClaimed(opposite, platform, other.path);
    }
    if PathsMeet(resource, opposite, platform) {
      var path, other :| Takes(resource, platform, path) && Takes(opposite, platform, other) && Overlaps(path, other);
      TakenIsClaimed(resource, platform, path);
      TakenIsClaimed(opposite, platform, other);
    }
  }

  /** With distinct ids, what is reported is about the resources: two that overlap anywhere, or one that overlaps
      itself. */
  lemma ConflictsAreAboutResources(resources: seq<Resource>, platform: Platform, id: string, other: string)
    requires IdsDiffer(resources)
    ensures OverlapBetween(Claims(resources, platform), id, other)
      <==> exists resource, opposite :: resource in resources && opposite in resources && resource.id == id
                                        && opposite.id == other && PathsMeet(resource, opposite, platform)
    ensures ClashWithin(Claims(resources, platform), id)
      <==> exists resource :: resource in resources && resource.id == id && HasFiles(resource)
                              && SomeEntriesMeet(resource.target, platform, resource.entries)
  {
    forall resource, opposite ensures Meet(resource, opposite, platform) <==> PathsMeet(resource, opposite, platform) {
      MeetingIsOfPaths(resource, opposite, platform);
    }
    forall resource
      ensures ClashWithin(OwnClaims(resource, platform), resource.id)
        <==> HasFiles(resource) && SomeEntriesMeet(resource.target, platform, resource.entries)
    {
      OwnClashesAreOfEntries(resource, platform);
    }
    var sorted := Sort(resources, ResourceLe);
    SortedIdsAreDistinct(resources);
    SameMembers(resources, sorted);
    ClaimsAreOwn(sorted, |sorted|, platform);
    assert sorted[..|sorted|] == sorted;
    ClashIsWithinOne(sorted, platform, id);
    OverlapIsBetweenTwo(sorted, platform, id, other);
  }

  ghost predicate Meet(resource: Resource, opposite: Resource, platform: Platform) {
    exists claim, other :: claim in OwnClaims(resource, platform) && other in OwnClaims(opposite, platform)
                           && Overlaps(claim.path, other.path)
  }

  lemma OwnerOf(resources: seq<Resource>, platform: Platform, claim: Claim) returns (resource: Resource)
    requires claim in OwnOfAll(resources, platform)
    ensures resource in resources && claim in OwnClaims(resource, platform) && claim.id == resource.id
  {
    OwnOfAllMembers(resources, platform, claim);
    resource :| resource in resources && claim in OwnClaims(resource, platform);
    OwnClaimsHaveTheId(resource, platform);
  }

  lemma MeetingClaims(resource: Resource, opposite: Resource, platform: Platform) returns (claim: Claim, other: Claim)
    requires Meet(resource, opposite, platform)
    ensures claim in OwnClaims(resource, platform) && other in OwnClaims(opposite, platform)
            && Overlaps(claim.path, other.path)
    ensures claim.id == resource.id && other.id == opposite.id
  {
    claim, other :| claim in OwnClaims(resource, platform) && other in OwnClaims(opposite, platform)
                    && Overlaps(claim.path, other.path);
    OwnClaimsHaveTheId(resource, platform);
    OwnClaimsHaveTheId(opposite, platform);
  }

  lemma OverlapIsBetweenTwo(resources: seq<Resource>, platform: Platform, id: string, other: string)
    ensures OverlapBetween(OwnOfAll(resources, platform), id, other)
      <==> exists resource, opposite :: resource in resources && opposite in resources && resource.id == id
                                        && opposite.id == other && Meet(resource, opposite, platform)
  {
    var claims := OwnOfAll(resources, platform);
    if OverlapBetween(claims, id, other) {
      var claim, opposite :| claim in claims && opposite in claims && claim.id == id && opposite.id == other
                             && Overlaps(claim.path, opposite.path);
      var left := OwnerOf(resources, platform, claim);
      var right := OwnerOf(resources, platform, opposite);
      assert Meet(left, right, platform);
    }
    if left, right :| left in resources && right in resources && left.id == id && right.id == other
                      && Meet(left, right, platform) {
      var claim, opposite := MeetingClaims(left, right, platform);
      OwnOfAllMembers(resources, platform, claim);
      OwnOfAllMembers(resources, platform, opposite);
    }
  }
}
