/** Defaults and order in a machine profile: `normalizeMachineProfile` of `src/domain/profile.ts`.
    Canonicalizing an index URL is a parameter; it need only be settled after one application. */
module Normalization {
  import opened Options
  import opened Sorting
  import opened Texts
  import opened CanonicalJson

  // ---------------------------------------------------------------- profiles

  datatype Kind = File | Directory | Config | Skill | Tool | Credential

  datatype Policy = Replace | MirrorOwned | Merge | ReplaceIfUnmodified | AppendLocal | Ensure | RequireLocal

  datatype ManagedFile = ManagedFile(path: string, content: string, executable: Option<bool>, mode: Option<nat>,
                                     symlinkTo: Option<string>)

  datatype ManagedDirectory = ManagedDirectory(path: string, mode: nat)

  datatype ConfigKey = ConfigKey(path: string, value: Json)

  datatype IndexPolicy = IndexPolicy(url: string, reviewedBy: string, reviewedAt: string)

  datatype RecipeSource = Plain(source: string) | Metadata(source: string, integrity: Option<string>)

  datatype BuildStep = BuildStep(executable: string, arguments: seq<string>)

  datatype BuildPolicy =
    | ScriptsDisabled
    | Required(reviewedBy: string, reviewedAt: string, executables: seq<string>, paths: seq<string>,
               origins: seq<string>,
               capabilities: seq<string>, steps: seq<BuildStep>)

  datatype Recipe = Recipe(platform: string, via: string, package: string, version: Option<string>,
                           indexPolicy: Option<IndexPolicy>, buildPolicy: Option<BuildPolicy>,
                           source: Option<RecipeSource>)

  datatype Login = NoLogin | Login(howTo: Option<string>)

  datatype AgentInstall = AgentInstall(paths: seq<string>, origins: Option<seq<string>>)

  datatype Spec =
    | FileSpec(content: string, executable: Option<bool>, mode: Option<nat>, symlinkTo: Option<string>)
    | DirectorySpec(mode: Option<nat>, directories: Option<seq<ManagedDirectory>>, files: seq<ManagedFile>)
    | ConfigSpec(format: string, keys: seq<ConfigKey>)
    | SkillSpec(name: string, mode: Option<nat>, directories: Option<seq<ManagedDirectory>>, files: seq<ManagedFile>)
    | ToolSpec(toolId: string, recipes: seq<Recipe>, login: Option<Login>, agentInstall: Option<AgentInstall>)
    | CredentialSpec(reference: string)

  datatype Verification =
    | Digest(digest: string)
    | Command(command: seq<string>, expectContains: Option<string>)
    | ExecutablePresent(executable: string)
    | CredentialPresent(reference: string)
    | Symlink(target: string)

  datatype Resource = Resource(id: string, kind: Kind, policy: Option<Policy>, target: string,
                               groups: Option<seq<string>>, dependsOn: Option<seq<string>>, spec: Spec,
                               verify: Verification)

  datatype Group = Group(name: string, description: Option<string>)

  datatype Schedule = Daily(at: string) | Weekly(days: seq<string>, at: string)

  datatype Profile = Profile(id: string, name: string, groups: Option<seq<Group>>, resources: Option<seq<Resource>>,
                             schedule: Option<Schedule>)

  // ---------------------------------------------------------------- normalization

  type Canonicalizer = string -> Option<string>

  function ListOf<T>(option: Option<seq<T>>): seq<T> {
    OrElse(option, [])
  }

  function DefaultPolicy(kind: Kind): Policy {
    match kind
    case File => Replace
    case Directory => MirrorOwned
    case Config => Merge
    case Skill => ReplaceIfUnmodified
    case Tool => Ensure
    case Credential => RequireLocal
  }

  /** Mode 0o700 for an executable and 0o600 otherwise, when no mode is given. */
  function ModeOf(mode: Option<nat>, executable: Option<bool>): nat {
    OrElse(mode, if executable == Some(true) then 448 else 384)
  }

  /** The owner's execute bit, `mode & 0o100`. */
  predicate IsExecutable(mode: nat) {
    (mode / 64) % 2 == 1
  }

  function NormalFile(file: ManagedFile): ManagedFile {
    if file.symlinkTo.Some? then ManagedFile(file.path, file.content, Some(false), Some(0), file.symlinkTo)
    else var mode := ModeOf(file.mode, file.executable);
         ManagedFile(file.path, file.content, Some(IsExecutable(mode)), Some(mode), None)
  }

  function Map<T, U>(f: T -> U, values: seq<T>): (mapped: seq<U>)
    ensures |mapped| == |values| && forall k :: 0 <= k < |values| ==> mapped[k] == f(values[k])
  {
    seq(|values|, k requires 0 <= k < |values| => f(values[k]))
  }

  predicate FileLe(left: ManagedFile, right: ManagedFile) { TextLe(left.path, right.path) }
  predicate DirectoryLe(left: ManagedDirectory, right: ManagedDirectory) { TextLe(left.path, right.path) }
  predicate KeyLe(left: ConfigKey, right: ConfigKey) { TextLe(left.path, right.path) }
  predicate GroupLe(left: Group, right: Group) { TextLe(left.name, right.name) }
  predicate ResourceLe(left: Resource, right: Resource) { TextLe(left.id, right.id) }
  predicate RecipeLe(left: Recipe, right: Recipe) { TextLe(RecipeKey(left), RecipeKey(right)) }

  /** `JSON.stringify` of an index policy and of a source. */
  function PolicyText(policy: Option<IndexPolicy>): string {
    if policy.None? then "undefined"
    else "{\"url\":" + EncodeText(policy.value.url) + ",\"reviewedBy\":" + EncodeText(policy.value.reviewedBy)
         + ",\"reviewedAt\":" + EncodeText(policy.value.reviewedAt) + "}"
  }

  function SourceText(source: Option<RecipeSource>): string {
    if source.None? then "undefined"
    else match source.value
      case Plain(text) => EncodeText(text)
      case Metadata(text, integrity) =>
        "{\"source\":" + EncodeText(text)
            + (if integrity.Some? then ",\"integrity\":" + EncodeText(integrity.value) else "") + "}"
  }

  /** The text that recipes are ordered by; it holds the index URL as it was written. */
  function RecipeKey(recipe: Recipe): string {
    recipe.platform + "\0" + recipe.via + "\0" + recipe.package + "\0" + OrElse(recipe.version, "") + "\0"
    + PolicyText(recipe.indexPolicy) + "\0" + SourceText(recipe.source)
  }

  function NormalIndex(canonical: Canonicalizer, policy: Option<IndexPolicy>): Option<IndexPolicy> {
    if policy.None? then None
    else Some(policy.value.(url := OrElse(canonical(policy.value.url), policy.value.url)))
  }

  function NormalRecipe(canonical: Canonicalizer, recipe: Recipe): Recipe {
    recipe.(indexPolicy := NormalIndex(canonical, recipe.indexPolicy),
            buildPolicy := Some(OrElse(recipe.buildPolicy, ScriptsDisabled)))
  }

  /** Sorted by the keys as written, then canonicalized: the order in which the source does it. */
  function NormalRecipes(canonical: Canonicalizer, recipes: seq<Recipe>): seq<Recipe> {
    Map(recipe => NormalRecipe(canonical, recipe), Sort(recipes, RecipeLe))
  }

  function NormalSpec(canonical: Canonicalizer, spec: Spec): Spec {
    match spec
    case FileSpec(content, executable, mode, symlinkTo) =>
      if symlinkTo.Some? then FileSpec(content, Some(false), Some(0), symlinkTo)
      else var effective := ModeOf(mode, executable);
           FileSpec(content, Some(IsExecutable(effective)), Some(effective), None)
    case DirectorySpec(mode, directories, files) =>
      DirectorySpec(Some(OrElse(mode, 448)), Some(Sort(ListOf(directories), DirectoryLe)),
                    Sort(Map(NormalFile, files), FileLe))
    case ConfigSpec(format, keys) => ConfigSpec(format, Sort(keys, KeyLe))
    case SkillSpec(name, mode, directories, files) =>
      SkillSpec(name, Some(OrElse(mode, 448)), Some(Sort(ListOf(directories), DirectoryLe)),
                Sort(Map(NormalFile, files), FileLe))
    case ToolSpec(toolId, recipes, login, agentInstall) =>
      ToolSpec(toolId, NormalRecipes(canonical, recipes), Some(OrElse(login, NoLogin)), None)
    case CredentialSpec(reference) => spec
  }

  function NormalResource(canonical: Canonicalizer, resource: Resource): Resource {
    Resource(resource.id, resource.kind, Some(OrElse(resource.policy, DefaultPolicy(resource.kind))), resource.target,
             if resource.groups.Some? then Some(UniqueSorted(resource.groups.value)) else None,
             Some(UniqueSorted(ListOf(resource.dependsOn))), NormalSpec(canonical, resource.spec), resource.verify)
  }

  function NormalSchedule(schedule: Option<Schedule>): Option<Schedule> {
    if schedule.Some? && schedule.value.Weekly?
    then Some(Weekly(UniqueSorted(schedule.value.days), schedule.value.at)) else schedule
  }

  function Normalize(canonical: Canonicalizer, profile: Profile): Profile {
    Profile(profile.id, profile.name, Some(Sort(ListOf(profile.groups), GroupLe)),
            Some(Sort(Map(resource => NormalResource(canonical, resource), ListOf(profile.resources)), ResourceLe)),
            NormalSchedule(profile.schedule))
  }

  // ---------------------------------------------------------------- the orders are orders

  /** Comparing by a text key is a total preorder, whatever the key. */
  ghost predicate ComparesBy<T(!new)>(le: (T, T) -> bool, key: T -> string) {
    forall x, y :: le(x, y) <==> TextLe(key(x), key(y))
  }

  lemma ByKey<T(!new)>(le: (T, T) -> bool, key: T -> string)
    requires ComparesBy(le, key)
    ensures TotalPreorder(le)
  {
    forall x, y ensures le(x, y) || le(y, x) { TextLeIsTotal(key(x), key(y)); }
    forall x, y, z | le(x, y) && le(y, z) ensures le(x, z) { TextLeIsTransitive(key(x), key(y), key(z)); }
  }

  lemma OrdersAreTotal()
    ensures TotalPreorder(FileLe) && TotalPreorder(DirectoryLe) && TotalPreorder(KeyLe)
    ensures TotalPreorder(GroupLe) && TotalPreorder(ResourceLe) && TotalPreorder(RecipeLe)
  {
    ByKey(FileLe, (file: ManagedFile) => file.path);
    ByKey(DirectoryLe, (directory: ManagedDirectory) => directory.path);
    ByKey(KeyLe, (key: ConfigKey) => key.path);
    ByKey(GroupLe, (group: Group) => group.name);
    ByKey(ResourceLe, (resource: Resource) => resource.id);
    ByKey(RecipeLe, RecipeKey);
  }

  // ---------------------------------------------------------------- order and repeats do not matter

  ghost predicate SameElements<T(!new)>(one: seq<T>, other: seq<T>) {
    forall x :: x in one <==> x in other
  }

  /** The same files up to order, each path once. */
  ghost predicate SameDistinct<T(!new)>(one: seq<T>, other: seq<T>, le: (T, T) -> bool) {
    SameElements(one, other) && Untied(one, le) && Untied(other, le)
  }

  ghost predicate SameSpec(one: Spec, other: Spec) {
    match one
    case FileSpec(_, _, _, _) => one == other
    case DirectorySpec(mode, directories, files) =>
      other.DirectorySpec? && mode == other.mode
        && SameDistinct(ListOf(directories), ListOf(other.directories), DirectoryLe)
        && SameDistinct(files, other.files, FileLe)
    case ConfigSpec(format, keys) => other.ConfigSpec? && format == other.format
                                     && SameDistinct(keys, other.keys, KeyLe)
    case SkillSpec(name, mode, directories, files) =>
      other.SkillSpec? && name == other.name && mode == other.mode
        && SameDistinct(ListOf(directories), ListOf(other.directories), DirectoryLe)
        && SameDistinct(files, other.files, FileLe)
    case ToolSpec(toolId, recipes, login, _) =>
      other.ToolSpec? && toolId == other.toolId && login == other.login
        && SameDistinct(recipes, other.recipes, RecipeLe)
    case CredentialSpec(_) => one == other
  }

  ghost predicate SameResource(one: Resource, other: Resource) {
    && one.id == other.id && one.kind == other.kind && one.policy == other.policy && one.target == other.target
    && one.verify == other.verify
    && (one.groups.Some? <==> other.groups.Some?) && SameElements(ListOf(one.groups), ListOf(other.groups))
    && SameElements(ListOf(one.dependsOn), ListOf(other.dependsOn))
    && SameSpec(one.spec, other.spec)
  }

  ghost predicate HasCounterpart(one: Resource, others: seq<Resource>) {
    exists other :: other in others && SameResource(one, other)
  }

  ghost predicate SameSchedule(one: Option<Schedule>, other: Option<Schedule>) {
    if one.Some? && one.value.Weekly? then
      other.Some? && other.value.Weekly? && one.value.at == other.value.at
        && SameElements(one.value.days, other.value.days)
    else one == other
  }

  /** The same profile written in another order, or with a dependency, group or day written twice. */
  ghost predicate SameProfile(one: Profile, other: Profile) {
    && one.id == other.id && one.name == other.name && SameSchedule(one.schedule, other.schedule)
    && SameDistinct(ListOf(one.groups), ListOf(other.groups), GroupLe)
    && Untied(ListOf(one.resources), ResourceLe) && Untied(ListOf(other.resources), ResourceLe)
    && (forall resource :: resource in ListOf(one.resources) ==> HasCounterpart(resource, ListOf(other.resources)))
    && (forall resource :: resource in ListOf(other.resources) ==> HasCounterpart(resource, ListOf(one.resources)))
  }

  lemma SameFiles(one: seq<ManagedFile>, other: seq<ManagedFile>)
    requires SameDistinct(one, other, FileLe)
    ensures Sort(Map(NormalFile, one), FileLe) == Sort(Map(NormalFile, other), FileLe)
  {
    OrdersAreTotal();
    MappedElements(NormalFile, one, other);
    MappedElements(NormalFile, other, one);
    SortOfSameElements(Map(NormalFile, one), Map(NormalFile, other), FileLe);
  }

  lemma MappedElements<T(!new), U>(f: T -> U, one: seq<T>, other: seq<T>)
    requires forall x :: x in one ==> x in other
    ensures forall y :: y in Map(f, one) ==> y in Map(f, other)
  {
    forall y | y in Map(f, one) ensures y in Map(f, other) {
      var k :| 0 <= k < |one| && f(one[k]) == y;
      assert one[k] in one;
      var j :| 0 <= j < |other| && other[j] == one[k];
      assert Map(f, other)[j] == y;
    }
  }

  lemma SameSpecNormalizes(canonical: Canonicalizer, one: Spec, other: Spec)
    requires SameSpec(one, other)
    ensures NormalSpec(canonical, one) == NormalSpec(canonical, other)
  {
    OrdersAreTotal();
    match one
    case DirectorySpec(_, directories, files) =>
      SortOfSameElements(ListOf(directories), ListOf(other.directories), DirectoryLe);
      SameFiles(files, other.files);
    case SkillSpec(_, _, directories, files) =>
      SortOfSameElements(ListOf(directories), ListOf(other.directories), DirectoryLe);
      SameFiles(files, other.files);
    case ConfigSpec(_, keys) => SortOfSameElements(keys, other.keys, KeyLe);
    case ToolSpec(_, recipes, _, _) => SortOfSameElements(recipes, other.recipes, RecipeLe);
    case _ =>
  }

  lemma SameResourceNormalizes(canonical: Canonicalizer, one: Resource, other: Resource)
    requires SameResource(one, other)
    ensures NormalResource(canonical, one) == NormalResource(canonical, other)
  {
    UniqueSortedOfSameElements(ListOf(one.groups), ListOf(other.groups));
    UniqueSortedOfSameElements(ListOf(one.dependsOn), ListOf(other.dependsOn));
    SameSpecNormalizes(canonical, one.spec, other.spec);
  }

  function NormalResources(canonical: Canonicalizer, resources: seq<Resource>): seq<Resource> {
    Map(resource => NormalResource(canonical, resource), resources)
  }

  lemma NormalResourcesKeepIds(canonical: Canonicalizer, resources: seq<Resource>)
    requires Untied(resources, ResourceLe)
    ensures Untied(NormalResources(canonical, resources), ResourceLe)
  {
  }

  lemma CounterpartsNormalize(canonical: Canonicalizer, one: seq<Resource>, other: seq<Resource>)
    requires forall resource :: resource in one ==> HasCounterpart(resource, other)
    ensures forall resource :: resource in NormalResources(canonical, one)
                               ==> resource in NormalResources(canonical, other)
  {
    var mapped := NormalResources(canonical, other);
    forall resource | resource in NormalResources(canonical, one) ensures resource in mapped {
      var k :| 0 <= k < |one| && NormalResource(canonical, one[k]) == resource;
      assert one[k] in one;
      var counterpart :| counterpart in other && SameResource(one[k], counterpart);
      SameResourceNormalizes(canonical, one[k], counterpart);
      var j :| 0 <= j < |other| && other[j] == counterpart;
      assert mapped[j] == resource;
    }
  }

  /** Reordering or repeating what has no order never changes the normalized profile. */
  lemma NormalizeIgnoresOrder(canonical: Canonicalizer, one: Profile, other: Profile)
    requires SameProfile(one, other)
    ensures Normalize(canonical, one) == Normalize(canonical, other)
  {
    OrdersAreTotal();
    var left, right := ListOf(one.resources), ListOf(other.resources);
    SortOfSameElements(ListOf(one.groups), ListOf(other.groups), GroupLe);
    CounterpartsNormalize(canonical, left, right);
    CounterpartsNormalize(canonical, right, left);
    NormalResourcesKeepIds(canonical, left);
    NormalResourcesKeepIds(canonical, right);
    SortOfSameElements(NormalResources(canonical, left), NormalResources(canonical, right), ResourceLe);
    if one.schedule.Some? && one.schedule.value.Weekly? {
      UniqueSortedOfSameElements(one.schedule.value.days, other.schedule.value.days);
    }
  }

  // ---------------------------------------------------------------- what normalization keeps

  /** A file comes through with its path and content; a link has no mode, and anything else has the mode that was given,
      or else one for the owner alone: 0o700 if it is executable and 0o600 if not. */
  ghost predicate FileMeans(authored: ManagedFile, normal: ManagedFile) {
    && normal.path == authored.path && normal.content == authored.content
    && ModeMeans(authored.executable, authored.mode, authored.symlinkTo, normal.executable, normal.mode,
                 normal.symlinkTo)
  }

  ghost predicate ModeMeans(executable: Option<bool>, mode: Option<nat>, symlinkTo: Option<string>,
                            executable': Option<bool>, mode': Option<nat>, symlinkTo': Option<string>)
  {
    && symlinkTo' == symlinkTo
    && (symlinkTo.Some? ==> mode' == Some(0) && executable' == Some(false))
    && (symlinkTo.None? ==>
          && mode'.Some? && (mode.Some? ==> mode' == mode)
          && (mode.None? && executable == Some(true) ==> mode' == Some(7 * 64))
          && (mode.None? && executable != Some(true) ==> mode' == Some(6 * 64))
          && executable' == Some(mode'.value % 128 >= 64))
  }

  /** A recipe comes through but for its build policy, if it had none, and its index URL, which is canonicalized where
      that is possible. */
  ghost predicate RecipeMeans(canonical: Canonicalizer, authored: Recipe, normal: Recipe) {
    && normal.platform == authored.platform && normal.via == authored.via && normal.package == authored.package
    && normal.version == authored.version && normal.source == authored.source
    && (authored.buildPolicy.Some? ==> normal.buildPolicy == authored.buildPolicy)
    && (authored.buildPolicy.None? ==> normal.buildPolicy == Some(ScriptsDisabled))
    && (authored.indexPolicy.None? ==> normal.indexPolicy.None?)
    && (authored.indexPolicy.Some? ==>
          && normal.indexPolicy.Some? && normal.indexPolicy.value.reviewedBy == authored.indexPolicy.value.reviewedBy
          && normal.indexPolicy.value.reviewedAt == authored.indexPolicy.value.reviewedAt
          && (canonical(authored.indexPolicy.value.url).Some?
              ==> Some(normal.indexPolicy.value.url) == canonical(authored.indexPolicy.value.url))
          && (canonical(authored.indexPolicy.value.url).None?
              ==> normal.indexPolicy.value.url == authored.indexPolicy.value.url))
  }

  ghost predicate Pairwise<T, U>(means: (T, U) -> bool, authored: seq<T>, normal: seq<U>) {
    |authored| == |normal| && forall k :: 0 <= k < |authored| ==> means(authored[k], normal[k])
  }

  /** Each entry that was authored is there, as often as it was, in some order. */
  ghost predicate EachMeans<T(!new), U>(means: (T, U) -> bool, authored: seq<T>, normal: seq<U>) {
    exists arranged: seq<T> :: multiset(arranged) == multiset(authored) && Pairwise(means, arranged, normal)
  }

  ghost predicate FilesMean(authored: seq<ManagedFile>, normal: seq<ManagedFile>) {
    EachMeans((file, file') => FileMeans(file, file'), authored, normal)
    && forall j, k :: 0 <= j < k < |normal| ==> TextLe(normal[j].path, normal[k].path)
  }

  ghost predicate DirectoriesMean(authored: Option<seq<ManagedDirectory>>, normal: Option<seq<ManagedDirectory>>) {
    && normal.Some?
    && multiset(normal.value) == (if authored.Some? then multiset(authored.value) else multiset{})
    && forall j, k :: 0 <= j < k < |normal.value| ==> TextLe(normal.value[j].path, normal.value[k].path)
  }

  /** A directory's mode is the one given, or else 0o700. */
  ghost predicate RootModeMeans(authored: Option<nat>, normal: Option<nat>) {
    (authored.Some? ==> normal == authored) && (authored.None? ==> normal == Some(7 * 64))
  }

  ghost predicate SpecMeans(canonical: Canonicalizer, authored: Spec, normal: Spec) {
    match authored
    case FileSpec(content, executable, mode, symlinkTo) =>
      normal.FileSpec? && normal.content == content
        && ModeMeans(executable, mode, symlinkTo, normal.executable, normal.mode, normal.symlinkTo)
    case DirectorySpec(mode, directories, files) =>
      normal.DirectorySpec? && RootModeMeans(mode, normal.mode) && DirectoriesMean(directories, normal.directories)
        && FilesMean(files, normal.files)
    case ConfigSpec(format, keys) =>
      normal.ConfigSpec? && normal.format == format && multiset(normal.keys) == multiset(keys)
        && forall j, k :: 0 <= j < k < |normal.keys| ==> TextLe(normal.keys[j].path, normal.keys[k].path)
    case SkillSpec(name, mode, directories, files) =>
      normal.SkillSpec? && normal.name == name && RootModeMeans(mode, normal.mode)
        && DirectoriesMean(directories, normal.directories) && FilesMean(files, normal.files)
    case ToolSpec(toolId, recipes, login, _) =>
      normal.ToolSpec? && normal.toolId == toolId && (login.Some? ==> normal.login == login)
        && (login.None? ==> normal.login == Some(NoLogin)) && normal.agentInstall.None?
        && EachMeans((recipe, recipe') => RecipeMeans(canonical, recipe, recipe'), recipes, normal.recipes)
    case CredentialSpec(reference) => normal == authored
  }

  /** What a kind of resource is for, if its policy is not given. */
  ghost predicate PolicyMeans(kind: Kind, authored: Option<Policy>, normal: Option<Policy>) {
    && (authored.Some? ==> normal == authored)
    && (authored.None? ==>
          && (kind == File ==> normal == Some(Replace)) && (kind == Directory ==> normal == Some(MirrorOwned))
          && (kind == Config ==> normal == Some(Merge)) && (kind == Skill ==> normal == Some(ReplaceIfUnmodified))
          && (kind == Tool ==> normal == Some(Ensure)) && (kind == Credential ==> normal == Some(RequireLocal)))
  }

  /** The same texts, each once and in order. */
  ghost predicate SetMeans(authored: seq<string>, normal: seq<string>) {
    && SameElements(normal, authored)
    && forall j, k :: 0 <= j < k < |normal| ==> TextLe(normal[j], normal[k]) && normal[j] != normal[k]
  }

  /** All a follower acts on is still there: only order, repeats, omitted defaults and a tool's agent bounds may
      differ. */
  ghost predicate ResourceMeans(canonical: Canonicalizer, authored: Resource, normal: Resource) {
    && normal.id == authored.id && normal.kind == authored.kind && normal.target == authored.target
    && normal.verify == authored.verify && PolicyMeans(authored.kind, authored.policy, normal.policy)
    && (normal.groups.Some? <==> authored.groups.Some?) && SetMeans(ListOf(authored.groups), ListOf(normal.groups))
    && normal.dependsOn.Some? && SetMeans(ListOf(authored.dependsOn), normal.dependsOn.value)
    && SpecMeans(canonical, authored.spec, normal.spec)
  }

  lemma FirstBehindMap<T, U>(f: T -> U, values: seq<T>, mapped: seq<U>) returns (k: nat)
    requires multiset(mapped) == multiset(Map(f, values)) && mapped != []
    ensures k < |values| && f(values[k]) == mapped[0]
    ensures multiset(mapped[1..]) == multiset(Map(f, WithoutAt(values, k)))
  {
    assert mapped[0] in multiset(Map(f, values));
    k :| 0 <= k < |values| && Map(f, values)[k] == mapped[0];
    CutMapped(f, values, k);
    Cut(mapped, 0);
    assert WithoutAt(mapped, 0) == mapped[1..];
  }

  lemma NothingBehindMap<T, U>(f: T -> U, values: seq<T>, mapped: seq<U>)
    requires multiset(mapped) == multiset(Map(f, values)) && mapped == []
    ensures values == []
  {
    assert |Map(f, values)| == |multiset(Map(f, values))| == 0;
  }

  lemma {:induction false} ArrangedBehindMap<T, U>(f: T -> U, values: seq<T>, mapped: seq<U>)
    returns (arranged: seq<T>)
    requires multiset(mapped) == multiset(Map(f, values))
    ensures multiset(arranged) == multiset(values) && Map(f, arranged) == mapped
    decreases |mapped|
  {
    if mapped == [] {
      NothingBehindMap(f, values, mapped);
      return [];
    }
    var k := FirstBehindMap(f, values, mapped);
    var rest := ArrangedBehindMap(f, WithoutAt(values, k), mapped[1..]);
    Cut(values, k);
    MapOfFirst(f, values[k], rest);
    arranged := [values[k]] + rest;
    assert mapped == [mapped[0]] + mapped[1..];
  }

  lemma MapOfFirst<T, U>(f: T -> U, first: T, rest: seq<T>)
    ensures Map(f, [first] + rest) == [f(first)] + Map(f, rest)
    ensures multiset([first] + rest) == multiset{first} + multiset(rest)
  {
  }

  function WithoutAt<T>(values: seq<T>, k: nat): seq<T>
    requires k < |values|
  {
    values[..k] + values[k + 1..]
  }

  lemma Cut<T>(values: seq<T>, k: nat)
    requires k < |values|
    ensures multiset(WithoutAt(values, k)) == multiset(values) - multiset{values[k]}
    ensures multiset(values) == multiset(WithoutAt(values, k)) + multiset{values[k]}
  {
    assert values == values[..k] + [values[k]] + values[k + 1..];
  }

  lemma CutMapped<T, U>(f: T -> U, values: seq<T>, k: nat)
    requires k < |values|
    ensures multiset(Map(f, values)) == multiset(Map(f, WithoutAt(values, k))) + multiset{f(values[k])}
  {
    Cut(Map(f, values), k);
    assert WithoutAt(Map(f, values), k) == Map(f, WithoutAt(values, k));
  }

  /** What holds of each entry and its image holds of the list and its images in any order. */
  lemma EachImageMeans<T(!new), U>(means: (T, U) -> bool, f: T -> U, authored: seq<T>, normal: seq<U>)
    requires multiset(normal) == multiset(Map(f, authored)) && forall x :: means(x, f(x))
    ensures EachMeans(means, authored, normal)
  {
    var arranged := ArrangedBehindMap(f, authored, normal);
    assert Pairwise(means, arranged, normal);
  }

  lemma NormalFileMeans(file: ManagedFile)
    ensures FileMeans(file, NormalFile(file))
  {
  }

  lemma FilesKeepMeaning(files: seq<ManagedFile>)
    ensures FilesMean(files, Sort(Map(NormalFile, files), FileLe))
  {
    OrdersAreTotal();
    SortIsSorted(Map(NormalFile, files), FileLe);
    forall file ensures FileMeans(file, NormalFile(file)) { NormalFileMeans(file); }
    EachImageMeans((file, file') => FileMeans(file, file'), NormalFile, files, Sort(Map(NormalFile, files), FileLe));
  }

  lemma RecipesKeepMeaning(canonical: Canonicalizer, recipes: seq<Recipe>)
    ensures EachMeans((recipe, recipe') => RecipeMeans(canonical, recipe, recipe'), recipes,
                      NormalRecipes(canonical, recipes))
  {
    OrdersAreTotal();
    SortIsSorted(recipes, RecipeLe);
    assert Pairwise((recipe, recipe') => RecipeMeans(canonical, recipe, recipe'), Sort(recipes, RecipeLe),
                    NormalRecipes(canonical, recipes));
  }

  lemma DirectoriesKeepMeaning(directories: Option<seq<ManagedDirectory>>)
    ensures DirectoriesMean(directories, Some(Sort(ListOf(directories), DirectoryLe)))
  {
    OrdersAreTotal();
    SortIsSorted(ListOf(directories), DirectoryLe);
  }

  lemma SpecKeepsMeaning(canonical: Canonicalizer, spec: Spec)
    ensures SpecMeans(canonical, spec, NormalSpec(canonical, spec))
  {
    match spec
    case DirectorySpec(_, directories, files) =>
      DirectoriesKeepMeaning(directories);
      FilesKeepMeaning(files);
    case SkillSpec(_, _, directories, files) =>
      DirectoriesKeepMeaning(directories);
      FilesKeepMeaning(files);
    case ConfigSpec(_, keys) =>
      OrdersAreTotal();
      SortIsSorted(keys, KeyLe);
    case ToolSpec(_, recipes, _, _) => RecipesKeepMeaning(canonical, recipes);
    case _ =>
  }

  lemma UniqueSortedMeans(values: seq<string>)
    ensures SetMeans(values, UniqueSorted(values))
  {
    var sorted := UniqueSorted(values);
    UniqueSortedIsSorted(values);
    forall j, k | 0 <= j < k < |sorted| ensures TextLe(sorted[j], sorted[k]) && sorted[j] != sorted[k] {
      Twice(sorted, j, k);
    }
  }

  lemma ResourceKeepsMeaning(canonical: Canonicalizer, resource: Resource)
    ensures ResourceMeans(canonical, resource, NormalResource(canonical, resource))
  {
    UniqueSortedMeans(ListOf(resource.groups));
    UniqueSortedMeans(ListOf(resource.dependsOn));
    SpecKeepsMeaning(canonical, resource.spec);
  }

  /** The schedule that was authored, its days each once and in order, or still none. */
  ghost predicate ScheduleMeans(authored: Option<Schedule>, normal: Option<Schedule>) {
    match authored
    case None => normal.None?
    case Some(Daily(at)) => normal == Some(Daily(at))
    case Some(Weekly(days, at)) =>
      normal.Some? && normal.value.Weekly? && normal.value.at == at && SetMeans(days, normal.value.days)
  }

  /** Every authored resource is there, as often as it was written, meaning the same; ids come in order. */
  lemma NormalizeKeepsMeaning(canonical: Canonicalizer, profile: Profile)
    ensures var normal := Normalize(canonical, profile);
      && normal.id == profile.id && normal.name == profile.name && normal.groups.Some? && normal.resources.Some?
      && multiset(normal.groups.value) == (if profile.groups.Some? then multiset(profile.groups.value) else multiset{})
      && (forall j, k :: 0 <= j < k < |normal.groups.value|
                         ==> TextLe(normal.groups.value[j].name, normal.groups.value[k].name))
      && EachMeans((resource, resource') => ResourceMeans(canonical, resource, resource'), ListOf(profile.resources),
                   normal.resources.value)
      && (forall j, k :: 0 <= j < k < |normal.resources.value|
                         ==> TextLe(normal.resources.value[j].id, normal.resources.value[k].id))
      && ScheduleMeans(profile.schedule, normal.schedule)
  {
    var authored := ListOf(profile.resources);
    OrdersAreTotal();
    SortIsSorted(ListOf(profile.groups), GroupLe);
    SortIsSorted(NormalResources(canonical, authored), ResourceLe);
    if profile.schedule.Some? && profile.schedule.value.Weekly? { UniqueSortedMeans(profile.schedule.value.days); }
    forall resource ensures ResourceMeans(canonical, resource, NormalResource(canonical, resource)) {
      ResourceKeepsMeaning(canonical, resource);
    }
    EachImageMeans((resource, resource') => ResourceMeans(canonical, resource, resource'),
                   resource => NormalResource(canonical, resource), authored,
                   Normalize(canonical, profile).resources.value);
  }

  // ---------------------------------------------------------------- normalizing again

  /** Canonicalizing a canonical URL changes nothing. */
  ghost predicate Settles(canonical: Canonicalizer) {
    forall url :: canonical(url).Some? ==> canonical(canonical(url).value) == canonical(url)
  }

  /** The guard, on the recipes as they were written: of two with different keys, canonicalizing the URLs leaves the
      smaller one not greater. */
  ghost predicate RecipesStayOrdered(canonical: Canonicalizer, spec: Spec) {
    spec.ToolSpec? ==> forall x, y :: x in spec.recipes && y in spec.recipes ==> StaysOrdered(canonical, x, y)
  }

  ghost predicate StaysOrdered(canonical: Canonicalizer, x: Recipe, y: Recipe) {
    RecipeLe(x, y) && !RecipeLe(y, x) ==> RecipeLe(NormalRecipe(canonical, x), NormalRecipe(canonical, y))
  }

  lemma EncodedCharHasNoNul(c: char)
    ensures '\0' !in EncodeChar(c)
  {
  }

  lemma {:induction false} EncodedHasNoNul(text: string)
    ensures '\0' !in EncodeChars(text)
  {
    if text != "" {
      EncodedHasNoNul(text[1..]);
      EncodedCharHasNoNul(text[0]);
    }
  }

  lemma QuotedHasNoNul(text: string)
    ensures '\0' !in EncodeText(text)
  {
    EncodedHasNoNul(text);
  }

  lemma SourceTextHasNoNul(source: Option<RecipeSource>)
    ensures '\0' !in SourceText(source)
  {
    if source.Some? {
      QuotedHasNoNul(source.value.source);
      if source.value.Metadata? && source.value.integrity.Some? { QuotedHasNoNul(source.value.integrity.value); }
    }
  }

  lemma PolicyTextHasNoNul(policy: Option<IndexPolicy>)
    ensures '\0' !in PolicyText(policy)
  {
    if policy.Some? {
      QuotedHasNoNul(policy.value.url);
      QuotedHasNoNul(policy.value.reviewedBy);
      QuotedHasNoNul(policy.value.reviewedAt);
    }
  }

  /** A quoted text ends where it ends. */
  lemma QuotedThen(text: string, rest: string, text': string, rest': string)
    requires EncodeText(text) + rest == EncodeText(text') + rest'
    ensures text == text' && rest == rest'
  {
    TextIsRead(text, rest);
    TextIsRead(text', rest');
  }

  lemma SameAfter(prefix: string, rest: string, rest': string)
    requires prefix + rest == prefix + rest'
    ensures rest == rest'
  {
    assert (prefix + rest)[|prefix|..] == rest && (prefix + rest')[|prefix|..] == rest';
  }

  lemma PolicyParts(url: string, reviewedBy: string, reviewedAt: string)
    ensures PolicyText(Some(IndexPolicy(url, reviewedBy, reviewedAt)))
            == "{\"url\":" + (EncodeText(url) + (",\"reviewedBy\":" + (EncodeText(reviewedBy)
               + (",\"reviewedAt\":" + (EncodeText(reviewedAt) + "}")))))
  {
    SevenParts("{\"url\":", EncodeText(url), ",\"reviewedBy\":", EncodeText(reviewedBy), ",\"reviewedAt\":",
               EncodeText(reviewedAt), "}");
  }

  lemma SevenParts(a: string, b: string, c: string, d: string, e: string, f: string, g: string)
    ensures a + b + c + d + e + f + g == a + (b + (c + (d + (e + (f + g)))))
  {
  }

  /** An index policy can be told from its text. */
  lemma PolicyTextIsInjective(one: Option<IndexPolicy>, other: Option<IndexPolicy>)
    requires PolicyText(one) == PolicyText(other)
    ensures one == other
  {
    FirstOfPolicyText(one);
    FirstOfPolicyText(other);
    if one.Some? && other.Some? {
      var x, y := one.value, other.value;
      PolicyParts(x.url, x.reviewedBy, x.reviewedAt);
      PolicyParts(y.url, y.reviewedBy, y.reviewedAt);
      PartsAreEqual(x.url, x.reviewedBy, x.reviewedAt, y.url, y.reviewedBy, y.reviewedAt, "{\"url\":",
                    ",\"reviewedBy\":", ",\"reviewedAt\":");
    }
  }

  lemma FirstOfSourceText(source: Option<RecipeSource>)
    ensures SourceText(source) != ""
    ensures SourceText(source)[0]
            == if source.None? then 'u' else if source.value.Plain? then '"' else '{'
  {
    if source.Some? && source.value.Metadata? { MetadataText(source.value.source, source.value.integrity); }
  }

  function IntegrityText(integrity: Option<string>): string {
    if integrity.Some? then ",\"integrity\":" + (EncodeText(integrity.value) + "}") else "}"
  }

  lemma MetadataText(text: string, integrity: Option<string>)
    ensures SourceText(Some(Metadata(text, integrity)))
            == "{\"source\":" + (EncodeText(text) + IntegrityText(integrity))
  {
    var before, quoted := "{\"source\":", EncodeText(text);
    if integrity.Some? {
      FiveParts(before, quoted, ",\"integrity\":", EncodeText(integrity.value), "}");
    } else {
      assert quoted + "" + "}" == quoted + "}";
    }
  }

  lemma FiveParts(a: string, b: string, c: string, d: string, e: string)
    ensures a + b + (c + d) + e == a + (b + (c + (d + e)))
  {
  }

  lemma IntegrityIsTold(one: Option<string>, other: Option<string>)
    requires IntegrityText(one) == IntegrityText(other)
    ensures one == other
  {
    if one.Some? && other.Some? {
      SameAfter(",\"integrity\":", EncodeText(one.value) + "}", EncodeText(other.value) + "}");
      QuotedThen(one.value, "}", other.value, "}");
    } else {
      assert IntegrityText(one)[0] == if one.Some? then ',' else '}';
      assert IntegrityText(other)[0] == if other.Some? then ',' else '}';
    }
  }

  /** A source can be told from its text. */
  lemma SourceTextIsInjective(one: Option<RecipeSource>, other: Option<RecipeSource>)
    requires SourceText(one) == SourceText(other)
    ensures one == other
  {
    FirstOfSourceText(one);
    FirstOfSourceText(other);
    if one.Some? && other.Some? {
      var x, y := one.value, other.value;
      if x.Plain? {
        assert EncodeText(x.source) + "" == EncodeText(x.source) && EncodeText(y.source) + "" == EncodeText(y.source);
        QuotedThen(x.source, "", y.source, "");
      } else {
        MetadataText(x.source, x.integrity);
        MetadataText(y.source, y.integrity);
        SameAfter("{\"source\":", EncodeText(x.source) + IntegrityText(x.integrity),
                  EncodeText(y.source) + IntegrityText(y.integrity));
        QuotedThen(x.source, IntegrityText(x.integrity), y.source, IntegrityText(y.integrity));
        IntegrityIsTold(x.integrity, y.integrity);
      }
    }
  }

  lemma FirstOfPolicyText(policy: Option<IndexPolicy>)
    ensures PolicyText(policy) != "" && PolicyText(policy)[0] == if policy.Some? then '{' else 'u'
  {
    if policy.Some? { PolicyParts(policy.value.url, policy.value.reviewedBy, policy.value.reviewedAt); }
  }

  lemma PartsAreEqual(a: string, b: string, c: string, a': string, b': string, c': string, first: string,
                      second: string, third: string)
    requires first + (EncodeText(a) + (second + (EncodeText(b) + (third + (EncodeText(c) + "}")))))
             == first + (EncodeText(a') + (second + (EncodeText(b') + (third + (EncodeText(c') + "}")))))
    ensures a == a' && b == b' && c == c'
  {
    var z, z' := EncodeText(c) + "}", EncodeText(c') + "}";
    var y, y' := EncodeText(b) + (third + z), EncodeText(b') + (third + z');
    var x, x' := EncodeText(a) + (second + y), EncodeText(a') + (second + y');
    SameAfter(first, x, x');
    QuotedThen(a, second + y, a', second + y');
    SameAfter(second, y, y');
    QuotedThen(b, third + z, b', third + z');
    SameAfter(third, z, z');
    QuotedThen(c, "}", c', "}");
  }

  /** Recipes with one key keep one key. */
  lemma TiesStayTied(canonical: Canonicalizer, x: Recipe, y: Recipe)
    requires RecipeKey(x) == RecipeKey(y)
    ensures RecipeKey(NormalRecipe(canonical, x)) == RecipeKey(NormalRecipe(canonical, y))
  {
    SourceTextHasNoNul(x.source);
    SourceTextHasNoNul(y.source);
    PolicyTextHasNoNul(x.indexPolicy);
    PolicyTextHasNoNul(y.indexPolicy);
    KeyParts(x);
    KeyParts(y);
    CutAtLast(KeyHead(x) + "\0" + PolicyText(x.indexPolicy), KeyHead(y) + "\0" + PolicyText(y.indexPolicy), '\0',
              SourceText(x.source), SourceText(y.source));
    CutAtLast(KeyHead(x), KeyHead(y), '\0', PolicyText(x.indexPolicy), PolicyText(y.indexPolicy));
    PolicyTextIsInjective(x.indexPolicy, y.indexPolicy);
    KeyParts(NormalRecipe(canonical, x));
    KeyParts(NormalRecipe(canonical, y));
  }

  ghost predicate HasNoNul(recipe: Recipe) {
    && '\0' !in recipe.platform && '\0' !in recipe.via && '\0' !in recipe.package
    && '\0' !in OrElse(recipe.version, "")
  }

  /** The key tells everything that recipes are ordered by. */
  lemma KeyTellsRecipe(x: Recipe, y: Recipe)
    requires HasNoNul(x) && HasNoNul(y) && RecipeKey(x) == RecipeKey(y)
    ensures x.platform == y.platform && x.via == y.via && x.package == y.package
    ensures OrElse(x.version, "") == OrElse(y.version, "")
    ensures x.indexPolicy == y.indexPolicy && x.source == y.source
  {
    SourceTextHasNoNul(x.source);
    SourceTextHasNoNul(y.source);
    PolicyTextHasNoNul(x.indexPolicy);
    PolicyTextHasNoNul(y.indexPolicy);
    KeyParts(x);
    KeyParts(y);
    CutAtLast(KeyHead(x) + "\0" + PolicyText(x.indexPolicy), KeyHead(y) + "\0" + PolicyText(y.indexPolicy), '\0',
              SourceText(x.source), SourceText(y.source));
    CutAtLast(KeyHead(x), KeyHead(y), '\0', PolicyText(x.indexPolicy), PolicyText(y.indexPolicy));
    PolicyTextIsInjective(x.indexPolicy, y.indexPolicy);
    SourceTextIsInjective(x.source, y.source);
    HeadTellsRecipe(x, y);
  }

  lemma HeadTellsRecipe(x: Recipe, y: Recipe)
    requires HasNoNul(x) && HasNoNul(y) && KeyHead(x) == KeyHead(y)
    ensures x.platform == y.platform && x.via == y.via && x.package == y.package
    ensures OrElse(x.version, "") == OrElse(y.version, "")
  {
    CutAtLast(x.platform + "\0" + x.via + "\0" + x.package, y.platform + "\0" + y.via + "\0" + y.package, '\0',
              OrElse(x.version, ""), OrElse(y.version, ""));
    CutAtLast(x.platform + "\0" + x.via, y.platform + "\0" + y.via, '\0', x.package, y.package);
    CutAtLast(x.platform, y.platform, '\0', x.via, y.via);
  }

  /** The part of a key before the index policy. */
  function KeyHead(recipe: Recipe): string {
    recipe.platform + "\0" + recipe.via + "\0" + recipe.package + "\0" + OrElse(recipe.version, "")
  }

  lemma KeyParts(recipe: Recipe)
    ensures RecipeKey(recipe) == KeyHead(recipe) + "\0" + PolicyText(recipe.indexPolicy) + "\0"
            + SourceText(recipe.source)
  {
  }

  lemma SortedMeansStayOrdered(canonical: Canonicalizer, recipes: seq<Recipe>, x: Recipe, y: Recipe)
    requires IsSorted(NormalRecipes(canonical, recipes), RecipeLe) && x in recipes && y in recipes
    ensures StaysOrdered(canonical, x, y)
  {
    var j := PlaceInOrder(recipes, x);
    var k := PlaceInOrder(recipes, y);
    if j < k {
      InOrder(NormalRecipes(canonical, recipes), j, k);
    } else {
      OrdersAreTotal();
      SortIsSorted(recipes, RecipeLe);
      if k < j { InOrder(Sort(recipes, RecipeLe), k, j); }
    }
  }

  lemma PlaceInOrder(recipes: seq<Recipe>, recipe: Recipe) returns (k: nat)
    requires recipe in recipes
    ensures k < |Sort(recipes, RecipeLe)| && Sort(recipes, RecipeLe)[k] == recipe
  {
    OrdersAreTotal();
    MembersOfSort(recipes, RecipeLe);
    k :| 0 <= k < |Sort(recipes, RecipeLe)| && Sort(recipes, RecipeLe)[k] == recipe;
  }

  lemma InOrder(recipes: seq<Recipe>, j: nat, k: nat)
    requires IsSorted(recipes, RecipeLe) && j < k < |recipes|
    ensures RecipeLe(recipes[j], recipes[k])
  {
  }

  lemma NextStaysOrdered(canonical: Canonicalizer, x: Recipe, y: Recipe)
    requires RecipeLe(x, y) && StaysOrdered(canonical, x, y)
    ensures RecipeLe(NormalRecipe(canonical, x), NormalRecipe(canonical, y))
  {
    if RecipeLe(y, x) { TiedIsOrdered(canonical, x, y); }
  }

  /** The guard says that the normal recipes come out in order. */
  lemma StayOrderedMeansSorted(canonical: Canonicalizer, recipes: seq<Recipe>)
    ensures IsSorted(NormalRecipes(canonical, recipes), RecipeLe)
      <==> forall x, y :: x in recipes && y in recipes ==> StaysOrdered(canonical, x, y)
  {
    OrdersAreTotal();
    var sorted, normal := Sort(recipes, RecipeLe), NormalRecipes(canonical, recipes);
    SortIsSorted(recipes, RecipeLe);
    MembersOfSort(recipes, RecipeLe);
    if IsSorted(normal, RecipeLe) {
      forall x, y | x in recipes && y in recipes { SortedMeansStayOrdered(canonical, recipes, x, y); }
    }
    if forall x, y :: x in recipes && y in recipes ==> StaysOrdered(canonical, x, y) {
      forall j, k | 0 <= j < k < |normal| ensures RecipeLe(normal[j], normal[k]) {
        assert sorted[j] in recipes && sorted[k] in recipes;
        NextStaysOrdered(canonical, sorted[j], sorted[k]);
      }
    }
  }

  lemma TiedIsOrdered(canonical: Canonicalizer, x: Recipe, y: Recipe)
    requires RecipeLe(x, y) && RecipeLe(y, x)
    ensures RecipeLe(NormalRecipe(canonical, x), NormalRecipe(canonical, y))
  {
    TextLeIsTotal(RecipeKey(x), RecipeKey(y));
    TiesStayTied(canonical, x, y);
    TextLeIsTotal(RecipeKey(NormalRecipe(canonical, x)), RecipeKey(NormalRecipe(canonical, y)));
  }

  /** A URL that canonicalizing leaves as it is, or refuses. */
  predicate IsCanonical(canonical: Canonicalizer, recipe: Recipe) {
    recipe.indexPolicy.Some? ==>
      OrElse(canonical(recipe.indexPolicy.value.url), recipe.indexPolicy.value.url) == recipe.indexPolicy.value.url
  }

  /** Index URLs that are written canonically keep every order. */
  lemma CanonicalUrlsStayOrdered(canonical: Canonicalizer, spec: Spec)
    requires spec.ToolSpec? ==> forall recipe :: recipe in spec.recipes ==> IsCanonical(canonical, recipe)
    ensures RecipesStayOrdered(canonical, spec)
  {
    if spec.ToolSpec? {
      forall x, y | x in spec.recipes && y in spec.recipes ensures StaysOrdered(canonical, x, y) {
        assert NormalIndex(canonical, x.indexPolicy) == x.indexPolicy
               && NormalIndex(canonical, y.indexPolicy) == y.indexPolicy;
        KeyParts(x);
        KeyParts(y);
        KeyParts(NormalRecipe(canonical, x));
        KeyParts(NormalRecipe(canonical, y));
      }
    }
  }

  lemma NormalRecipeTwice(canonical: Canonicalizer, recipe: Recipe)
    requires Settles(canonical)
    ensures NormalRecipe(canonical, NormalRecipe(canonical, recipe)) == NormalRecipe(canonical, recipe)
  {
  }

  lemma MapOfSettled<T(!new)>(f: T -> T, values: seq<T>)
    requires forall x :: x in values ==> f(x) == x
    ensures Map(f, values) == values
  {
    forall k | 0 <= k < |values| ensures Map(f, values)[k] == values[k] { assert values[k] in values; }
  }

  lemma MembersOfSort<T(!new)>(values: seq<T>, le: (T, T) -> bool)
    requires TotalPreorder(le)
    ensures forall x :: x in Sort(values, le) <==> x in values
  {
    SortIsSorted(values, le);
    forall x ensures x in Sort(values, le) <==> x in values {
      assert x in Sort(values, le) <==> x in multiset(Sort(values, le));
      assert x in values <==> x in multiset(values);
    }
  }

  /** On recipes that were normalized once, a second pass only sorts. */
  lemma NormalRecipesTwice(canonical: Canonicalizer, recipes: seq<Recipe>)
    requires Settles(canonical)
    ensures NormalRecipes(canonical, NormalRecipes(canonical, recipes))
            == Sort(NormalRecipes(canonical, recipes), RecipeLe)
  {
    OrdersAreTotal();
    var once := NormalRecipes(canonical, recipes);
    MembersOfSort(once, RecipeLe);
    forall recipe | recipe in Sort(once, RecipeLe) ensures NormalRecipe(canonical, recipe) == recipe {
      var k :| 0 <= k < |once| && once[k] == recipe;
      NormalRecipeTwice(canonical, Sort(recipes, RecipeLe)[k]);
    }
    MapOfSettled(recipe => NormalRecipe(canonical, recipe), Sort(once, RecipeLe));
  }

  lemma SortTwice<T(!new)>(values: seq<T>, le: (T, T) -> bool)
    requires TotalPreorder(le)
    ensures Sort(Sort(values, le), le) == Sort(values, le)
    ensures Sort(values, le) == values <==> IsSorted(values, le)
  {
    SortIsSorted(values, le);
    SortOfSorted(Sort(values, le), le);
    if IsSorted(values, le) { SortOfSorted(values, le); }
  }

  lemma NormalFilesTwice(files: seq<ManagedFile>)
    ensures Sort(Map(NormalFile, Sort(Map(NormalFile, files), FileLe)), FileLe) == Sort(Map(NormalFile, files), FileLe)
  {
    OrdersAreTotal();
    var mapped := Map(NormalFile, files);
    MembersOfSort(mapped, FileLe);
    forall file | file in Sort(mapped, FileLe) ensures NormalFile(file) == file {
      var k :| 0 <= k < |files| && mapped[k] == file;
    }
    MapOfSettled(NormalFile, Sort(mapped, FileLe));
    SortTwice(mapped, FileLe);
  }

  /** A spec is settled by one pass exactly when its recipes stay in order. */
  lemma NormalSpecTwice(canonical: Canonicalizer, spec: Spec)
    requires Settles(canonical)
    ensures NormalSpec(canonical, NormalSpec(canonical, spec)) == NormalSpec(canonical, spec)
      <==> RecipesStayOrdered(canonical, spec)
  {
    OrdersAreTotal();
    match spec
    case DirectorySpec(_, directories, files) =>
      SortTwice(ListOf(directories), DirectoryLe);
      NormalFilesTwice(files);
    case SkillSpec(_, _, directories, files) =>
      SortTwice(ListOf(directories), DirectoryLe);
      NormalFilesTwice(files);
    case ConfigSpec(_, keys) => SortTwice(keys, KeyLe);
    case ToolSpec(_, recipes, _, _) =>
      NormalRecipesTwice(canonical, recipes);
      SortTwice(NormalRecipes(canonical, recipes), RecipeLe);
      StayOrderedMeansSorted(canonical, recipes);
    case _ =>
  }

  /** Two passes settle every spec. */
  lemma NormalSpecThrice(canonical: Canonicalizer, spec: Spec)
    requires Settles(canonical)
    ensures RecipesStayOrdered(canonical, NormalSpec(canonical, spec))
  {
    if spec.ToolSpec? {
      OrdersAreTotal();
      NormalRecipesTwice(canonical, spec.recipes);
      SortIsSorted(NormalRecipes(canonical, spec.recipes), RecipeLe);
      StayOrderedMeansSorted(canonical, NormalRecipes(canonical, spec.recipes));
    }
  }

  lemma NormalResourceTwice(canonical: Canonicalizer, resource: Resource)
    requires Settles(canonical)
    ensures NormalResource(canonical, NormalResource(canonical, resource)) == NormalResource(canonical, resource)
      <==> RecipesStayOrdered(canonical, resource.spec)
  {
    UniqueSortedTwice(ListOf(resource.groups));
    UniqueSortedTwice(ListOf(resource.dependsOn));
    NormalSpecTwice(canonical, resource.spec);
  }

  ghost predicate AllStayOrdered(canonical: Canonicalizer, resources: seq<Resource>) {
    forall k :: 0 <= k < |resources| ==> RecipesStayOrdered(canonical, resources[k].spec)
  }

  /** Resources that are in order stay so, each where it is. */
  lemma ResourcesTwice(canonical: Canonicalizer, resources: seq<Resource>)
    requires Settles(canonical)
    ensures var sorted := Sort(NormalResources(canonical, resources), ResourceLe);
      && |Sort(NormalResources(canonical, sorted), ResourceLe)| == |sorted|
      && forall k :: 0 <= k < |sorted|
                     ==> Sort(NormalResources(canonical, sorted), ResourceLe)[k] == NormalResource(canonical, sorted[k])
  {
    OrdersAreTotal();
    var sorted := Sort(NormalResources(canonical, resources), ResourceLe);
    SortIsSorted(NormalResources(canonical, resources), ResourceLe);
    SortOfSorted(NormalResources(canonical, sorted), ResourceLe);
  }

  lemma ResourcesAreSettled(canonical: Canonicalizer, resources: seq<Resource>)
    requires Settles(canonical)
    ensures var sorted := Sort(NormalResources(canonical, resources), ResourceLe);
      Sort(NormalResources(canonical, sorted), ResourceLe) == sorted <==> AllStayOrdered(canonical, resources)
  {
    OrdersAreTotal();
    ResourcesTwice(canonical, resources);
    var once := NormalResources(canonical, resources);
    var sorted := Sort(once, ResourceLe);
    MembersOfSort(once, ResourceLe);
    var twice := Sort(NormalResources(canonical, sorted), ResourceLe);
    if AllStayOrdered(canonical, resources) {
      forall k | 0 <= k < |sorted| ensures twice[k] == sorted[k] {
        assert sorted[k] in once;
        var j :| 0 <= j < |resources| && once[j] == sorted[k];
        NormalResourceTwice(canonical, resources[j]);
      }
    }
    if twice == sorted {
      forall j | 0 <= j < |resources| ensures RecipesStayOrdered(canonical, resources[j].spec) {
        assert once[j] in sorted;
        var k :| 0 <= k < |sorted| && sorted[k] == once[j];
        assert twice[k] == NormalResource(canonical, sorted[k]);
        NormalResourceTwice(canonical, resources[j]);
      }
    }
  }

  /** Normalization is settled after one pass exactly when no tool's recipes leave their order by having their URLs
      canonicalized. */
  lemma NormalizeTwice(canonical: Canonicalizer, profile: Profile)
    requires Settles(canonical)
    ensures Normalize(canonical, Normalize(canonical, profile)) == Normalize(canonical, profile)
      <==> AllStayOrdered(canonical, ListOf(profile.resources))
  {
    OrdersAreTotal();
    SortTwice(ListOf(profile.groups), GroupLe);
    ResourcesAreSettled(canonical, ListOf(profile.resources));
    if profile.schedule.Some? && profile.schedule.value.Weekly? { UniqueSortedTwice(profile.schedule.value.days); }
  }

  /** A second pass touches nothing but the specs of resources, and leaves these in their places. */
  lemma SecondPassKeepsTheRest(canonical: Canonicalizer, profile: Profile)
    requires Settles(canonical)
    ensures var once := Normalize(canonical, profile); var twice := Normalize(canonical, once);
      && once.resources.Some? && once.groups.Some? && twice.resources.Some?
      && |twice.resources.value| == |once.resources.value|
      && twice == once.(resources := twice.resources)
      && forall k :: 0 <= k < |once.resources.value|
                     ==> twice.resources.value[k] == once.resources.value[k].(spec := twice.resources.value[k].spec)
  {
    var once := Normalize(canonical, profile);
    var resources := ListOf(profile.resources);
    OrdersAreTotal();
    SortTwice(ListOf(profile.groups), GroupLe);
    if profile.schedule.Some? && profile.schedule.value.Weekly? { UniqueSortedTwice(profile.schedule.value.days); }
    ResourcesTwice(canonical, resources);
    MembersOfSort(NormalResources(canonical, resources), ResourceLe);
    var sorted := once.resources.value;
    forall k | 0 <= k < |sorted|
      ensures NormalResource(canonical, sorted[k]) == sorted[k].(spec := NormalSpec(canonical, sorted[k].spec)) {
      assert sorted[k] in NormalResources(canonical, resources);
      var j :| 0 <= j < |resources| && NormalResource(canonical, resources[j]) == sorted[k];
      SecondPassKeepsAllButSpec(canonical, resources[j]);
    }
  }

  lemma SecondPassKeepsAllButSpec(canonical: Canonicalizer, resource: Resource)
    ensures var once := NormalResource(canonical, resource);
            NormalResource(canonical, once) == once.(spec := NormalSpec(canonical, once.spec))
  {
    UniqueSortedTwice(ListOf(resource.groups));
    UniqueSortedTwice(ListOf(resource.dependsOn));
  }

  /** Whatever was authored, what normalization returns has recipes that stay in order. */
  lemma NormalizedStaysOrdered(canonical: Canonicalizer, profile: Profile)
    requires Settles(canonical)
    ensures AllStayOrdered(canonical, ListOf(Normalize(canonical, profile).resources))
  {
    var authored, resources := ListOf(profile.resources), ListOf(Normalize(canonical, profile).resources);
    OrdersAreTotal();
    MembersOfSort(NormalResources(canonical, authored), ResourceLe);
    forall k | 0 <= k < |resources| ensures RecipesStayOrdered(canonical, resources[k].spec) {
      assert resources[k] in NormalResources(canonical, authored);
      var j :| 0 <= j < |authored| && NormalResource(canonical, authored[j]) == resources[k];
      NormalSpecThrice(canonical, authored[j].spec);
    }
  }

  /** Two passes always settle a profile. */
  lemma NormalizeThrice(canonical: Canonicalizer, profile: Profile)
    requires Settles(canonical)
    ensures var twice := Normalize(canonical, Normalize(canonical, profile)); Normalize(canonical, twice) == twice
  {
    NormalizedStaysOrdered(canonical, profile);
    NormalizeTwice(canonical, Normalize(canonical, profile));
  }
}
