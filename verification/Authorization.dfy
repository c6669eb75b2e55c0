/** The authorization projection of `src/enrollment/enrollment.layer.ts`: which resources of a
    signed revision a follower may see. A resource is dropped as soon as something it depends on
    is dropped, so what remains is the largest authorized set closed under `dependsOn`. */
module Authorization {
  import opened Options

  /** A published resource, with the fields the projection reads. */
  datatype Resource = Resource(id: string, groups: Option<seq<string>>, dependsOn: seq<string>, blobs: seq<string>)

  predicate ResourceIsAuthorized(resource: Resource, groups: set<string>) {
    || resource.groups.None?
    || resource.groups.value == []
    || exists group | group in resource.groups.value :: group in groups
  }

  /** Exactly who may see a resource: everyone, if it names no group, and otherwise those in one of its groups. */
  lemma AuthorizedMeans(resource: Resource, groups: set<string>)
    ensures resource.groups.None? || resource.groups == Some([]) ==> ResourceIsAuthorized(resource, groups)
    ensures resource.groups.Some? && resource.groups.value != []
      ==> (ResourceIsAuthorized(resource, groups) <==> !((set group | group in resource.groups.value) !! groups))
  {
    if resource.groups.Some? {
      var named := set group | group in resource.groups.value;
      if !(named !! groups) {
        var group :| group in named && group in groups;
        assert group in resource.groups.value;
      }
      if group :| group in resource.groups.value && group in groups { assert group in named; }
    }
  }

  /** The follower is in one of the resource's groups, or the resource names none. */
  ghost predicate IsOpenTo(resource: Resource, groups: set<string>) {
    resource.groups.None? || resource.groups.value == []
      || exists k :: 0 <= k < |resource.groups.value| && resource.groups.value[k] in groups
  }

  /** The ids that name at least one authorized resource. */
  function AuthorizedIds(resources: seq<Resource>, groups: set<string>): set<string> {
    set resource | resource in resources && ResourceIsAuthorized(resource, groups) :: resource.id
  }

  function Filter(resources: seq<Resource>, ids: set<string>): seq<Resource> {
    if resources == [] then []
    else (if resources[0].id in ids then [resources[0]] else []) + Filter(resources[1..], ids)
  }

  // ---------------------------------------------------------------- reachability

  ghost predicate Edge(resources: seq<Resource>, from: string, to: string) {
    exists resource :: resource in resources && resource.id == from && to in resource.dependsOn
  }

  ghost predicate IsPath(resources: seq<Resource>, path: seq<string>, from: string, to: string) {
    && |path| > 0 && path[0] == from && path[|path| - 1] == to
    && forall k :: 0 <= k < |path| - 1 ==> Edge(resources, path[k], path[k + 1])
  }

  /** `to` is `from` itself or something `from` needs, however indirectly. */
  ghost predicate Reaches(resources: seq<Resource>, from: string, to: string) {
    exists path :: IsPath(resources, path, from, to)
  }

  /** Reference definition: everything the resource needs is declared and authorized. */
  ghost predicate Visible(resources: seq<Resource>, groups: set<string>, id: string) {
    forall needed :: Reaches(resources, id, needed) ==> needed in AuthorizedIds(resources, groups)
  }

  ghost predicate AreVisibleIds(resources: seq<Resource>, groups: set<string>, ids: set<string>) {
    forall id :: id in ids <==> Visible(resources, groups, id)
  }

  ghost predicate DependencyClosed(resources: seq<Resource>, ids: set<string>) {
    forall resource :: resource in resources && resource.id in ids ==>
                         forall dependency :: dependency in resource.dependsOn ==> dependency in ids
  }

  lemma ReachesItself(resources: seq<Resource>, id: string)
    ensures Reaches(resources, id, id)
  {
    assert IsPath(resources, [id], id, id);
  }

  lemma ReachesThrough(resources: seq<Resource>, from: string, middle: string, to: string)
    requires Edge(resources, from, middle) && Reaches(resources, middle, to)
    ensures Reaches(resources, from, to)
  {
    var path :| IsPath(resources, path, middle, to);
    assert IsPath(resources, [from] + path, from, to);
  }

  lemma {:induction false} ClosedKeepsPaths(resources: seq<Resource>, ids: set<string>, path: seq<string>,
                                            from: string, to: string)
    requires DependencyClosed(resources, ids) && from in ids && IsPath(resources, path, from, to)
    ensures to in ids
    decreases |path|
  {
    if |path| > 1 {
      assert Edge(resources, path[0], path[1]);
      var rest := path[1..];
      forall k | 0 <= k < |rest| - 1 ensures Edge(resources, rest[k], rest[k + 1]) {
        assert Edge(resources, path[k + 1], path[k + 1 + 1]);
      }
      ClosedKeepsPaths(resources, ids, rest, path[1], to);
    }
  }

  /** The visible ids are an authorized dependency-closed set, and contain every other one. */
  lemma VisibleIsGreatest(resources: seq<Resource>, groups: set<string>, ids: set<string>)
    ensures (ids <= AuthorizedIds(resources, groups) && DependencyClosed(resources, ids))
            ==> forall id :: id in ids ==> Visible(resources, groups, id)
    ensures AreVisibleIds(resources, groups, ids)
            ==> ids <= AuthorizedIds(resources, groups) && DependencyClosed(resources, ids)
  {
    if ids <= AuthorizedIds(resources, groups) && DependencyClosed(resources, ids) {
      forall id, needed | id in ids && Reaches(resources, id, needed)
        ensures needed in AuthorizedIds(resources, groups)
      {
        var path :| IsPath(resources, path, id, needed);
        ClosedKeepsPaths(resources, ids, path, id, needed);
      }
    }
    if AreVisibleIds(resources, groups, ids) {
      forall id | id in ids ensures id in AuthorizedIds(resources, groups) {
        ReachesItself(resources, id);
      }
      forall resource, dependency | resource in resources && resource.id in ids && dependency in resource.dependsOn
        ensures dependency in ids
      {
        VisibleDependency(resources, groups, resource, dependency);
      }
    }
  }

  lemma VisibleDependency(resources: seq<Resource>, groups: set<string>, resource: Resource, dependency: string)
    requires resource in resources && dependency in resource.dependsOn && Visible(resources, groups, resource.id)
    ensures Visible(resources, groups, dependency)
  {
    forall needed | Reaches(resources, dependency, needed) ensures needed in AuthorizedIds(resources, groups) {
      assert Edge(resources, resource.id, dependency);
      ReachesThrough(resources, resource.id, dependency, needed);
    }
  }

  /** More groups never hide a resource. */
  lemma VisibleIsMonotone(resources: seq<Resource>, fewer: set<string>, more: set<string>, id: string)
    requires fewer <= more && Visible(resources, fewer, id)
    ensures Visible(resources, more, id)
  {
    assert AuthorizedIds(resources, fewer) <= AuthorizedIds(resources, more);
  }

  // ---------------------------------------------------------------- the deletion loop

  predicate MissesDependency(resource: Resource, ids: set<string>) {
    exists dependency | dependency in resource.dependsOn :: dependency !in ids
  }

  /** No closed set among the ids was touched: deletion never goes too far. */
  ghost predicate KeepsClosed(resources: seq<Resource>, before: set<string>, after: set<string>) {
    after <= before && forall closed :: DependencyClosed(resources, closed) && closed <= before ==> closed <= after
  }

  /** One `for` pass over the revision: deletes ids that miss a dependency, or finds the set closed. */
  method DeletionPass(resources: seq<Resource>, before: set<string>) returns (visibleIds: set<string>, changed: bool)
    ensures KeepsClosed(resources, before, visibleIds)
    ensures if changed then |visibleIds| < |before| else visibleIds == before && DependencyClosed(resources, visibleIds)
  {
    visibleIds, changed := before, false;
    for k := 0 to |resources|
      invariant KeepsClosed(resources, before, visibleIds)
      invariant if changed then |visibleIds| < |before| else visibleIds == before
      invariant !changed ==> forall j :: 0 <= j < k && resources[j].id in before
                                         ==> !MissesDependency(resources[j], before)
    {
      var resource := resources[k];
      if resource.id in visibleIds && MissesDependency(resource, visibleIds) {
        DeletedIsInNoClosedSet(resources, resource, visibleIds);
        SmallerSet(visibleIds - {resource.id}, visibleIds);
        SmallerSet(visibleIds - {resource.id}, before);
        visibleIds := visibleIds - {resource.id};
        changed := true;
      }
    }
  }

  lemma DeletedIsInNoClosedSet(resources: seq<Resource>, resource: Resource, ids: set<string>)
    requires resource in resources && MissesDependency(resource, ids)
    ensures forall closed :: DependencyClosed(resources, closed) && closed <= ids ==> resource.id !in closed
  {
  }

  ghost function VisibleIds(resources: seq<Resource>, groups: set<string>): set<string> {
    set id | id in AuthorizedIds(resources, groups) && Visible(resources, groups, id)
  }

  lemma VisibleIdsAreVisible(resources: seq<Resource>, groups: set<string>)
    ensures AreVisibleIds(resources, groups, VisibleIds(resources, groups))
  {
    forall id | Visible(resources, groups, id)
      ensures id in AuthorizedIds(resources, groups) { ReachesItself(resources, id); }
  }

  /** The `while (changed)` loop both copies of the projection run. */
  method RetainClosed(resources: seq<Resource>, groups: set<string>) returns (visibleIds: set<string>)
    ensures visibleIds == VisibleIds(resources, groups)
  {
    visibleIds := AuthorizedIds(resources, groups);
    ghost var visible := VisibleIds(resources, groups);
    VisibleIdsAreVisible(resources, groups);
    VisibleIsGreatest(resources, groups, visible);
    var changed := true;
    while changed
      invariant visible <= visibleIds <= AuthorizedIds(resources, groups)
      invariant !changed ==> DependencyClosed(resources, visibleIds)
      decreases |visibleIds|, changed
    {
      visibleIds, changed := DeletionPass(resources, visibleIds);
    }
    VisibleIsGreatest(resources, groups, visibleIds);
  }

  lemma SmallerSet(small: set<string>, large: set<string>)
    requires small < large
    ensures |small| < |large|
  {
    var extra :| extra in large && extra !in small;
    assert large == small + (large - small);
    assert |large| == |small| + |large - small|;
    assert extra in large - small;
  }

  /** What a follower in `groups` sees of a revision, in the revision's order. */
  ghost function Projection(resources: seq<Resource>, groups: set<string>): seq<Resource> {
    Filter(resources, VisibleIds(resources, groups))
  }

  method VisibleResources(resources: seq<Resource>, groups: set<string>) returns (shown: seq<Resource>)
    ensures shown == Projection(resources, groups)
    ensures forall resource :: resource in shown <==> resource in resources && Visible(resources, groups, resource.id)
    ensures DistinctIds(resources) ==> forall resource :: resource in shown ==> IsOpenTo(resource, groups)
  {
    var visibleIds := RetainClosed(resources, groups);
    shown := Filter(resources, visibleIds);
    FilterElements(resources, visibleIds);
    VisibleIdsAreVisible(resources, groups);
    if DistinctIds(resources) { ShownIsOpen(resources, groups, shown); }
  }

  lemma ShownIsOpen(resources: seq<Resource>, groups: set<string>, shown: seq<Resource>)
    requires DistinctIds(resources)
    requires forall resource :: resource in shown ==> resource in resources && Visible(resources, groups, resource.id)
    ensures forall resource :: resource in shown ==> IsOpenTo(resource, groups)
  {
    DistinctIdsAreNotMixed(resources, groups);
    forall resource | resource in shown ensures IsOpenTo(resource, groups) {
      ReachesItself(resources, resource.id);
      assert resource.id in AuthorizedIds(resources, groups);
      AuthorizedMeans(resource, groups);
      if resource.groups.Some? && resource.groups.value != [] {
        var named := set group | group in resource.groups.value;
        var group :| group in named && group in groups;
        var k :| 0 <= k < |resource.groups.value| && resource.groups.value[k] == group;
      }
    }
  }

  lemma {:induction false} FilterElements(resources: seq<Resource>, ids: set<string>)
    ensures forall resource :: resource in Filter(resources, ids) <==> resource in resources && resource.id in ids
  {
    if resources != [] {
      FilterElements(resources[1..], ids);
      assert resources == [resources[0]] + resources[1..];
    }
  }

  // ---------------------------------------------------------------- the transported copy

  function FilterStrings(values: seq<string>, kept: set<string>): seq<string> {
    if values == [] then []
    else (if values[0] in kept then [values[0]] else []) + FilterStrings(values[1..], kept)
  }

  lemma {:induction false} FilterStringsMeaning(values: seq<string>, kept: set<string>)
    ensures forall value :: value in FilterStrings(values, kept) <==> value in values && value in kept
    ensures (forall value :: value in values ==> value in kept) ==> FilterStrings(values, kept) == values
  {
    if values != [] {
      FilterStringsMeaning(values[1..], kept);
      assert values == [values[0]] + values[1..];
    }
  }

  /** One resource as transported: dependencies and groups the follower may know about. */
  function Transported(resource: Resource, visibleIds: set<string>, groups: set<string>): Resource {
    var base := resource.(dependsOn := FilterStrings(resource.dependsOn, visibleIds));
    if resource.groups.None? then base
    else base.(groups := Some(FilterStrings(resource.groups.value, groups)))
  }

  /** `shown` is `resource` with its groups cut down, in order, to those the follower is in, and nothing else
      changed. */
  ghost predicate SameButGroups(resource: Resource, shown: Resource, groups: set<string>) {
    && shown == resource.(groups := shown.groups)
    && shown.groups == if resource.groups.Some? then Some(FilterStrings(resource.groups.value, groups)) else None
  }

  /** `authorizedRevisions` for one revision. It shows the same resources as `VisibleResources`,
      and its later filter of `dependsOn` removes nothing. */
  method AuthorizedRevision(resources: seq<Resource>, groups: set<string>) returns (shown: seq<Resource>)
    ensures |shown| == |Projection(resources, groups)|
    ensures forall k :: 0 <= k < |shown| ==> SameButGroups(Projection(resources, groups)[k], shown[k], groups)
  {
    var visibleIds := RetainClosed(resources, groups);
    var kept := Filter(resources, visibleIds);
    shown := [];
    FilterElements(resources, visibleIds);
    VisibleIdsAreVisible(resources, groups);
    for k := 0 to |kept|
      invariant |shown| == k
      invariant forall j :: 0 <= j < k ==> SameButGroups(kept[j], shown[j], groups)
    {
      assert kept[k] in kept;
      TransportKeepsDependencies(resources, kept[k], visibleIds, groups);
      shown := shown + [Transported(kept[k], visibleIds, groups)];
    }
  }

  lemma TransportKeepsDependencies(resources: seq<Resource>, resource: Resource, visibleIds: set<string>,
                                   groups: set<string>)
    requires resource in resources && resource.id in visibleIds && AreVisibleIds(resources, groups, visibleIds)
    ensures SameButGroups(resource, Transported(resource, visibleIds, groups), groups)
  {
    VisibleIsGreatest(resources, groups, visibleIds);
    FilterStringsMeaning(resource.dependsOn, visibleIds);
  }

  // ---------------------------------------------------------------- duplicate ids

  /** The id names an authorized resource and one that is not. */
  ghost predicate IsMixed(resources: seq<Resource>, groups: set<string>, id: string) {
    && id in AuthorizedIds(resources, groups)
    && exists resource :: resource in resources && resource.id == id && !ResourceIsAuthorized(resource, groups)
  }

  /** Something the id needs is not declared, or by no authorized resource. */
  ghost predicate NeedsMore(resources: seq<Resource>, groups: set<string>, id: string) {
    exists needed :: Reaches(resources, id, needed) && needed !in AuthorizedIds(resources, groups)
  }

  /** Every resource that is shown is authorized. */
  ghost predicate ShowsAuthorizedOnly(resources: seq<Resource>, groups: set<string>) {
    forall resource :: resource in Projection(resources, groups) ==> ResourceIsAuthorized(resource, groups)
  }

  /** The projection works on ids, so it shows authorized resources only exactly when every id that names both
      an authorized and an unauthorized resource is hidden for something it needs. */
  lemma ShownResourcesAreAuthorized(resources: seq<Resource>, groups: set<string>)
    ensures ShowsAuthorizedOnly(resources, groups)
      <==> forall id :: IsMixed(resources, groups, id) ==> NeedsMore(resources, groups, id)
  {
    VisibleIdsAreVisible(resources, groups);
    FilterElements(resources, VisibleIds(resources, groups));
    if ShowsAuthorizedOnly(resources, groups) {
      forall id | IsMixed(resources, groups, id) ensures NeedsMore(resources, groups, id) {
        var restricted :| restricted in resources && restricted.id == id && !ResourceIsAuthorized(restricted, groups);
        assert restricted !in Projection(resources, groups);
      }
    }
    if forall id :: IsMixed(resources, groups, id) ==> NeedsMore(resources, groups, id) {
      forall resource | resource in Projection(resources, groups) ensures ResourceIsAuthorized(resource, groups) {
        ReachesItself(resources, resource.id);
        assert !NeedsMore(resources, groups, resource.id);
      }
    }
  }

  ghost predicate DistinctIds(resources: seq<Resource>) {
    forall j, k :: 0 <= j < k < |resources| ==> resources[j].id != resources[k].id
  }

  /** An id that names one resource only is not mixed. */
  lemma DistinctIdsAreNotMixed(resources: seq<Resource>, groups: set<string>)
    requires DistinctIds(resources)
    ensures forall id :: !IsMixed(resources, groups, id)
    ensures ShowsAuthorizedOnly(resources, groups)
    ensures forall resource :: resource in resources && resource.id in AuthorizedIds(resources, groups)
                               ==> ResourceIsAuthorized(resource, groups)
  {
    forall resource | resource in resources && resource.id in AuthorizedIds(resources, groups)
      ensures ResourceIsAuthorized(resource, groups)
    {
      var named :| named in resources && ResourceIsAuthorized(named, groups) && named.id == resource.id;
      var j :| 0 <= j < |resources| && resources[j] == named;
      var k :| 0 <= k < |resources| && resources[k] == resource;
      assert j == k;
    }
    ShownResourcesAreAuthorized(resources, groups);
  }

  lemma StillAuthorized(resource: Resource, shown: Resource, groups: set<string>)
    requires SameButGroups(resource, shown, groups)
    ensures ResourceIsAuthorized(shown, groups)
  {
    if shown.groups.Some? && shown.groups.value != [] {
      FilterStringsMeaning(resource.groups.value, groups);
      assert shown.groups.value[0] in shown.groups.value;
    }
  }

  /** What is transported is complete in itself: projecting it again for the same groups keeps all of it. */
  lemma TransportIsSelfContained(resources: seq<Resource>, groups: set<string>, shown: seq<Resource>)
    requires |shown| == |Projection(resources, groups)|
    requires forall k :: 0 <= k < |shown| ==> SameButGroups(Projection(resources, groups)[k], shown[k], groups)
    ensures forall resource :: resource in shown ==> Visible(shown, groups, resource.id)
  {
    var ids, projected := VisibleIds(resources, groups), Projection(resources, groups);
    VisibleIdsAreVisible(resources, groups);
    FilterElements(resources, ids);
    VisibleIsGreatest(resources, groups, ids);
    forall id | id in ids ensures id in AuthorizedIds(shown, groups) {
      var named :| named in resources && ResourceIsAuthorized(named, groups) && named.id == id;
      var k :| 0 <= k < |projected| && projected[k] == named;
      assert SameButGroups(projected[k], shown[k], groups);
      StillAuthorized(named, shown[k], groups);
      assert shown[k] in shown;
    }
    forall resource | resource in shown
      ensures resource.id in ids && forall dependency :: dependency in resource.dependsOn ==> dependency in ids
    {
      var k :| 0 <= k < |shown| && shown[k] == resource;
      assert SameButGroups(projected[k], shown[k], groups) && projected[k] in projected;
    }
    VisibleIsGreatest(shown, groups, ids);
  }

  /** An instance: a repeated id that needs nothing else, and a follower in no group at all. */
  lemma DuplicateIdExposesResource()
    ensures var open := Resource("a", None, [], []);
            var restricted := Resource("a", Some(["ops"]), [], ["secret"]);
            && !ResourceIsAuthorized(restricted, {})
            && Visible([open, restricted], {}, restricted.id)
  {
    var open := Resource("a", None, [], []);
    var restricted := Resource("a", Some(["ops"]), [], ["secret"]);
    var resources := [open, restricted];
    assert resources[0] in resources;
    var ids, nobody: set<string> := {open.id}, {};
    assert open.id in AuthorizedIds(resources, nobody);
    VisibleIsGreatest(resources, nobody, ids);
    assert restricted.id in ids;
  }
}
