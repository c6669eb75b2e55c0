/** From publication to a follower: blob requests (`getAuthorizedBlob` of `src/enrollment/enrollment.layer.ts`) answered
    from revisions as `src/profile/publication.ts` builds them. */
module Serving {
  import opened Options
  import opened CanonicalJson
  import opened Normalization
  import opened Revisions
  import Authorization
  import BlobCache

  // ---------------------------------------------------------------- stored revisions, as the cache sees them

  function Metadata(resource: PublishedResource): Authorization.Resource {
    Authorization.Resource(resource.id, resource.groups, resource.dependsOn, resource.blobs)
  }

  /** The canonical bytes of a specification, which are what a blob is. */
  function SpecBytes(environment: Environment, spec: Spec): string {
    environment.canonicalJson(environment.specJson(spec))
  }

  function AuthoredOf(environment: Environment, resource: Resource): BlobCache.Authored {
    BlobCache.Authored(resource.id, SpecBytes(environment, resource.spec))
  }

  function AllAuthored(environment: Environment, profile: Profile): BlobCache.Profile {
    Map(resource => AuthoredOf(environment, resource), ListOf(profile.resources))
  }

  /** The cache's view of a revision: its metadata, and validation by `validateRevision`. */
  ghost predicate Represents(environment: Environment, source: BlobCache.Source, stored: BlobCache.Revision,
                             revision: Revision) {
    && stored.id == revision.content.id && stored.resources == Map(Metadata, revision.content.resources)
    && (forall text :: source.digest(text) == environment.sha256(text))
    && match ValidateRevision(environment, revision, environment.keyId)
       case Ok(profile) => source.validate(stored) == Ok(AllAuthored(environment, profile))
       case Err(_) => source.validate(stored).Err? && source.validate(stored).error.RevisionRejected?
  }

  /** Profiles with a repeated resource id have errors, and so are neither published nor served. */
  ghost predicate RefusesRepeats(environment: Environment) {
    forall profile :: environment.hasNoErrors(profile) ==> HasDistinctIds(profile)
  }

  ghost predicate HasDistinctIds(profile: Profile) {
    var resources := ListOf(profile.resources);
    forall j, k :: 0 <= j < k < |resources| ==> resources[j].id != resources[k].id
  }

  /** The revision passes validation with this profile. */
  ghost predicate Passes(environment: Environment, revision: Revision, profile: Profile) {
    ValidateRevision(environment, revision, environment.keyId) == Ok(profile)
  }

  // ---------------------------------------------------------------- what validation says about metadata

  /** A revision that passes has exactly the metadata of its profile. */
  lemma MetadataIsExpected(environment: Environment, revision: Revision, profile: Profile)
    requires Faithful(environment) && Passes(environment, revision, profile)
    ensures revision.content.resources == Map(resource => Expected(environment, resource), ListOf(profile.resources))
    ensures environment.hasNoErrors(profile)
  {
    var expected := Map(resource => Expected(environment, resource), ListOf(profile.resources));
    EncodeIsInjective(environment.resourcesJson(expected), environment.resourcesJson(revision.content.resources));
  }

  /** In the metadata of a revision that passes, ids are distinct, so only authorized resources are ever shown. */
  lemma ServedResourcesAreAuthorized(environment: Environment, revision: Revision, profile: Profile,
                                     groups: set<string>)
    requires Faithful(environment) && RefusesRepeats(environment) && Passes(environment, revision, profile)
    ensures Authorization.ShowsAuthorizedOnly(Map(Metadata, revision.content.resources), groups)
  {
    MetadataIsExpected(environment, revision, profile);
    assert HasDistinctIds(profile);
    Authorization.DistinctIdsAreNotMixed(Map(Metadata, revision.content.resources), groups);
  }

  lemma {:induction false} FindFirst(authored: BlobCache.Profile, k: nat)
    requires k < |authored| && forall j :: 0 <= j < k ==> authored[j].id != authored[k].id
    ensures BlobCache.FindAuthored(authored, authored[k].id) == Some(authored[k])
  {
    if k > 0 { FindFirst(authored[1..], k - 1); }
  }

  /** What a follower is shown under a blob id is a resource of the profile, whose specification has that digest. */
  lemma ShownIsOfProfile(environment: Environment, source: BlobCache.Source, stored: BlobCache.Revision,
                         revision: Revision,
                         profile: Profile, groups: set<string>, id: string, blob: string) returns (k: nat)
    requires Faithful(environment) && Passes(environment, revision, profile)
    requires Represents(environment, source, stored, revision) && BlobCache.Shows(stored, groups, id, blob)
    ensures k < |ListOf(profile.resources)| && ListOf(profile.resources)[k].id == id
    ensures blob == environment.sha256(SpecBytes(environment, ListOf(profile.resources)[k].spec))
  {
    MetadataIsExpected(environment, revision, profile);
    var item :| item in stored.resources && item.id == id && blob in item.blobs;
    k :| 0 <= k < |stored.resources| && stored.resources[k] == item;
    assert item == Metadata(Expected(environment, ListOf(profile.resources)[k]));
  }

  lemma ShownIsInProfile(environment: Environment, source: BlobCache.Source, stored: BlobCache.Revision,
                         revision: Revision,
                         profile: Profile, groups: set<string>, id: string, blob: string)
    requires Faithful(environment) && RefusesRepeats(environment) && Passes(environment, revision, profile)
    requires Represents(environment, source, stored, revision) && BlobCache.Shows(stored, groups, id, blob)
    ensures var found := BlobCache.FindAuthored(AllAuthored(environment, profile), id);
      found.Some? && environment.sha256(found.value.spec) == blob
  {
    MetadataIsExpected(environment, revision, profile);
    var k := ShownIsOfProfile(environment, source, stored, revision, profile, groups, id, blob);
    assert HasDistinctIds(profile);
    FindFirst(AllAuthored(environment, profile), k);
  }

  // ---------------------------------------------------------------- replies

  /** Every stored revision is the cache's view of some revision. */
  ghost predicate AllRepresented(environment: Environment, source: BlobCache.Source, repository: BlobCache.Repository) {
    forall id :: id in repository.revisions ==> IsRepresented(environment, source, repository.revisions[id])
  }

  ghost predicate IsRepresented(environment: Environment, source: BlobCache.Source, stored: BlobCache.Revision) {
    exists revision :: Represents(environment, source, stored, revision)
  }

  /** A stored revision that validates shows nothing it cannot serve. */
  lemma ShownIsFound(environment: Environment, source: BlobCache.Source, stored: BlobCache.Revision,
                     groups: set<string>, id: string, blob: string)
    requires Faithful(environment) && RefusesRepeats(environment) && IsRepresented(environment, source, stored)
    ensures source.validate(stored).Err? ==> source.validate(stored).error.RevisionRejected?
    ensures source.validate(stored).Ok? && BlobCache.Shows(stored, groups, id, blob) ==>
      var found := BlobCache.FindAuthored(source.validate(stored).value, id);
      found.Some? && environment.sha256(found.value.spec) == blob
  {
    var revision :| Represents(environment, source, stored, revision);
    if source.validate(stored).Ok? && BlobCache.Shows(stored, groups, id, blob) {
      var profile := ValidateRevision(environment, revision, environment.keyId).value;
      ShownIsInProfile(environment, source, stored, revision, profile, groups, id, blob);
    }
  }

  /** The candidates' revisions are stored and pass validation. */
  ghost predicate AllPass(source: BlobCache.Source, repository: BlobCache.Repository,
                          candidates: seq<BlobCache.Candidate>) {
    forall candidate :: candidate in candidates ==> CandidatePasses(source, repository, candidate)
  }

  ghost predicate CandidatePasses(source: BlobCache.Source, repository: BlobCache.Repository,
                                  candidate: BlobCache.Candidate) {
    candidate.revision in repository.revisions && source.validate(repository.revisions[candidate.revision]).Ok?
  }

  /** The follower is shown the blob through this candidate. */
  ghost predicate ShowsThrough(repository: BlobCache.Repository, groups: set<string>, blob: string,
                               candidate: BlobCache.Candidate) {
    && candidate.revision in repository.revisions
    && BlobCache.Shows(repository.revisions[candidate.revision], groups, candidate.resource, blob)
  }

  /** Failures that would mean that metadata and profile do not fit. */
  predicate IsMisfit(failure: BlobCache.Failure) {
    failure.NoCanonicalResource? || failure.DigestMismatch?
  }

  lemma {:induction false} UsableIsShown(environment: Environment, source: BlobCache.Source,
                                         repository: BlobCache.Repository, groups: set<string>,
                                         blob: string, candidates: seq<BlobCache.Candidate>)
    requires Faithful(environment) && RefusesRepeats(environment) && AllRepresented(environment, source, repository)
    ensures var usable := BlobCache.Usable(source, repository, groups, blob, candidates);
      && (usable.Err? ==> !IsMisfit(usable.error))
      && (usable.Ok? <==> AllPass(source, repository, candidates))
      && (usable.Ok? ==> forall candidate :: candidate in usable.value
                                             <==> candidate in candidates
                                                  && ShowsThrough(repository, groups, blob, candidate))
  {
    if candidates != [] {
      var candidate := candidates[0];
      UsableIsShown(environment, source, repository, groups, blob, candidates[1..]);
      assert candidates == [candidate] + candidates[1..] && candidate in candidates;
      if candidate.revision in repository.revisions {
        ShownIsFound(environment, source, repository.revisions[candidate.revision], groups, candidate.resource, blob);
      }
    }
  }

  lemma FirstIsServed(environment: Environment, source: BlobCache.Source, repository: BlobCache.Repository,
                      groups: set<string>, blob: string,
                      entries: seq<BlobCache.Candidate>)
    requires Faithful(environment) && RefusesRepeats(environment) && AllRepresented(environment, source, repository)
    requires forall entry :: entry in entries ==> ShowsThrough(repository, groups, blob, entry)
    ensures var reply := BlobCache.Serve(source, repository, groups, blob, entries);
      && (reply.Err? ==> !IsMisfit(reply.error) && (reply.error.BlobNotFound? <==> entries == []))
      && (entries != [] && AllPass(source, repository, entries) ==> reply.Ok?)
      && (reply.Ok? ==> environment.sha256(reply.value) == blob)
  {
    if entries != [] {
      var entry := entries[0];
      assert entry in entries && ShowsThrough(repository, groups, blob, entry);
      ShownIsFound(environment, source, repository.revisions[entry.revision], groups, entry.resource, blob);
    }
  }

  /** For any stored revisions, no reply says that metadata and profile do not fit, and what is served has the digest
      asked for. The follower gets the blob exactly when the revisions of all its candidates pass validation and one of
      the candidates shows it: a single revision that does not pass keeps the blob from everyone. */
  lemma RepliesAreExact(environment: Environment, source: BlobCache.Source, repository: BlobCache.Repository,
                        groups: set<string>, blob: string)
    requires Faithful(environment) && RefusesRepeats(environment) && AllRepresented(environment, source, repository)
    ensures var reply := BlobCache.Uncached(source, repository, groups, blob);
      var candidates := if blob in repository.blobs then repository.blobs[blob] else [];
      && (reply.Err? ==> !IsMisfit(reply.error))
      && (reply.Ok? ==> environment.sha256(reply.value) == blob)
      && (reply.Ok? <==> AllPass(source, repository, candidates)
                         && exists candidate :: candidate in candidates
                                                && ShowsThrough(repository, groups, blob, candidate))
  {
    var candidates := repository.Candidates(blob);
    UsableIsShown(environment, source, repository, groups, blob, candidates);
    var usable := BlobCache.Usable(source, repository, groups, blob, candidates);
    if usable.Ok? {
      FirstIsServed(environment, source, repository, groups, blob, usable.value);
      if usable.value != [] { assert usable.value[0] in usable.value; }
    }
  }

  /** Publishing lists each resource of a revision as a candidate for its blobs. */
  ghost predicate ListsAll(repository: BlobCache.Repository) {
    forall id, item, blob :: id in repository.revisions && item in repository.revisions[id].resources
                             && blob in item.blobs
      ==> BlobCache.Candidate(id, item.id) in repository.Candidates(blob)
  }

  /** From the profile to the follower: when the published profile is settled by one pass, a follower who sees a
      resource gets exactly the canonical bytes of its normalized specification, provided the other revisions with that
      blob pass too. */
  lemma FollowerGetsTheSpec(environment: Environment, source: BlobCache.Source, repository: BlobCache.Repository,
                            groups: set<string>,
                            revision: Revision, profile: Profile, k: nat)
    requires Faithful(environment) && RefusesRepeats(environment) && AllRepresented(environment, source, repository)
             && ListsAll(repository)
    requires IsBuiltFrom(environment, revision, profile)
             && AllStayOrdered(environment.canonicalUrl, ListOf(profile.resources))
    requires revision.content.id in repository.revisions
    requires Represents(environment, source, repository.revisions[revision.content.id], revision)
    requires var normal := ListOf(Normalize(environment.canonicalUrl, profile).resources);
      && k < |normal|
      && Authorization.Visible(repository.revisions[revision.content.id].resources, groups, normal[k].id)
      && AllPass(source, repository, repository.Candidates(environment.sha256(SpecBytes(environment, normal[k].spec))))
    ensures var bytes := SpecBytes(environment, ListOf(Normalize(environment.canonicalUrl, profile).resources)[k].spec);
      BlobCache.Uncached(source, repository, groups, environment.sha256(bytes)) == Ok(bytes)
  {
    PublishedPassesValidation(environment, revision, profile);
    var once := Normalize(environment.canonicalUrl, profile);
    PassingRevisionIsServed(environment, source, repository, groups, revision, once, k);
  }

  lemma PassingRevisionIsServed(environment: Environment, source: BlobCache.Source, repository: BlobCache.Repository,
                                groups: set<string>,
                                revision: Revision, profile: Profile, k: nat)
    requires Faithful(environment) && RefusesRepeats(environment) && AllRepresented(environment, source, repository)
             && ListsAll(repository)
    requires Passes(environment, revision, profile) && revision.content.id in repository.revisions
    requires Represents(environment, source, repository.revisions[revision.content.id], revision)
    requires k < |ListOf(profile.resources)|
    requires Authorization.Visible(repository.revisions[revision.content.id].resources, groups,
                                   ListOf(profile.resources)[k].id)
    requires AllPass(source, repository,
                     repository.Candidates(environment.sha256(SpecBytes(environment,
                                                                        ListOf(profile.resources)[k].spec))))
    ensures var bytes := SpecBytes(environment, ListOf(profile.resources)[k].spec);
      BlobCache.Uncached(source, repository, groups, environment.sha256(bytes)) == Ok(bytes)
  {
    var resource := ListOf(profile.resources)[k];
    var bytes := SpecBytes(environment, resource.spec);
    var blob, stored := environment.sha256(bytes), repository.revisions[revision.content.id];
    MetadataIsExpected(environment, revision, profile);
    assert stored.resources[k] == Metadata(Expected(environment, resource)) && stored.resources[k] in stored.resources;
    assert stored.resources[k].blobs == [blob] && blob in stored.resources[k].blobs;
    var candidate := BlobCache.Candidate(revision.content.id, resource.id);
    assert candidate in repository.Candidates(blob) && ShowsThrough(repository, groups, blob, candidate);
    RepliesAreExact(environment, source, repository, groups, blob);
  }
}
