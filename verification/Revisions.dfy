/** Published revisions: how `src/profile/publication.ts` builds them and what `validateRevision` of
    `src/enrollment/enrollment.layer.ts` demands of them. Digests, signatures and schema mappings are parameters. */
module Revisions {
  import opened Options
  import opened Texts
  import opened CanonicalJson
  import opened Normalization
  import opened ProposalReview

  datatype PublishedResource = PublishedResource(id: string, kind: Kind, policy: Option<Policy>, target: string,
                                                 dependsOn: seq<string>, blobs: seq<string>,
                                                 groups: Option<seq<string>>)

  /** All of a revision but its signature. */
  datatype Unsigned = Unsigned(id: string, profileId: string, sequence: nat, canonicalBytes: string, digest: string,
                               publishedAt: string, resources: seq<PublishedResource>, groups: seq<Group>,
                               schedule: Option<Schedule>)

  datatype Revision = Revision(content: Unsigned, signature: string)

  /** What the modelled code calls and does not define. */
  datatype Environment = Environment(
    canonicalUrl: Canonicalizer,
    canonicalJson: Json -> string,
    sha256: string -> string,
    profileJson: Profile -> Json,
    decodeProfile: Json -> Option<Profile>,
    hasNoErrors: Profile -> bool,
    specJson: Spec -> Json,
    resourcesJson: seq<PublishedResource> -> Json,
    scheduleJson: Schedule -> Json,
    payloadJson: (Unsigned, string) -> Json,
    proposalJson: Proposal -> Json,
    isTimestamp: string -> bool,
    keyId: string,
    sign: string -> Option<string>,
    verify: (string, string) -> bool)

  /** The schema reads back what it wrote. */
  ghost predicate DecodesOwn(environment: Environment) {
    forall profile :: environment.decodeProfile(environment.profileJson(profile)).Some?
      ==> environment.decodeProfile(environment.profileJson(profile)) == Some(profile)
  }

  ghost predicate DigestsTellApart(environment: Environment) {
    && (forall one, other :: environment.sha256(one) == environment.sha256(other) ==> one == other)
    && forall text :: ':' !in environment.sha256(text)
  }

  ghost predicate JsonTellsApart(environment: Environment) {
    && (forall one, other :: environment.specJson(one) == environment.specJson(other) ==> one == other)
    && (forall one, other :: environment.resourcesJson(one) == environment.resourcesJson(other) ==> one == other)
  }

  /** The parameters keep what is asked of them; `canonicalJson` is the encoding proved unambiguous. */
  ghost predicate Faithful(environment: Environment) {
    && Settles(environment.canonicalUrl)
    && (forall value :: environment.canonicalJson(value) == Encode(value))
    && DecodesOwn(environment) && DigestsTellApart(environment) && JsonTellsApart(environment)
  }

  // ---------------------------------------------------------------- building

  function DigestOf(environment: Environment, value: Json): string {
    environment.sha256(environment.canonicalJson(value))
  }

  /** The encoding normalizes what it is given once more, and refuses what is not a valid profile. */
  function EncodeProfile(environment: Environment, profile: Profile): Option<string> {
    var normal := Normalize(environment.canonicalUrl, profile);
    if environment.decodeProfile(environment.profileJson(normal)).Some? && environment.hasNoErrors(normal)
    then Some(environment.canonicalJson(environment.profileJson(normal))) else None
  }

  /** Reordering what has no order never changes the canonical bytes, nor then their digest. */
  lemma OrderNeverChangesBytes(environment: Environment, one: Profile, other: Profile)
    requires SameProfile(one, other)
    ensures EncodeProfile(environment, one) == EncodeProfile(environment, other)
  {
    NormalizeIgnoresOrder(environment.canonicalUrl, one, other);
  }

  function Published(environment: Environment, resource: Resource): PublishedResource {
    PublishedResource(resource.id, resource.kind, Some(OrElse(resource.policy, Ensure)), resource.target,
                      ListOf(resource.dependsOn),
                      [DigestOf(environment, environment.specJson(resource.spec))], resource.groups)
  }

  function PublishedResources(environment: Environment, profile: Profile): seq<PublishedResource> {
    Map(resource => Published(environment, resource), ListOf(profile.resources))
  }

  function RevisionId(profileId: string, digest: string): string {
    profileId + ":" + digest
  }

  /** The schedule stays out of what is signed. */
  function SigningPayload(environment: Environment, content: Unsigned, keyId: string): string {
    environment.canonicalJson(environment.payloadJson(content.(schedule := None), keyId))
  }

  function Build(environment: Environment, profile: Profile, canonicalBytes: string, sequence: nat,
                 publishedAt: string): Unsigned {
    var digest := environment.sha256(canonicalBytes);
    Unsigned(RevisionId(profile.id, digest), profile.id, sequence, canonicalBytes, digest, publishedAt,
             PublishedResources(environment, profile), ListOf(profile.groups), profile.schedule)
  }

  lemma RevisionIdIsInjective(one: string, digest: string, other: string, digest': string)
    requires ':' !in digest && ':' !in digest'
    requires RevisionId(one, digest) == RevisionId(other, digest')
    ensures one == other && digest == digest'
  {
    CutAtLast(one, other, ':', digest, digest');
  }

  // ---------------------------------------------------------------- validation before serving

  datatype Mismatch = ContentDigest | Malformed | Contract | Identity | ScheduleMetadata | ResourceMetadata | Signature

  function Expected(environment: Environment, resource: Resource): PublishedResource {
    PublishedResource(resource.id, resource.kind, resource.policy, resource.target, ListOf(resource.dependsOn),
                      [DigestOf(environment, environment.specJson(resource.spec))], resource.groups)
  }

  predicate ScheduleAgrees(environment: Environment, content: Unsigned, profile: Profile) {
    content.schedule.Some? ==>
      && profile.schedule.Some?
      && environment.canonicalJson(environment.scheduleJson(content.schedule.value))
          == environment.canonicalJson(environment.scheduleJson(profile.schedule.value))
  }

  predicate ResourcesAgree(environment: Environment, content: Unsigned, profile: Profile) {
    environment.canonicalJson(environment.resourcesJson(Map(resource => Expected(environment, resource),
                                                            ListOf(profile.resources))))
    == environment.canonicalJson(environment.resourcesJson(content.resources))
  }

  function ValidateRevision(environment: Environment, revision: Revision, keyId: string): Result<Profile, Mismatch> {
    var content := revision.content;
    if environment.sha256(content.canonicalBytes) != content.digest then Err(ContentDigest)
    else match Parse(content.canonicalBytes)
      case None => Err(Malformed)
      case Some(value) =>
        match environment.decodeProfile(value)
        case None => Err(Malformed)
        case Some(profile) =>
          if !environment.hasNoErrors(profile) then Err(Contract)
          else if profile.id != content.profileId then Err(Identity)
          else if !ScheduleAgrees(environment, content, profile) then Err(ScheduleMetadata)
          else if !ResourcesAgree(environment, content, profile) then Err(ResourceMetadata)
          else if !environment.verify(SigningPayload(environment, content, keyId), revision.signature)
                 then Err(Signature)
          else Ok(profile)
  }

  // ---------------------------------------------------------------- what passing means

  /** The profile that the canonical bytes hold, if they hold one. */
  function Held(environment: Environment, bytes: string): Option<Profile> {
    match Parse(bytes) case None => None case Some(value) => environment.decodeProfile(value)
  }

  /** The metadata is that of the profile's resource, with the digest of the specification's canonical bytes as its only
      blob. */
  ghost predicate Describes(environment: Environment, published: PublishedResource, resource: Resource) {
    && published.id == resource.id && published.kind == resource.kind && published.policy == resource.policy
    && published.target == resource.target && published.groups == resource.groups
    && published.dependsOn == (if resource.dependsOn.Some? then resource.dependsOn.value else [])
    && published.blobs == [environment.sha256(Encode(environment.specJson(resource.spec)))]
  }

  ghost predicate AllDescribed(environment: Environment, published: seq<PublishedResource>, resources: seq<Resource>) {
    |published| == |resources| && forall k :: 0 <= k < |resources|
                                              ==> Describes(environment, published[k], resources[k])
  }

  /** The stated schedule, if any, is the profile's. */
  ghost predicate SchedulesFit(environment: Environment, stated: Option<Schedule>, held: Option<Schedule>) {
    stated.None? || (held.Some? && environment.scheduleJson(stated.value) == environment.scheduleJson(held.value))
  }

  lemma AgreementMeans(environment: Environment, content: Unsigned, profile: Profile)
    requires Faithful(environment)
    ensures ScheduleAgrees(environment, content, profile)
      <==> SchedulesFit(environment, content.schedule, profile.schedule)
    ensures ResourcesAgree(environment, content, profile)
      <==> AllDescribed(environment, content.resources, ListOf(profile.resources))
  {
    if content.schedule.Some? && profile.schedule.Some? {
      if ScheduleAgrees(environment, content, profile) {
        EncodeIsInjective(environment.scheduleJson(content.schedule.value),
                          environment.scheduleJson(profile.schedule.value));
      }
    }
    var resources := ListOf(profile.resources);
    var expected := Map(resource => Expected(environment, resource), resources);
    if ResourcesAgree(environment, content, profile) {
      EncodeIsInjective(environment.resourcesJson(expected), environment.resourcesJson(content.resources));
    }
    if AllDescribed(environment, content.resources, resources) {
      forall k | 0 <= k < |resources| ensures content.resources[k] == expected[k] {
        assert Describes(environment, content.resources[k], resources[k]);
      }
      assert content.resources == expected;
    }
  }

  /** A revision passes with a profile exactly when its bytes have the digest it states and hold that profile, without
      errors and under the stated id, when schedule and metadata are the profile's, and when the signature is one of all
      of the revision but its schedule, under the key. */
  lemma PassingMeans(environment: Environment, revision: Revision, keyId: string, profile: Profile)
    requires Faithful(environment)
    ensures var content := revision.content;
      ValidateRevision(environment, revision, keyId) == Ok(profile)
      <==> && environment.sha256(content.canonicalBytes) == content.digest
           && Held(environment, content.canonicalBytes) == Some(profile) && environment.hasNoErrors(profile)
           && profile.id == content.profileId && SchedulesFit(environment, content.schedule, profile.schedule)
           && AllDescribed(environment, content.resources, ListOf(profile.resources))
           && environment.verify(Encode(environment.payloadJson(content.(schedule := None), keyId)),
                                 revision.signature)
  {
    AgreementMeans(environment, revision.content, profile);
  }

  /** The check that a refusal names fails. */
  ghost predicate Fails(environment: Environment, revision: Revision, keyId: string, mismatch: Mismatch) {
    var content := revision.content;
    var held := Held(environment, content.canonicalBytes);
    match mismatch
    case ContentDigest => environment.sha256(content.canonicalBytes) != content.digest
    case Malformed => held.None?
    case Contract => held.Some? && !environment.hasNoErrors(held.value)
    case Identity => held.Some? && held.value.id != content.profileId
    case ScheduleMetadata => held.Some? && !SchedulesFit(environment, content.schedule, held.value.schedule)
    case ResourceMetadata =>
      held.Some? && !AllDescribed(environment, content.resources, ListOf(held.value.resources))
    case Signature =>
      !environment.verify(Encode(environment.payloadJson(content.(schedule := None), keyId)), revision.signature)
  }

  lemma RefusalNamesItsReason(environment: Environment, revision: Revision, keyId: string)
    requires Faithful(environment) && ValidateRevision(environment, revision, keyId).Err?
    ensures Fails(environment, revision, keyId, ValidateRevision(environment, revision, keyId).error)
  {
    var held := Held(environment, revision.content.canonicalBytes);
    if held.Some? { AgreementMeans(environment, revision.content, held.value); }
  }

  /** What is signed stands for the whole content but its schedule, and for the key. */
  lemma PayloadIsInjective(environment: Environment, one: Unsigned, keyId: string, other: Unsigned, keyId': string)
    requires Faithful(environment)
    requires forall x, k, y, l :: environment.payloadJson(x, k) == environment.payloadJson(y, l) ==> x == y && k == l
    requires SigningPayload(environment, one, keyId) == SigningPayload(environment, other, keyId')
    ensures one == other.(schedule := one.schedule) && keyId == keyId'
  {
    EncodeIsInjective(environment.payloadJson(one.(schedule := None), keyId),
                      environment.payloadJson(other.(schedule := None), keyId'));
  }

  /** What publishing stores for a merged input profile. */
  ghost predicate IsBuiltFrom(environment: Environment, revision: Revision, profile: Profile) {
    var once := Normalize(environment.canonicalUrl, profile);
    var bytes := EncodeProfile(environment, once);
    && environment.hasNoErrors(once) && bytes.Some?
    && revision.content == Build(environment, once, bytes.value, revision.content.sequence,
                                 revision.content.publishedAt)
    && environment.verify(SigningPayload(environment, revision.content, environment.keyId), revision.signature)
  }

  lemma SameDigestSameSpec(environment: Environment, one: Spec, other: Spec)
    requires Faithful(environment)
    requires DigestOf(environment, environment.specJson(one)) == DigestOf(environment, environment.specJson(other))
    ensures one == other
  {
    EncodeIsInjective(environment.specJson(one), environment.specJson(other));
  }

  /** Resources whose only difference is the spec have the same metadata exactly when they are the same. */
  lemma SameMetadata(environment: Environment, one: Resource, other: Resource)
    requires Faithful(environment) && other == one.(spec := other.spec) && one.policy.Some?
    ensures Published(environment, one) == Expected(environment, other) <==> one == other
  {
    if Published(environment, one) == Expected(environment, other) {
      assert [DigestOf(environment, environment.specJson(one.spec))][0]
             == [DigestOf(environment, environment.specJson(other.spec))][0];
      SameDigestSameSpec(environment, one.spec, other.spec);
    }
  }

  lemma ResourcesAgreeIfSettled(environment: Environment, content: Unsigned, once: Profile, twice: Profile)
    requires Faithful(environment) && SameButSpecs(once, twice)
    requires content.resources == PublishedResources(environment, once)
    ensures ResourcesAgree(environment, content, twice) <==> twice == once
  {
    var expected := Map(resource => Expected(environment, resource), ListOf(twice.resources));
    EncodeIsInjective(environment.resourcesJson(expected), environment.resourcesJson(content.resources));
    forall k | 0 <= k < |once.resources.value|
      ensures content.resources[k] == expected[k] <==> once.resources.value[k] == twice.resources.value[k] {
      SameMetadata(environment, once.resources.value[k], twice.resources.value[k]);
    }
    if ResourcesAgree(environment, content, twice) { assert once.resources.value == twice.resources.value; }
    if twice == once { assert content.resources == expected; }
  }

  /** What publishing stores passes the check made before serving exactly when one pass of normalization settles the
      profile, that is when no tool's recipes leave their order by having their URLs canonicalized. */
  lemma PublishedPassesValidation(environment: Environment, revision: Revision, profile: Profile)
    requires Faithful(environment) && IsBuiltFrom(environment, revision, profile)
    ensures var once := Normalize(environment.canonicalUrl, profile);
      ValidateRevision(environment, revision, environment.keyId)
      == if AllStayOrdered(environment.canonicalUrl, ListOf(profile.resources)) then Ok(once) else Err(ResourceMetadata)
  {
    var once := Normalize(environment.canonicalUrl, profile);
    SecondPassKeepsTheRest(environment.canonicalUrl, profile);
    NormalizeTwice(environment.canonicalUrl, profile);
    PoliciesAreSet(environment.canonicalUrl, profile);
    BuiltIsValidated(environment, revision, once, Normalize(environment.canonicalUrl, once));
  }

  /** The two profiles differ in the specs of resources at most. */
  ghost predicate SameButSpecs(once: Profile, twice: Profile) {
    && once.resources.Some? && twice.resources.Some? && |twice.resources.value| == |once.resources.value|
    && twice == once.(resources := twice.resources)
    && forall k :: 0 <= k < |once.resources.value| ==>
      once.resources.value[k].policy.Some?
        && twice.resources.value[k] == once.resources.value[k].(spec := twice.resources.value[k].spec)
  }

  /** A revision with the metadata of one profile and the bytes of another. */
  lemma BuiltIsValidated(environment: Environment, revision: Revision, once: Profile, twice: Profile)
    requires Faithful(environment) && SameButSpecs(once, twice)
    requires environment.decodeProfile(environment.profileJson(twice)).Some? && environment.hasNoErrors(twice)
    requires revision.content == Build(environment, once, environment.canonicalJson(environment.profileJson(twice)),
                                       revision.content.sequence, revision.content.publishedAt)
    requires environment.verify(SigningPayload(environment, revision.content, environment.keyId), revision.signature)
    ensures ValidateRevision(environment, revision, environment.keyId) == if twice == once then Ok(once)
                                                                          else Err(ResourceMetadata)
  {
    ParseUndoesEncode(environment.profileJson(twice));
    assert Parse(revision.content.canonicalBytes) == Some(environment.profileJson(twice));
    ResourcesAgreeIfSettled(environment, revision.content, once, twice);
  }

  lemma PoliciesAreSet(canonical: Canonicalizer, profile: Profile)
    ensures var resources := ListOf(Normalize(canonical, profile).resources);
      forall k :: 0 <= k < |resources| ==> resources[k].policy.Some?
  {
    OrdersAreTotal();
    var mapped := NormalResources(canonical, ListOf(profile.resources));
    MembersOfSort(mapped, ResourceLe);
    var resources := ListOf(Normalize(canonical, profile).resources);
    forall k | 0 <= k < |resources| ensures resources[k].policy.Some? {
      assert resources[k] in mapped;
    }
  }
}
