/** Publishing profile revisions: `makePublication` of `src/profile/publication.ts` over the revision table of
    `src/state/state-repository.layer.ts`. */
module Publication {
  import opened Options
  import opened Texts
  import opened CanonicalJson
  import opened Normalization
  import opened ProposalReview
  import opened Revisions

  // ---------------------------------------------------------------- the profile to publish

  datatype Input = Input(proposal: Proposal, review: Review, authored: Profile, publishedAt: string)

  /** `map.set`: an id keeps the place of its first resource and the value of its last. */
  function SetById(resources: seq<Resource>, resource: Resource): seq<Resource> {
    if resources == [] then [resource]
    else if resources[0].id == resource.id then [resource] + resources[1..]
    else [resources[0]] + SetById(resources[1..], resource)
  }

  ghost predicate NoIdRepeats(resources: seq<Resource>) {
    forall j, k :: 0 <= j < k < |resources| ==> resources[j].id != resources[k].id
  }

  lemma {:induction false} SetByIdMembers(resources: seq<Resource>, resource: Resource, other: Resource)
    requires NoIdRepeats(resources)
    ensures other in SetById(resources, resource)
      <==> other == resource || (other in resources && other.id != resource.id)
  {
    if resources != [] {
      var tail := resources[1..];
      assert resources == [resources[0]] + tail;
      assert forall other :: other in tail ==> other.id != resources[0].id;
      if resources[0].id != resource.id { SetByIdMembers(tail, resource, other); }
    }
  }

  lemma {:induction false} SetByIdStaysDistinct(resources: seq<Resource>, resource: Resource)
    requires NoIdRepeats(resources)
    ensures NoIdRepeats(SetById(resources, resource))
  {
    if resources != [] && resources[0].id != resource.id {
      var tail := resources[1..];
      SetByIdStaysDistinct(tail, resource);
      var rest := SetById(tail, resource);
      forall k | 0 <= k < |rest| ensures rest[k].id != resources[0].id {
        SetByIdMembers(tail, resource, rest[k]);
        assert forall j :: 0 <= j < |tail| ==> tail[j] == resources[j + 1];
      }
    }
  }

  /** No later resource has this one's id. */
  ghost predicate IsLast(resources: seq<Resource>, k: int) {
    0 <= k < |resources| && forall j :: k < j < |resources| ==> resources[j].id != resources[k].id
  }

  ghost predicate LastOfId(resources: seq<Resource>, resource: Resource) {
    exists k :: IsLast(resources, k) && resources[k] == resource
  }

  lemma LastOfOneMore(resources: seq<Resource>, next: Resource, resource: Resource)
    ensures LastOfId(resources + [next], resource)
      <==> resource == next || (LastOfId(resources, resource) && resource.id != next.id)
  {
    var all := resources + [next];
    assert all[|resources|] == next && IsLast(all, |resources|);
    if LastOfId(all, resource) && resource != next {
      var k :| IsLast(all, k) && all[k] == resource;
      assert all[|resources|].id != all[k].id;
      assert forall j :: k < j < |resources| ==> all[j] == resources[j];
      assert IsLast(resources, k);
    }
    if LastOfId(resources, resource) && resource.id != next.id {
      var k :| IsLast(resources, k) && resources[k] == resource;
      assert IsLast(all, k);
    }
  }

  lemma AllMergedStep(all: seq<Resource>, k: nat, before: seq<Resource>)
    requires k < |all| && NoIdRepeats(before)
    requires forall resource :: resource in before <==> LastOfId(all[..k], resource)
    ensures NoIdRepeats(SetById(before, all[k]))
    ensures forall resource :: resource in SetById(before, all[k]) <==> LastOfId(all[..k + 1], resource)
  {
    SetByIdStaysDistinct(before, all[k]);
    assert all[..k + 1] == all[..k] + [all[k]];
    forall resource ensures resource in SetById(before, all[k]) <==> LastOfId(all[..k + 1], resource) {
      SetByIdMembers(before, all[k], resource);
      LastOfOneMore(all[..k], all[k], resource);
    }
  }

  lemma LastOfBoth(first: seq<Resource>, second: seq<Resource>, resource: Resource)
    ensures LastOfId(first + second, resource)
      <==> LastOfId(second, resource)
           || (LastOfId(first, resource) && forall other :: other in second ==> other.id != resource.id)
  {
    var all := first + second;
    if LastOfId(all, resource) {
      var k :| IsLast(all, k) && all[k] == resource;
      if k < |first| {
        assert IsLast(first, k) by { assert forall j :: 0 <= j < |first| ==> all[j] == first[j]; }
        forall j | 0 <= j < |second| ensures second[j].id != resource.id { assert all[|first| + j] == second[j]; }
      } else {
        assert forall j :: 0 <= j < |second| ==> all[|first| + j] == second[j];
        assert IsLast(second, k - |first|);
      }
    }
    if LastOfId(second, resource) {
      var k :| IsLast(second, k) && second[k] == resource;
      assert all[|first| + k] == resource && IsLast(all, |first| + k);
    } else if LastOfId(first, resource) && forall other :: other in second ==> other.id != resource.id {
      var k :| IsLast(first, k) && first[k] == resource;
      assert all[k] == resource && IsLast(all, k);
    }
  }

  function Merged(resources: seq<Resource>): seq<Resource> {
    if resources == [] then [] else SetById(Merged(resources[..|resources| - 1]), resources[|resources| - 1])
  }

  /** The merge holds each id once, with the resource that came last: an authored one before a discovered one. */
  lemma {:induction false} MergedIsLastOfEach(resources: seq<Resource>)
    ensures NoIdRepeats(Merged(resources))
    ensures forall resource :: resource in Merged(resources) <==> LastOfId(resources, resource)
  {
    if resources != [] {
      var k := |resources| - 1;
      MergedIsLastOfEach(resources[..k]);
      AllMergedStep(resources, k, Merged(resources[..k]));
      assert resources[..k + 1] == resources;
    }
  }

  function MergedProfile(input: Input): Profile {
    Profile(input.authored.id, input.authored.name, Some(ListOf(input.authored.groups)),
            Some(Merged(AcceptedResources(input.proposal) + ListOf(input.authored.resources))),
            Some(OrElse(input.authored.schedule, Daily("00:00"))))
  }

  /** The schedule that was authored, or else daily at midnight. */
  ghost predicate ScheduleFor(authored: Option<Schedule>, published: Option<Schedule>) {
    && (authored.Some? ==> ScheduleMeans(authored, published))
    && (authored.None? ==> published == Some(Daily("00:00")))
  }

  ghost predicate GroupsFor(authored: Option<seq<Group>>, published: seq<Group>) {
    multiset(published) == if authored.Some? then multiset(authored.value) else multiset{}
  }

  /** Of each id one resource: an authored one where there is one, and else an accepted finding. */
  ghost predicate AreChosen(input: Input, chosen: seq<Resource>) {
    && NoIdRepeats(chosen)
    && forall resource ::
      resource in chosen
      <==> LastOfId(ListOf(input.authored.resources), resource)
           || (LastOfId(AcceptedResources(input.proposal), resource)
               && forall authored :: authored in ListOf(input.authored.resources) ==> authored.id != resource.id)
  }

  /** Everything but the resources is the authored profile's. */
  ghost predicate IsAuthoredProfile(input: Input, profile: Profile) {
    && profile.id == input.authored.id && profile.name == input.authored.name
    && profile.groups.Some? && GroupsFor(input.authored.groups, profile.groups.value)
    && ScheduleFor(input.authored.schedule, profile.schedule)
  }

  /** The resources are those chosen, each meaning the same. */
  ghost predicate HasChosenResources(environment: Environment, input: Input, profile: Profile) {
    && profile.resources.Some?
    && exists chosen ::
      AreChosen(input, chosen)
      && EachMeans((resource, resource') => ResourceMeans(environment.canonicalUrl, resource, resource'), chosen,
                   profile.resources.value)
  }

  lemma MergedIsChosen(input: Input)
    ensures AreChosen(input, ListOf(MergedProfile(input).resources))
  {
    var accepted, authored := AcceptedResources(input.proposal), ListOf(input.authored.resources);
    MergedIsLastOfEach(accepted + authored);
    forall resource ensures resource in Merged(accepted + authored) <==> LastOfId(accepted + authored, resource) {}
    forall resource
      ensures LastOfId(accepted + authored, resource)
        <==> LastOfId(authored, resource)
             || (LastOfId(accepted, resource) && forall other :: other in authored ==> other.id != resource.id)
    {
      LastOfBoth(accepted, authored, resource);
    }
  }

  lemma NormalizedIsAuthored(environment: Environment, input: Input)
    ensures var profile := Normalize(environment.canonicalUrl, MergedProfile(input));
      IsAuthoredProfile(input, profile) && HasChosenResources(environment, input, profile)
  {
    MergedIsChosen(input);
    NormalizeKeepsMeaning(environment.canonicalUrl, MergedProfile(input));
  }

  method MachineProfileFor(environment: Environment, input: Input) returns (profile: Profile)
    ensures profile == Normalize(environment.canonicalUrl, MergedProfile(input))
    ensures IsAuthoredProfile(input, profile) && HasChosenResources(environment, input, profile)
  {
    var all := AcceptedResources(input.proposal) + ListOf(input.authored.resources);
    var resources: seq<Resource> := [];
    for k := 0 to |all|
      invariant resources == Merged(all[..k])
    {
      assert all[..k + 1][..k] == all[..k];
      resources := SetById(resources, all[k]);
    }
    assert all[..|all|] == all;
    profile := Normalize(environment.canonicalUrl,
                         Profile(input.authored.id, input.authored.name, Some(ListOf(input.authored.groups)),
                                                           Some(resources), Some(OrElse(input.authored.schedule,
                                                                                        Daily("00:00")))));
    NormalizedIsAuthored(environment, input);
  }

  // ---------------------------------------------------------------- stored revisions

  datatype PublishError =
    | ReviewRequired(decision: Decision) | ReviewerRequired | InvalidTimestamp | OtherProposalReviewed | Unresolved
    | InvalidResources | NotEncodable | Immutable | SigningFailed | InvalidSignature

  /** `validateReview`: an accepted review, by someone, of exactly this proposal. */
  function ReviewIssue(environment: Environment, input: Input): Option<PublishError> {
    if !input.review.decision.Accepted? then Some(ReviewRequired(input.review.decision))
    else if Trim(input.review.reviewer) == "" then Some(ReviewerRequired)
    else if !environment.isTimestamp(input.review.reviewedAt) || !environment.isTimestamp(input.publishedAt)
           then Some(InvalidTimestamp)
    else if input.review.proposalDigest != DigestOf(environment, environment.proposalJson(input.proposal))
           then Some(OtherProposalReviewed)
    else None
  }

  /** Accepted, by someone, at a time, and of this proposal. */
  ghost predicate IsReviewed(environment: Environment, input: Input) {
    && input.review.decision == Accepted && !IsBlank(input.review.reviewer)
    && environment.isTimestamp(input.review.reviewedAt) && environment.isTimestamp(input.publishedAt)
    && input.review.proposalDigest == environment.sha256(Encode(environment.proposalJson(input.proposal)))
  }

  /** The error names what is missing. */
  ghost predicate IsIssue(environment: Environment, input: Input, error: PublishError) {
    match error
    case ReviewRequired(decision) => decision == input.review.decision != Accepted
    case ReviewerRequired => IsBlank(input.review.reviewer)
    case InvalidTimestamp =>
      !environment.isTimestamp(input.review.reviewedAt) || !environment.isTimestamp(input.publishedAt)
    case OtherProposalReviewed =>
      input.review.proposalDigest != environment.sha256(Encode(environment.proposalJson(input.proposal)))
    case Unresolved => !IsResolved(input.proposal)
    case InvalidResources => !environment.hasNoErrors(Normalize(environment.canonicalUrl, MergedProfile(input)))
    case NotEncodable =>
      EncodeProfile(environment, Normalize(environment.canonicalUrl, MergedProfile(input))).None?
    case Immutable => false
    case _ => IsReviewed(environment, input) && IsResolved(input.proposal)
  }

  lemma ReviewIsTold(environment: Environment, input: Input)
    requires Faithful(environment)
    ensures ReviewIssue(environment, input).None? <==> IsReviewed(environment, input)
    ensures ReviewIssue(environment, input).Some?
      ==> IsIssue(environment, input, ReviewIssue(environment, input).value)
  {
    OnlyBlanksTrimAway(input.review.reviewer);
  }

  /** The review in hand is of the proposal that is published and of no other. */
  lemma ReviewIsOfThisProposal(environment: Environment, input: Input, reviewed: Proposal)
    requires Faithful(environment) && ReviewIssue(environment, input).None?
    requires forall one, other :: environment.proposalJson(one) == environment.proposalJson(other) ==> one == other
    ensures input.review.proposalDigest == DigestOf(environment, environment.proposalJson(reviewed))
      <==> reviewed == input.proposal
  {
    EncodeIsInjective(environment.proposalJson(reviewed), environment.proposalJson(input.proposal));
  }

  /** What is to be published, before the store is asked. */
  datatype Draft = Refused(error: PublishError) | Draft(profile: Profile, canonicalBytes: string)

  ghost function DraftOf(environment: Environment, input: Input): Draft {
    var profile := Normalize(environment.canonicalUrl, MergedProfile(input));
    var bytes := EncodeProfile(environment, profile);
    if ReviewIssue(environment, input).Some? then Refused(ReviewIssue(environment, input).value)
    else if !IsResolved(input.proposal) then Refused(Unresolved)
    else if !environment.hasNoErrors(profile) then Refused(InvalidResources)
    else if bytes.None? then Refused(NotEncodable)
    else Draft(profile, bytes.value)
  }

  lemma DraftIsTold(environment: Environment, input: Input)
    requires Faithful(environment)
    ensures DraftOf(environment, input).Draft? ==> IsReviewed(environment, input) && IsResolved(input.proposal)
    ensures DraftOf(environment, input).Refused?
      ==> IsIssue(environment, input, DraftOf(environment, input).error)
  {
    ReviewIsTold(environment, input);
  }

  /** The revision is the draft's, under some number, at some time, signed. */
  ghost predicate IsOfDraft(environment: Environment, draft: Draft, revision: Revision) {
    && draft.Draft?
    && revision.content == Build(environment, draft.profile, draft.canonicalBytes, revision.content.sequence,
                                 revision.content.publishedAt)
    && environment.verify(SigningPayload(environment, revision.content, environment.keyId), revision.signature)
  }

  lemma OfDraftIsBuilt(environment: Environment, input: Input, revision: Revision)
    requires IsOfDraft(environment, DraftOf(environment, input), revision)
    ensures IsBuiltFrom(environment, revision, MergedProfile(input))
  {
  }

  /** A new revision passes the check before serving exactly when its tools' recipes stay in order. */
  lemma NewRevisionPassesIfOrdered(environment: Environment, input: Input, revision: Revision)
    requires Faithful(environment) && IsOfDraft(environment, DraftOf(environment, input), revision)
    ensures ValidateRevision(environment, revision, environment.keyId)
      == if AllStayOrdered(environment.canonicalUrl, ListOf(MergedProfile(input).resources))
         then Ok(Normalize(environment.canonicalUrl, MergedProfile(input))) else Err(ResourceMetadata)
  {
    OfDraftIsBuilt(environment, input, revision);
    PublishedPassesValidation(environment, revision, MergedProfile(input));
  }

  /** A discovered resource that is published: accepted, and not replaced by an authored one. */
  ghost predicate IsPublishedFinding(input: Input, resource: Resource) {
    && LastOfId(AcceptedResources(input.proposal), resource)
    && forall authored :: authored in ListOf(input.authored.resources) ==> authored.id != resource.id
  }

  /** Authored profiles are normalized when they are read, so only discovered tools can keep a publication from passing
      the check before serving. */
  lemma AuthoredFilesPass(environment: Environment, input: Input, file: Profile, revision: Revision)
    requires Faithful(environment) && IsOfDraft(environment, DraftOf(environment, input), revision)
    requires input.authored == Normalize(environment.canonicalUrl, file)
    ensures ValidateRevision(environment, revision, environment.keyId).Ok?
      <==> forall resource :: IsPublishedFinding(input, resource)
                              ==> RecipesStayOrdered(environment.canonicalUrl, resource.spec)
  {
    var accepted, authored := AcceptedResources(input.proposal), ListOf(input.authored.resources);
    var merged := Merged(accepted + authored);
    NewRevisionPassesIfOrdered(environment, input, revision);
    NormalizedStaysOrdered(environment.canonicalUrl, file);
    MergedIsLastOfEach(accepted + authored);
    forall resource
      ensures resource in merged <==> LastOfId(authored, resource) || IsPublishedFinding(input, resource)
    {
      LastOfBoth(accepted, authored, resource);
    }
    if AllStayOrdered(environment.canonicalUrl, merged) {
      forall resource | IsPublishedFinding(input, resource)
        ensures RecipesStayOrdered(environment.canonicalUrl, resource.spec)
      {
        var k :| 0 <= k < |merged| && merged[k] == resource;
      }
    } else {
      var k :| 0 <= k < |merged| && !RecipesStayOrdered(environment.canonicalUrl, merged[k].spec);
      assert merged[k] in merged;
      assert !LastOfId(authored, merged[k]);
    }
  }

  ghost predicate BuildsGenuine(environment: Environment, draft: Draft) {
    forall revision :: IsOfDraft(environment, draft, revision) ==> WasBuilt(environment, revision)
  }

  lemma DraftBuildsGenuine(environment: Environment, input: Input)
    ensures BuildsGenuine(environment, DraftOf(environment, input))
  {
    var draft := DraftOf(environment, input);
    forall revision | IsOfDraft(environment, draft, revision) ensures WasBuilt(environment, revision) {
      OfDraftIsBuilt(environment, input, revision);
    }
  }

  type Store = map<string, Revision>

  ghost predicate WasBuilt(environment: Environment, revision: Revision) {
    exists profile :: IsBuiltFrom(environment, revision, profile)
  }

  /** Every revision stands under its content's id and was built from some profile. */
  ghost predicate Genuine(environment: Environment, store: Store) {
    forall id :: id in store ==> store[id].content.id == id && WasBuilt(environment, store[id])
  }

  predicate Holds(store: Store, profileId: string, sequence: nat, id: string) {
    id in store && store[id].content.profileId == profileId && store[id].content.sequence == sequence
  }

  ghost predicate HasSequence(store: Store, profileId: string, sequence: nat) {
    exists id :: Holds(store, profileId, sequence, id)
  }

  /** The profile's revisions have the sequence numbers 1 to `count`, each once. */
  ghost predicate Numbered(store: Store, profileId: string, count: nat) {
    && (forall sequence: nat :: HasSequence(store, profileId, sequence) <==> 1 <= sequence <= count)
    && forall sequence: nat, one, other ::
      Holds(store, profileId, sequence, one) && Holds(store, profileId, sequence, other) ==> one == other
  }

  /** A new revision with the next number. */
  lemma NumberedAfter(store: Store, revision: Revision, profileId: string, count: nat)
    requires Numbered(store, profileId, count) && revision.content.id !in store
    requires revision.content.profileId == profileId ==> revision.content.sequence == count + 1
    ensures Numbered(store[revision.content.id := revision], profileId, if revision.content.profileId == profileId
                                                                          then count + 1 else count)
  {
    var next := store[revision.content.id := revision];
    forall sequence: nat, id ensures Holds(next, profileId, sequence, id)
        <==> Holds(store, profileId, sequence, id)
             || (id == revision.content.id && revision.content.profileId == profileId
                 && sequence == revision.content.sequence)
    {
    }
    forall sequence: nat ensures HasSequence(next, profileId, sequence)
        <==> HasSequence(store, profileId, sequence)
             || (revision.content.profileId == profileId && sequence == revision.content.sequence)
    {
      if HasSequence(store, profileId, sequence) {
        var id :| Holds(store, profileId, sequence, id);
        assert Holds(next, profileId, sequence, id);
      }
      assert revision.content.profileId == profileId && sequence == revision.content.sequence
             ==> Holds(next, profileId, sequence, revision.content.id);
    }
    assert revision.content.profileId == profileId ==> !HasSequence(store, profileId, revision.content.sequence);
  }

  ghost function CountIn(counts: map<string, nat>, profileId: string): nat {
    if profileId in counts then counts[profileId] else 0
  }

  ghost predicate AllNumbered(store: Store, counts: map<string, nat>) {
    forall profileId :: Numbered(store, profileId, CountIn(counts, profileId))
  }

  lemma NextKeepsNumbers(store: Store, counts: map<string, nat>, revision: Revision)
    requires AllNumbered(store, counts) && revision.content.id !in store
    requires revision.content.sequence == CountIn(counts, revision.content.profileId) + 1
    ensures AllNumbered(store[revision.content.id := revision],
                        counts[revision.content.profileId := revision.content.sequence])
    ensures !HasSequence(store, revision.content.profileId, revision.content.sequence)
  {
    var profileId := revision.content.profileId;
    NextIsFree(store, profileId, CountIn(counts, profileId));
    var next, counts' := store[revision.content.id := revision], counts[profileId := revision.content.sequence];
    forall other ensures Numbered(next, other, CountIn(counts', other)) {
      NumberedAfter(store, revision, other, CountIn(counts, other));
    }
  }

  /** The revisions and how many there are of each profile. */
  datatype Table = Table(store: Store, counts: map<string, nat>)

  ghost predicate CanSign(environment: Environment, content: Unsigned) {
    var payload := SigningPayload(environment, content, environment.keyId);
    var signature := environment.sign(payload);
    signature.Some? && environment.verify(payload, signature.value)
  }

  /** The content is signed and stored, and nothing else changes; or it cannot be signed and nothing does. */
  ghost predicate Added(environment: Environment, before: Table, after: Table, content: Unsigned,
                        result: Result<Revision, PublishError>) {
    if CanSign(environment, content) then
      && result == Ok(Revision(content,
                               environment.sign(SigningPayload(environment, content, environment.keyId)).value))
      && after == Table(before.store[content.id := result.value], before.counts[content.profileId := content.sequence])
    else
      (result == Err(SigningFailed) || result == Err(InvalidSignature)) && after == before
  }

  /** What one publication does: refuse what is not valid, answer with what is there, or add a revision with the next
      number. */
  ghost predicate Outcome(environment: Environment, before: Table, after: Table, draft: Draft, publishedAt: string,
                          result: Result<Revision, PublishError>) {
    match draft
    case Refused(error) => result == Err(error) && after == before
    case Draft(profile, bytes) =>
      var id := RevisionId(profile.id, environment.sha256(bytes));
      if id in before.store then result == Ok(before.store[id]) && after == before
      else Added(environment, before, after,
                 Build(environment, profile, bytes, CountIn(before.counts, profile.id) + 1, publishedAt), result)
  }

  /** A revision says of the authored profile what it should: its id, groups and schedule, the time of publication, the
      digest of bytes that hold the same profile, the metadata of the chosen resources, and a signature of all that. */
  ghost predicate CarriesInput(environment: Environment, input: Input, revision: Revision) {
    var content := revision.content;
    var held := Held(environment, content.canonicalBytes);
    && content.profileId == input.authored.id && content.publishedAt == input.publishedAt
    && content.digest == environment.sha256(content.canonicalBytes)
    && content.id == input.authored.id + ":" + content.digest
    && GroupsFor(input.authored.groups, content.groups) && ScheduleFor(input.authored.schedule, content.schedule)
    && held.Some? && IsAuthoredProfile(input, held.value)
    && HoldsChosenMetadata(environment, input, content.resources)
    && environment.verify(Encode(environment.payloadJson(content.(schedule := None), environment.keyId)),
                          revision.signature)
  }

  ghost predicate HoldsChosenMetadata(environment: Environment, input: Input, published: seq<PublishedResource>) {
    exists profile :: HasChosenResources(environment, input, profile)
                      && AllDescribed(environment, published, ListOf(profile.resources))
  }

  lemma PublishedIsDescribed(environment: Environment, profile: Profile)
    requires Faithful(environment) && forall k :: 0 <= k < |ListOf(profile.resources)|
                                                  ==> ListOf(profile.resources)[k].policy.Some?
    ensures AllDescribed(environment, PublishedResources(environment, profile), ListOf(profile.resources))
  {
  }

  lemma MetadataIsChosen(environment: Environment, input: Input)
    requires Faithful(environment)
    ensures HoldsChosenMetadata(environment, input,
                                PublishedResources(environment,
                                                   Normalize(environment.canonicalUrl, MergedProfile(input))))
  {
    var profile := Normalize(environment.canonicalUrl, MergedProfile(input));
    NormalizedIsAuthored(environment, input);
    PoliciesAreSet(environment.canonicalUrl, MergedProfile(input));
    PublishedIsDescribed(environment, profile);
  }

  /** What the bytes hold was normalized once more, which leaves everything but the resources as it was. */
  lemma BytesHoldAuthored(environment: Environment, input: Input)
    requires Faithful(environment) && DraftOf(environment, input).Draft?
    ensures var held := Held(environment, DraftOf(environment, input).canonicalBytes);
      held.Some? && IsAuthoredProfile(input, held.value)
  {
    var once := Normalize(environment.canonicalUrl, MergedProfile(input));
    var twice := Normalize(environment.canonicalUrl, once);
    NormalizedIsAuthored(environment, input);
    SecondPassKeepsTheRest(environment.canonicalUrl, MergedProfile(input));
    ParseUndoesEncode(environment.profileJson(twice));
  }

  lemma GroupsAndScheduleAreBuilt(environment: Environment, input: Input, profile: Profile, bytes: string,
                                  sequence: nat, publishedAt: string)
    requires IsAuthoredProfile(input, profile)
    ensures var content := Build(environment, profile, bytes, sequence, publishedAt);
      && content.profileId == input.authored.id && content.publishedAt == publishedAt
      && content.canonicalBytes == bytes && content.digest == environment.sha256(bytes)
      && content.id == input.authored.id + ":" + content.digest
      && GroupsFor(input.authored.groups, content.groups) && ScheduleFor(input.authored.schedule, content.schedule)
      && content.resources == PublishedResources(environment, profile)
  {
  }

  lemma OfDraftCarriesInput(environment: Environment, input: Input, revision: Revision)
    requires Faithful(environment) && IsOfDraft(environment, DraftOf(environment, input), revision)
    requires revision.content.publishedAt == input.publishedAt
    ensures CarriesInput(environment, input, revision)
  {
    var draft := DraftOf(environment, input);
    BytesHoldAuthored(environment, input);
    NormalizedIsAuthored(environment, input);
    MetadataIsChosen(environment, input);
    GroupsAndScheduleAreBuilt(environment, input, draft.profile, draft.canonicalBytes, revision.content.sequence,
                              input.publishedAt);
  }

  lemma OutcomeIsOfDraft(environment: Environment, before: Table, after: Table, draft: Draft, publishedAt: string,
                         result: Result<Revision, PublishError>)
    requires Genuine(environment, before.store)
    requires Outcome(environment, before, after, draft, publishedAt, result)
    ensures result.Ok? && result.value.content.id !in before.store
      ==> IsOfDraft(environment, draft, result.value) && result.value.content.publishedAt == publishedAt
  {
  }

  lemma OutcomeCarriesInput(environment: Environment, before: Table, after: Table, input: Input,
                            result: Result<Revision, PublishError>)
    requires Faithful(environment) && Genuine(environment, before.store)
    requires Outcome(environment, before, after, DraftOf(environment, input), input.publishedAt, result)
    ensures result.Ok? && result.value.content.id !in before.store ==> CarriesInput(environment, input, result.value)
  {
    OutcomeIsOfDraft(environment, before, after, DraftOf(environment, input), input.publishedAt, result);
    if result.Ok? && result.value.content.id !in before.store {
      OfDraftCarriesInput(environment, input, result.value);
    }
  }

  class Repository {
    const environment: Environment
    var revisions: Store
    /** How many revisions each profile has; none for a profile that is not there. */
    ghost var counts: map<string, nat>

    ghost function Count(profileId: string): nat
      reads this
    {
      CountIn(counts, profileId)
    }

    ghost predicate Valid()
      reads this
    {
      Faithful(environment) && Genuine(environment, revisions) && AllNumbered(revisions, counts)
    }

    constructor (environment: Environment)
      requires Faithful(environment)
      ensures Valid() && revisions == map[] && this.environment == environment
    {
      this.environment := environment;
      revisions := map[];
      counts := map[];
    }

    method FindRevision(id: string) returns (found: Option<Revision>)
      ensures found == if id in revisions then Some(revisions[id]) else None
    {
      found := if id in revisions then Some(revisions[id]) else None;
    }

    /** The row with the greatest sequence number. */
    method GetLatestRevision(profileId: string) returns (latest: Option<Revision>)
      ensures IsGreatest(revisions, profileId, revisions.Keys, latest)
    {
      latest := None;
      var rest := revisions.Keys;
      while rest != {}
        invariant rest <= revisions.Keys && IsGreatest(revisions, profileId, revisions.Keys - rest, latest)
        decreases |rest|
      {
        var id :| id in rest;
        var revision := revisions[id];
        ghost var seen := revisions.Keys - rest;
        ghost var before := latest;
        if revision.content.profileId == profileId
          && (latest.None? || latest.value.content.sequence < revision.content.sequence) {
          latest := Some(revision);
        }
        GreatestOfOneMore(revisions, profileId, seen, before, id, latest);
        rest := rest - {id};
        assert revisions.Keys - rest == seen + {id};
      }
      assert revisions.Keys - rest == revisions.Keys;
    }

    /** The transaction: nothing for a revision already there as it is, a refusal where an id or a sequence number is
        taken. */
    method PublishRevision(revision: Revision) returns (error: Option<PublishError>)
      modifies this`revisions
      ensures var id := revision.content.id;
        if id in old(revisions)
        then revisions == old(revisions) && error == (if old(revisions)[id] == revision then None else Some(Immutable))
        else if HasSequence(old(revisions), revision.content.profileId, revision.content.sequence)
               then revisions == old(revisions) && error == Some(Immutable)
        else revisions == old(revisions)[id := revision] && error.None?
    {
      if revision.content.id in revisions {
        return if revisions[revision.content.id] == revision then None else Some(Immutable);
      }
      var taken := exists id :: id in revisions
                                && Holds(revisions, revision.content.profileId, revision.content.sequence, id);
      assert taken <==> HasSequence(revisions, revision.content.profileId, revision.content.sequence);
      if taken { return Some(Immutable); }
      revisions := revisions[revision.content.id := revision];
      return None;
    }

    /** The part of `publish` that does not look at the store. */
    method Prepare(input: Input) returns (draft: Draft)
      ensures draft == DraftOf(environment, input)
    {
      var issue := ReviewIssue(environment, input);
      if issue.Some? { return Refused(issue.value); }
      var reasons := UnresolvedReasons(input.proposal);
      if reasons != {} { return Refused(Unresolved); }
      var profile := MachineProfileFor(environment, input);
      if !environment.hasNoErrors(profile) { return Refused(InvalidResources); }
      var encoded := EncodeProfile(environment, profile);
      if encoded.None? { return Refused(NotEncodable); }
      return Draft(profile, encoded.value);
    }

    /** Publishing after review: the same content is published once, under the next number of its profile. */
    method Publish(input: Input) returns (result: Result<Revision, PublishError>)
      requires Valid()
      modifies this
      ensures Valid()
      ensures Outcome(environment, Table(old(revisions), old(counts)), Table(revisions, counts),
                      DraftOf(environment, input), input.publishedAt, result)
      ensures result.Ok? && result.value.content.id !in old(revisions)
        ==> CarriesInput(environment, input, result.value)
      ensures result.Ok? ==> IsReviewed(environment, input) && IsResolved(input.proposal)
      ensures result.Err? ==> IsIssue(environment, input, result.error)
    {
      var draft := Prepare(input);
      DraftIsTold(environment, input);
      DraftBuildsGenuine(environment, input);
      result := Store(draft, input.publishedAt);
      OutcomeCarriesInput(environment, Table(old(revisions), old(counts)), Table(revisions, counts), input, result);
    }

    method Store(draft: Draft, publishedAt: string) returns (result: Result<Revision, PublishError>)
      requires Valid() && BuildsGenuine(environment, draft)
      modifies this
      ensures Valid()
      ensures Outcome(environment, Table(old(revisions), old(counts)), Table(revisions, counts), draft, publishedAt,
                      result)
    {
      if draft.Refused? { return Err(draft.error); }
      var digest := environment.sha256(draft.canonicalBytes);
      var existing := FindRevision(RevisionId(draft.profile.id, digest));
      if existing.Some? {
        StoredIsTheSame(environment, revisions, RevisionId(draft.profile.id, digest), draft.profile.id,
                        draft.canonicalBytes);
        var content := existing.value.content;
        if content.profileId != draft.profile.id || content.digest != digest
          || content.canonicalBytes != draft.canonicalBytes {
          assert false;
          return Err(Immutable);
        }
        return Ok(existing.value);
      }
      result := StoreNew(draft, publishedAt);
    }

    method StoreNew(draft: Draft, publishedAt: string) returns (result: Result<Revision, PublishError>)
      requires Valid() && BuildsGenuine(environment, draft) && draft.Draft?
      requires RevisionId(draft.profile.id, environment.sha256(draft.canonicalBytes)) !in revisions
      modifies this
      ensures Valid()
      ensures Added(environment, Table(old(revisions), old(counts)), Table(revisions, counts),
                    Build(environment, draft.profile, draft.canonicalBytes, CountIn(old(counts), draft.profile.id) + 1,
                          publishedAt),
                    result)
    {
      var latest := GetLatestRevision(draft.profile.id);
      GreatestIsCount(revisions, draft.profile.id, latest, Count(draft.profile.id));
      var sequence := (if latest.Some? then latest.value.content.sequence else 0) + 1;
      var content := Build(environment, draft.profile, draft.canonicalBytes, sequence, publishedAt);
      var payload := SigningPayload(environment, content, environment.keyId);
      var signature := environment.sign(payload);
      if signature.None? { return Err(SigningFailed); }
      if !environment.verify(payload, signature.value) { return Err(InvalidSignature); }
      var revision := Revision(content, signature.value);
      assert IsOfDraft(environment, draft, revision);
      NextKeepsNumbers(revisions, counts, revision);
      StaysGenuine(environment, revisions, revision);
      var refused := PublishRevision(revision);
      counts := counts[draft.profile.id := sequence];
      return Ok(revision);
    }
  }

  // ---------------------------------------------------------------- runs

  /** The id that the content of a draft gets. */
  function ContentId(environment: Environment, draft: Draft): Option<string> {
    if draft.Refused? then None else Some(RevisionId(draft.profile.id, environment.sha256(draft.canonicalBytes)))
  }

  ghost function ContentIds(environment: Environment, inputs: seq<Input>): seq<Option<string>> {
    Map(input => ContentId(environment, DraftOf(environment, input)), inputs)
  }

  ghost predicate Extends(before: Store, after: Store) {
    forall id :: id in before ==> id in after && after[id] == before[id]
  }

  /** The result is what is stored under the content's id, and no id is ever found to name different content. */
  ghost predicate Answers(store: Store, id: Option<string>, result: Result<Revision, PublishError>) {
    && result != Err(Immutable)
    && (result.Ok? ==> id.Some? && id.value in store && store[id.value] == result.value)
  }

  lemma OutcomeMeans(environment: Environment, before: Table, after: Table, draft: Draft, publishedAt: string,
                     result: Result<Revision, PublishError>)
    requires Genuine(environment, before.store) && Outcome(environment, before, after, draft, publishedAt, result)
             && draft != Refused(Immutable)
    ensures Extends(before.store, after.store) && result != Err(Immutable)
    ensures Answers(after.store, ContentId(environment, draft), result)
    ensures result.Ok? && result.value.content.id !in before.store ==> IsOfDraft(environment, draft, result.value)
  {
  }

  ghost predicate AllAnswer(store: Store, ids: seq<Option<string>>, results: seq<Result<Revision, PublishError>>) {
    |results| <= |ids| && forall k :: 0 <= k < |results| ==> Answers(store, ids[k], results[k])
  }

  lemma OneMoreAnswers(before: Store, after: Store, ids: seq<Option<string>>,
                       results: seq<Result<Revision, PublishError>>, result: Result<Revision, PublishError>)
    requires Extends(before, after) && AllAnswer(before, ids, results) && |results| < |ids|
    requires Answers(after, ids[|results|], result)
    ensures AllAnswer(after, ids, results + [result])
  {
    forall k | 0 <= k < |results| ensures Answers(after, ids[k], results[k]) {
      assert Answers(before, ids[k], results[k]);
    }
  }

  /** Over any run, stored revisions never change, every profile's numbers are 1 to k, and two publications answer with
      the same revision, the one stored first, exactly when their content is the same. */
  method PublishAll(repository: Repository, inputs: seq<Input>) returns (results: seq<Result<Revision, PublishError>>)
    requires repository.Valid()
    modifies repository
    ensures repository.Valid() && Extends(old(repository.revisions), repository.revisions)
    ensures |results| == |inputs|
            && AllAnswer(repository.revisions, ContentIds(repository.environment, inputs), results)
    ensures SameForSameContent(ContentIds(repository.environment, inputs), results)
  {
    results := PublishEach(repository, inputs);
    SameContentSameRevision(repository.environment, repository.revisions, ContentIds(repository.environment, inputs),
                            results);
  }

  ghost predicate SameForSameContent(ids: seq<Option<string>>, results: seq<Result<Revision, PublishError>>) {
    |results| == |ids| && forall j, k :: 0 <= j < |results| && 0 <= k < |results| && results[j].Ok? && results[k].Ok?
                                         ==> (results[j] == results[k] <==> ids[j] == ids[k])
  }

  lemma SameContentSameRevision(environment: Environment, store: Store, ids: seq<Option<string>>,
                                results: seq<Result<Revision, PublishError>>)
    requires Genuine(environment, store) && AllAnswer(store, ids, results) && |results| == |ids|
    ensures SameForSameContent(ids, results)
  {
    forall j, k | 0 <= j < |results| && 0 <= k < |results| && results[j].Ok? && results[k].Ok?
      ensures results[j] == results[k] <==> ids[j] == ids[k]
    {
      assert Answers(store, ids[j], results[j]) && Answers(store, ids[k], results[k]);
    }
  }

  method PublishEach(repository: Repository, inputs: seq<Input>) returns (results: seq<Result<Revision, PublishError>>)
    requires repository.Valid()
    modifies repository
    ensures repository.Valid() && Extends(old(repository.revisions), repository.revisions)
    ensures |results| == |inputs|
            && AllAnswer(repository.revisions, ContentIds(repository.environment, inputs), results)
  {
    results := [];
    for k := 0 to |inputs|
      invariant repository.Valid() && Extends(old(repository.revisions), repository.revisions)
      invariant |results| == k && AllAnswer(repository.revisions, ContentIds(repository.environment, inputs), results)
    {
      var result := PublishNext(repository, inputs, k, results);
      results := results + [result];
    }
  }

  method PublishNext(repository: Repository, inputs: seq<Input>, k: nat, results: seq<Result<Revision, PublishError>>)
    returns (result: Result<Revision, PublishError>)
    requires repository.Valid() && k < |inputs| && |results| == k
    requires AllAnswer(repository.revisions, ContentIds(repository.environment, inputs), results)
    modifies repository
    ensures repository.Valid() && Extends(old(repository.revisions), repository.revisions)
    ensures AllAnswer(repository.revisions, ContentIds(repository.environment, inputs), results + [result])
  {
    ghost var before := Table(repository.revisions, repository.counts);
    result := repository.Publish(inputs[k]);
    OutcomeAnswers(repository.environment, before, Table(repository.revisions, repository.counts), inputs, k, results,
                   result);
  }

  lemma OutcomeAnswers(environment: Environment, before: Table, after: Table, inputs: seq<Input>, k: nat,
                       results: seq<Result<Revision, PublishError>>, result: Result<Revision, PublishError>)
    requires k < |inputs| && |results| == k && Genuine(environment, before.store)
    requires AllAnswer(before.store, ContentIds(environment, inputs), results)
    requires Outcome(environment, before, after, DraftOf(environment, inputs[k]), inputs[k].publishedAt, result)
    ensures Extends(before.store, after.store) && result != Err(Immutable)
    ensures AllAnswer(after.store, ContentIds(environment, inputs), results + [result])
  {
    OutcomeMeans(environment, before, after, DraftOf(environment, inputs[k]), inputs[k].publishedAt, result);
    OneMoreAnswers(before.store, after.store, ContentIds(environment, inputs), results, result);
  }

  ghost predicate IsGreatest(store: Store, profileId: string, seen: set<string>, latest: Option<Revision>) {
    && (latest.Some?
        ==> exists id :: id in seen && id in store && store[id] == latest.value
                         && latest.value.content.profileId == profileId)
    && forall id :: id in seen && id in store && store[id].content.profileId == profileId
                    ==> latest.Some? && store[id].content.sequence <= latest.value.content.sequence
  }

  lemma GreatestOfOneMore(store: Store, profileId: string, seen: set<string>, before: Option<Revision>, id: string,
                          latest: Option<Revision>)
    requires IsGreatest(store, profileId, seen, before) && id in store
    requires latest == if store[id].content.profileId == profileId
             && (before.None? || before.value.content.sequence < store[id].content.sequence)
                       then Some(store[id]) else before
    ensures IsGreatest(store, profileId, seen + {id}, latest)
  {
    if latest.Some? && latest == before {
      var at :| at in seen && at in store && store[at] == latest.value && latest.value.content.profileId == profileId;
      assert at in seen + {id};
    }
  }

  /** With the numbers 1 to `count` given out, the greatest one is `count`. */
  lemma GreatestIsCount(store: Store, profileId: string, latest: Option<Revision>, count: nat)
    requires Numbered(store, profileId, count) && IsGreatest(store, profileId, store.Keys, latest)
    ensures (if latest.Some? then latest.value.content.sequence else 0) == count
  {
    if count > 0 {
      assert HasSequence(store, profileId, count);
      var id :| Holds(store, profileId, count, id);
      assert id in store.Keys;
    }
    if latest.Some? {
      var id :| id in store.Keys && id in store && store[id] == latest.value
                && latest.value.content.profileId == profileId;
      assert Holds(store, profileId, latest.value.content.sequence, id);
      assert HasSequence(store, profileId, latest.value.content.sequence);
    }
  }

  lemma NextIsFree(store: Store, profileId: string, count: nat)
    requires Numbered(store, profileId, count)
    ensures !HasSequence(store, profileId, count + 1)
  {
  }

  /** An id stands for one content only. */
  lemma StoredIsTheSame(environment: Environment, store: Store, id: string, profileId: string, bytes: string)
    requires Faithful(environment) && Genuine(environment, store) && id in store
    requires id == RevisionId(profileId, environment.sha256(bytes))
    ensures var content := store[id].content;
      content.profileId == profileId && content.digest == environment.sha256(bytes) && content.canonicalBytes == bytes
  {
    var content := store[id].content;
    assert WasBuilt(environment, store[id]);
    var profile :| IsBuiltFrom(environment, store[id], profile);
    RevisionIdIsInjective(content.profileId, content.digest, profileId, environment.sha256(bytes));
  }

  lemma StaysGenuine(environment: Environment, store: Store, revision: Revision)
    requires Genuine(environment, store) && WasBuilt(environment, revision)
    ensures Genuine(environment, store[revision.content.id := revision])
  {
  }
}
