/** The reviewed discovery proposal of a publication (`src/profile/publication.ts`): what keeps it from being published,
    and which of its findings are published. Turning a finding into a resource is a parameter: a finding carries its
    resource. */
module ProposalReview {
  import opened Options
  import opened Texts
  import opened Normalization

  datatype Evidence = Evidence(sourcePath: string, kind: string, confidence: string, reviewStatus: string,
                               invocation: seq<string>)

  datatype ProposedResource = ProposedResource(id: string, kind: string, reviewStatus: string, evidence: seq<Evidence>)

  /** A discovered tool or skill. */
  datatype Finding = Finding(id: string, reviewStatus: string, resource: Resource)

  datatype Proposal = Proposal(agentTasks: seq<string>, resources: seq<ProposedResource>, evidence: seq<Evidence>,
                               tools: seq<Finding>, skills: seq<Finding>)

  datatype Decision = Accepted | Pending | Rejected

  datatype Review = Review(decision: Decision, reviewer: string, reviewedAt: string, proposalDigest: string)

  // ---------------------------------------------------------------- what is unresolved

  datatype Reason =
    | AgentTask(id: string)
    | ResourceNeedsReview(kind: string, id: string)
    | EvidenceNeedsReview(sourcePath: string, kind: string)

  predicate IsSettled(evidence: Evidence) {
    evidence.reviewStatus == "accepted" && evidence.confidence != "review" && evidence.kind != "prose"
  }

  predicate IsSkillName(name: string) {
    name != "" && forall c :: c in name ==> IsLetter(c) || '0' <= c <= '9' || c == '.' || c == '_' || c == '-'
  }

  /** `skills/<name>/SKILL.md`, whatever the case. */
  predicate IsSkillFile(path: string) {
    var lower := Lower(path);
    |lower| > 16 && lower[..7] == "skills/" && lower[|lower| - 9..] == "/skill.md" && IsSkillName(lower[7..|lower| - 9])
  }

  predicate IsSkillEvidence(evidence: Evidence) {
    evidence.invocation != [] && IsSkillFile(evidence.invocation[0])
  }

  function ReasonOf(evidence: Evidence): Reason {
    EvidenceNeedsReview(evidence.sourcePath, evidence.kind)
  }

  /** Evidence that a person must look at. */
  ghost predicate NeedsReview(evidence: Evidence) {
    evidence.reviewStatus != "accepted" || evidence.confidence == "review" || evidence.kind == "prose"
  }

  ghost predicate IsNameLetter(c: char) {
    'a' <= c <= 'z' || 'A' <= c <= 'Z' || '0' <= c <= '9' || c == '.' || c == '_' || c == '-'
  }

  /** The path of a skill's file, `skills/<name>/SKILL.md` in any case. */
  ghost predicate NamesSkill(path: string) {
    exists name :: IsPathOfSkill(path, name)
  }

  ghost predicate IsPathOfSkill(path: string, name: string) {
    Lower(path) == "skills/" + name + "/skill.md" && name != "" && forall c :: c in name ==> IsNameLetter(c)
  }

  ghost predicate IsOfSkill(evidence: Evidence) {
    evidence.invocation != [] && NamesSkill(evidence.invocation[0])
  }

  lemma SkillFileIsTold(path: string)
    ensures IsSkillFile(path) <==> NamesSkill(path)
  {
    var lower := Lower(path);
    if IsSkillFile(path) {
      var name := lower[7..|lower| - 9];
      assert lower == lower[..7] + name + lower[|lower| - 9..];
      assert IsPathOfSkill(path, name);
    }
    if name :| IsPathOfSkill(path, name) {
      assert lower[..7] == "skills/" && lower[|lower| - 9..] == "/skill.md" && lower[7..|lower| - 9] == name;
    }
  }

  lemma EvidenceIsTold(evidence: Evidence)
    ensures IsSettled(evidence) <==> !NeedsReview(evidence)
    ensures IsSkillEvidence(evidence) <==> IsOfSkill(evidence)
  {
    if evidence.invocation != [] { SkillFileIsTold(evidence.invocation[0]); }
  }

  lemma AllEvidenceIsTold()
    ensures forall evidence :: IsSettled(evidence) <==> !NeedsReview(evidence)
    ensures forall evidence :: IsSkillEvidence(evidence) <==> IsOfSkill(evidence)
  {
    forall evidence ensures IsSettled(evidence) <==> !NeedsReview(evidence) { EvidenceIsTold(evidence); }
    forall evidence ensures IsSkillEvidence(evidence) <==> IsOfSkill(evidence) { EvidenceIsTold(evidence); }
  }

  /** The tasks, the resources that are not skills and the evidence that is not of skills must all be settled. */
  ghost predicate IsResolved(proposal: Proposal) {
    && proposal.agentTasks == []
    && (forall resource :: resource in proposal.resources && resource.kind != "skill" ==>
          resource.reviewStatus == "accepted" && forall evidence :: evidence in resource.evidence
                                                                    ==> !NeedsReview(evidence))
    && forall evidence :: evidence in proposal.evidence && !IsOfSkill(evidence) ==> !NeedsReview(evidence)
  }

  ghost predicate IsResourceReason(resource: ProposedResource, reason: Reason) {
    && resource.kind != "skill"
    && ((resource.reviewStatus != "accepted" && reason == ResourceNeedsReview(resource.kind, resource.id))
        || exists evidence :: evidence in resource.evidence && NeedsReview(evidence)
                              && reason == EvidenceNeedsReview(evidence.sourcePath, evidence.kind))
  }

  ghost predicate IsReason(proposal: Proposal, reason: Reason) {
    || (reason.AgentTask? && reason.id in proposal.agentTasks)
    || (exists resource :: resource in proposal.resources && IsResourceReason(resource, reason))
    || exists evidence :: evidence in proposal.evidence && !IsOfSkill(evidence) && NeedsReview(evidence)
                          && reason == EvidenceNeedsReview(evidence.sourcePath, evidence.kind)
  }

  function UnsettledReasons(evidence: seq<Evidence>): set<Reason> {
    set item | item in evidence && !IsSettled(item) :: ReasonOf(item)
  }

  /** The reasons, each once; there is none exactly when the proposal is resolved. */
  method UnresolvedReasons(proposal: Proposal) returns (reasons: set<Reason>)
    ensures forall reason :: reason in reasons <==> IsReason(proposal, reason)
    ensures reasons == {} <==> IsResolved(proposal)
  {
    AllEvidenceIsTold();
    reasons := set id | id in proposal.agentTasks :: AgentTask(id);
    for k := 0 to |proposal.resources|
      invariant forall reason :: reason in reasons <==>
        (reason.AgentTask? && reason.id in proposal.agentTasks)
        || exists j :: 0 <= j < k && IsResourceReason(proposal.resources[j], reason)
    {
      var resource := proposal.resources[k];
      if resource.kind != "skill" {
        if resource.reviewStatus != "accepted" { reasons := reasons + {ResourceNeedsReview(resource.kind,
                                                                                           resource.id)}; }
        reasons := reasons + UnsettledReasons(resource.evidence);
      }
    }
    reasons := reasons + set item | item in proposal.evidence && !IsSkillEvidence(item)
               && !IsSettled(item) :: ReasonOf(item);
    NoReason(proposal);
    assert reasons == {} <==> forall reason :: reason !in reasons;
  }

  lemma NoReason(proposal: Proposal)
    ensures IsResolved(proposal) <==> forall reason :: !IsReason(proposal, reason)
  {
    if forall reason :: !IsReason(proposal, reason) {
      if proposal.agentTasks != [] { assert IsReason(proposal, AgentTask(proposal.agentTasks[0])); }
      forall resource | resource in proposal.resources && resource.kind != "skill"
        ensures resource.reviewStatus == "accepted" && forall evidence :: evidence in resource.evidence
                                                                          ==> !NeedsReview(evidence)
      {
        NoResourceReason(proposal, resource);
      }
      forall evidence | evidence in proposal.evidence && !IsOfSkill(evidence) ensures !NeedsReview(evidence) {
        assert !IsReason(proposal, ReasonOf(evidence));
      }
    }
  }

  lemma NoResourceReason(proposal: Proposal, resource: ProposedResource)
    requires resource in proposal.resources && resource.kind != "skill" && forall reason :: !IsReason(proposal, reason)
    ensures resource.reviewStatus == "accepted" && forall evidence :: evidence in resource.evidence
                                                                      ==> !NeedsReview(evidence)
  {
    assert !IsReason(proposal, ResourceNeedsReview(resource.kind, resource.id));
    forall evidence | evidence in resource.evidence ensures !NeedsReview(evidence) {
      assert !IsReason(proposal, ReasonOf(evidence));
    }
  }

  // ---------------------------------------------------------------- accepted findings

  /** The status of the last proposed resource with this id. */
  function StatusOf(resources: seq<ProposedResource>, id: string): Option<string> {
    if resources == [] then None
    else var last := resources[|resources| - 1];
         if last.id == id then Some(last.reviewStatus) else StatusOf(resources[..|resources| - 1], id)
  }

  predicate IsAccepted(proposal: Proposal, finding: Finding) {
    finding.reviewStatus == "accepted" && OrElse(StatusOf(proposal.resources, finding.id), "accepted") == "accepted"
  }

  function AcceptedOf(proposal: Proposal, findings: seq<Finding>): seq<Resource> {
    if findings == [] then []
    else if IsAccepted(proposal, findings[0]) then [findings[0].resource] + AcceptedOf(proposal, findings[1..])
    else AcceptedOf(proposal, findings[1..])
  }

  /** Accepted tools, then accepted skills. */
  function AcceptedResources(proposal: Proposal): seq<Resource> {
    AcceptedOf(proposal, proposal.tools) + AcceptedOf(proposal, proposal.skills)
  }

  /** The finding is accepted, and so is the proposed resource of that id that comes last, if there is one. */
  ghost predicate IsTwiceAccepted(proposal: Proposal, finding: Finding) {
    finding.reviewStatus == "accepted"
      && forall k :: IsLastProposed(proposal.resources, finding.id, k)
                     ==> proposal.resources[k].reviewStatus == "accepted"
  }

  ghost predicate IsLastProposed(resources: seq<ProposedResource>, id: string, k: int) {
    0 <= k < |resources| && resources[k].id == id && forall j :: k < j < |resources| ==> resources[j].id != id
  }

  lemma {:induction false} StatusIsOfLast(resources: seq<ProposedResource>, id: string)
    ensures StatusOf(resources, id).None? ==> forall k :: 0 <= k < |resources| ==> resources[k].id != id
    ensures StatusOf(resources, id).Some?
      ==> exists k :: IsLastProposed(resources, id, k) && Some(resources[k].reviewStatus) == StatusOf(resources, id)
  {
    if resources != [] {
      var before := resources[..|resources| - 1];
      StatusIsOfLast(before, id);
      if resources[|resources| - 1].id == id {
        assert IsLastProposed(resources, id, |resources| - 1);
      } else if StatusOf(before, id).Some? {
        var k :| IsLastProposed(before, id, k) && Some(before[k].reviewStatus) == StatusOf(before, id);
        assert IsLastProposed(resources, id, k);
      }
    }
  }

  lemma AcceptedIsTold(proposal: Proposal, finding: Finding)
    ensures IsAccepted(proposal, finding) <==> IsTwiceAccepted(proposal, finding)
  {
    StatusIsOfLast(proposal.resources, finding.id);
    if StatusOf(proposal.resources, finding.id).Some? {
      var k :| IsLastProposed(proposal.resources, finding.id, k)
               && Some(proposal.resources[k].reviewStatus) == StatusOf(proposal.resources, finding.id);
      forall j | IsLastProposed(proposal.resources, finding.id, j) ensures j == k {}
    }
  }

  /** The places of the accepted findings, all of them and in order. */
  ghost predicate ArePlacesOfAccepted(proposal: Proposal, findings: seq<Finding>, places: seq<int>) {
    && (forall j, k :: 0 <= j < k < |places| ==> places[j] < places[k])
    && forall place :: place in places <==> 0 <= place < |findings| && IsTwiceAccepted(proposal, findings[place])
  }

  lemma {:induction false} AcceptedPlaces(proposal: Proposal, findings: seq<Finding>) returns (places: seq<int>)
    ensures ArePlacesOfAccepted(proposal, findings, places) && |AcceptedOf(proposal, findings)| == |places|
    ensures forall k :: 0 <= k < |places| ==>
      0 <= places[k] < |findings| && AcceptedOf(proposal, findings)[k] == findings[places[k]].resource
    decreases |findings|
  {
    if findings == [] { return []; }
    var before, last := findings[..|findings| - 1], |findings| - 1;
    places := AcceptedPlaces(proposal, before);
    AcceptedOfLast(proposal, before, findings[last]);
    assert findings == before + [findings[last]];
    AcceptedIsTold(proposal, findings[last]);
    forall k | 0 <= k < |places| ensures 0 <= places[k] < last { assert places[k] in places; }
    if IsAccepted(proposal, findings[last]) {
      ghost var earlier := places;
      places := places + [last];
      forall place ensures place in places <==> place in earlier || place == last {}
    }
  }

  lemma {:induction false} AcceptedOfLast(proposal: Proposal, findings: seq<Finding>, last: Finding)
    ensures AcceptedOf(proposal, findings + [last])
            == AcceptedOf(proposal, findings) + if IsAccepted(proposal, last) then [last.resource] else []
  {
    if findings == [] {
      assert [] + [last] == [last] && [last][1..] == [];
    } else {
      assert (findings + [last])[1..] == findings[1..] + [last];
      AcceptedOfLast(proposal, findings[1..], last);
    }
  }

  lemma {:induction false} AcceptedOfBoth(proposal: Proposal, first: seq<Finding>, second: seq<Finding>)
    ensures AcceptedOf(proposal, first + second) == AcceptedOf(proposal, first) + AcceptedOf(proposal, second)
    decreases |second|
  {
    if second == [] {
      assert first + second == first;
    } else {
      var before, last := second[..|second| - 1], second[|second| - 1];
      AcceptedOfBoth(proposal, first, before);
      AcceptedOfLast(proposal, first + before, last);
      AcceptedOfLast(proposal, before, last);
      assert first + second == first + before + [last] && second == before + [last];
    }
  }

  /** What is published of the findings, tools before skills, in order: the resources of exactly those accepted, both as
      a finding and as a proposed resource where there is one. */
  lemma OnlyAcceptedIsPublished(proposal: Proposal) returns (places: seq<int>)
    ensures var findings := proposal.tools + proposal.skills;
      && ArePlacesOfAccepted(proposal, findings, places) && |AcceptedResources(proposal)| == |places|
      && forall k :: 0 <= k < |places| ==>
        0 <= places[k] < |findings| && AcceptedResources(proposal)[k] == findings[places[k]].resource
  {
    AcceptedOfBoth(proposal, proposal.tools, proposal.skills);
    places := AcceptedPlaces(proposal, proposal.tools + proposal.skills);
  }
}
