/** `getAuthorizedBlob` of `src/enrollment/enrollment.layer.ts` with its two bounded caches. Whatever was
    asked before, a reply is the one the same code gives with both caches empty. */
module BlobCache {
  import opened Options
  import opened Authorization
  import Sorting
  import opened Texts

  const MAXIMUM_REVISION_VALIDATION_CACHE_ENTRIES: nat := 1024
  const MAXIMUM_AUTHORIZED_BLOB_INDEX_ENTRIES: nat := 1024
  const MAXIMUM_CANDIDATES_PER_AUTHORIZED_BLOB_INDEX_ENTRY: nat := 1024

  // ---------------------------------------------------------------- insertion-ordered maps

  ghost predicate DistinctKeys<V>(entries: seq<(string, V)>) {
    forall j, k :: 0 <= j < k < |entries| ==> entries[j].0 != entries[k].0
  }

  function Lookup<V>(entries: seq<(string, V)>, key: string): Option<V> {
    if entries == [] then None else if entries[0].0 == key then Some(entries[0].1) else Lookup(entries[1..], key)
  }

  function Without<V>(entries: seq<(string, V)>, key: string): seq<(string, V)> {
    if entries == [] then []
    else (if entries[0].0 == key then [] else [entries[0]]) + Without(entries[1..], key)
  }

  /** The `limit` entries inserted last, in order. */
  function Newest<V>(entries: seq<(string, V)>, limit: nat): seq<(string, V)> {
    if |entries| <= limit then entries else entries[|entries| - limit..]
  }

  lemma {:induction false} WithoutElements<V>(entries: seq<(string, V)>, key: string)
    ensures forall entry :: entry in Without(entries, key) <==> entry in entries && entry.0 != key
    ensures |Without(entries, key)| <= |entries|
  {
    if entries != [] {
      WithoutElements(entries[1..], key);
      assert entries == [entries[0]] + entries[1..];
    }
  }

  lemma {:induction false} WithoutElement<V>(entries: seq<(string, V)>, key: string, entry: (string, V))
    requires entry in Without(entries, key)
    ensures exists j :: 0 <= j < |entries| && entries[j] == entry
  {
    if entries[0] == entry {
    } else {
      WithoutElement(entries[1..], key, entry);
      var j :| 0 <= j < |entries[1..]| && entries[1..][j] == entry;
      assert entries[j + 1] == entry;
    }
  }

  lemma {:induction false} WithoutMeaning<V>(entries: seq<(string, V)>, key: string)
    requires DistinctKeys(entries)
    ensures DistinctKeys(Without(entries, key))
  {
    if entries != [] {
      WithoutMeaning(entries[1..], key);
      WithoutElements(entries[1..], key);
      var rest := Without(entries[1..], key);
      forall k | 0 <= k < |rest| ensures rest[k].0 != entries[0].0 {
        WithoutElement(entries[1..], key, rest[k]);
        var j :| 0 <= j < |entries| - 1 && entries[j + 1] == rest[k];
      }
    }
  }

  lemma {:induction false} LookupMeaning<V>(entries: seq<(string, V)>, key: string)
    ensures Lookup(entries, key).Some? ==> (key, Lookup(entries, key).value) in entries
    ensures Lookup(entries, key).None? ==> forall entry :: entry in entries ==> entry.0 != key
  {
    if entries != [] {
      LookupMeaning(entries[1..], key);
      assert entries == [entries[0]] + entries[1..];
      assert entries[0] == (entries[0].0, entries[0].1);
    }
  }

  /** A JavaScript `Map`: keys in the order they were first set. */
  class OrderedMap<V> {
    var entries: seq<(string, V)>

    ghost predicate Valid()
      reads this
    {
      DistinctKeys(entries)
    }

    constructor ()
      ensures entries == []
    {
      entries := [];
    }

    method Get(key: string) returns (value: Option<V>)
      ensures value == Lookup(entries, key)
    {
      value := Lookup(entries, key);
    }

    method Delete(key: string)
      modifies this
      ensures entries == Without(old(entries), key)
    {
      entries := Without(entries, key);
    }

    /** `set` of a key that is not there appends it. */
    method SetNew(key: string, value: V)
      requires Lookup(entries, key).None?
      modifies this
      ensures entries == old(entries) + [(key, value)]
    {
      entries := entries + [(key, value)];
    }
  }

  /** `cacheSet`: the entry becomes the newest, and the oldest ones make room for it. */
  method CacheSet<V>(cache: OrderedMap<V>, key: string, value: V, maximumEntries: nat)
    requires cache.Valid()
    modifies cache
    ensures cache.Valid() && |cache.entries| <= maximumEntries
    ensures cache.entries == Newest(Without(old(cache.entries), key) + [(key, value)], maximumEntries)
  {
    WithoutMeaning(cache.entries, key);
    WithoutElements(cache.entries, key);
    cache.Delete(key);
    LookupMeaning(cache.entries, key);
    cache.SetNew(key, value);
    EvictOldest(cache, maximumEntries);
  }

  /** The eviction loop: delete the oldest key while there are too many. */
  method EvictOldest<V>(cache: OrderedMap<V>, maximumEntries: nat)
    requires cache.Valid()
    modifies cache
    ensures cache.Valid() && cache.entries == Newest(old(cache.entries), maximumEntries)
  {
    ghost var full := cache.entries;
    ghost var dropped := 0;
    while |cache.entries| > maximumEntries
      invariant 0 <= dropped <= |full| && cache.entries == full[dropped..]
      invariant dropped > 0 ==> |cache.entries| >= maximumEntries
      invariant cache.Valid()
      decreases |cache.entries|
    {
      WithoutOldest(cache.entries);
      cache.Delete(cache.entries[0].0);
      dropped := dropped + 1;
    }
  }

  lemma WithoutOldest<V>(entries: seq<(string, V)>)
    requires DistinctKeys(entries) && entries != []
    ensures Without(entries, entries[0].0) == entries[1..]
  {
    WithoutAbsent(entries[1..], entries[0].0);
  }

  lemma {:induction false} WithoutAbsent<V>(entries: seq<(string, V)>, key: string)
    requires forall k :: 0 <= k < |entries| ==> entries[k].0 != key
    ensures Without(entries, key) == entries
  {
    if entries != [] {
      WithoutAbsent(entries[1..], key);
      assert entries == [entries[0]] + entries[1..];
    }
  }

  // ---------------------------------------------------------------- the source's data

  /** A stored revision; `content` stands for every signed field but the resources. */
  datatype Revision = Revision(id: string, resources: seq<Resource>, content: string)

  /** One resource of the decoded profile, with the canonical bytes of its specification. */
  datatype Authored = Authored(id: string, spec: string)

  type Profile = seq<Authored>

  datatype Candidate = Candidate(revision: string, resource: string)

  datatype Failure =
    | RevisionMissing | RevisionRejected(reason: string) | NoCanonicalResource | DigestMismatch | BlobNotFound

  type Reply = Result<string, Failure>

  /** Identifiers as `src/domain/brand.ts` admits them, as far as keys depend on it. */
  predicate IsIdentifier(text: string) {
    text != "" && '\0' !in text && '\n' !in text
  }

  /** What stays the same during a run: the signing key, the digest, and how a revision is checked against them. */
  datatype Source = Source(validate: Revision -> Result<Profile, Failure>, version: Revision -> string,
                           digest: string -> string, keyId: string, keyFingerprint: string) {
    ghost predicate Sound() {
      && (forall one, other :: version(one) == version(other) ==> one == other)
      && (forall revision :: IsIdentifier(version(revision)))
      && (forall revision :: validate(revision).Err? ==> validate(revision).error.RevisionRejected?)
    }

    function CacheKey(revision: Revision): string {
      Join([revision.id, version(revision), keyId, keyFingerprint], "\0")
    }
  }

  datatype Repository = Repository(revisions: map<string, Revision>, blobs: map<string, seq<Candidate>>) {
    function Candidates(blob: string): seq<Candidate> {
      if blob in blobs then blobs[blob] else []
    }

    ghost predicate Valid() {
      && (forall id :: id in revisions ==> revisions[id].id == id && IsIdentifier(id))
      && (forall blob :: blob in blobs ==> WellFormedCandidates(blobs[blob]))
    }
  }

  ghost predicate WellFormedCandidates(candidates: seq<Candidate>) {
    forall candidate :: candidate in candidates ==> IsIdentifier(candidate.revision) && IsIdentifier(candidate.resource)
  }

  /** Revisions are immutable: later repositories only add to them. */
  ghost predicate Grows(before: Repository, after: Repository) {
    forall id :: id in before.revisions ==> id in after.revisions && after.revisions[id] == before.revisions[id]
  }

  function GroupSet(groups: seq<string>): set<string> {
    set group | group in groups
  }

  ghost predicate WellFormedRequest(groups: seq<string>, blob: string) {
    IsIdentifier(blob) && forall group :: group in groups ==> IsIdentifier(group)
  }

  // ---------------------------------------------------------------- the reply without caches

  /** The follower sees a resource of that id, and it carries the blob. */
  ghost predicate Shows(revision: Revision, groups: set<string>, resource: string, blob: string) {
    && Visible(revision.resources, groups, resource)
    && exists item :: item in revision.resources && item.id == resource && blob in item.blobs
  }

  function FindAuthored(profile: Profile, id: string): Option<Authored> {
    if profile == [] then None else if profile[0].id == id then Some(profile[0]) else FindAuthored(profile[1..], id)
  }

  /** The candidates the follower may be served from. */
  ghost function Usable(source: Source, repository: Repository, groups: set<string>, blob: string,
                        candidates: seq<Candidate>)
    : Result<seq<Candidate>, Failure>
  {
    if candidates == [] then Ok([])
    else
      var candidate := candidates[0];
      if candidate.revision !in repository.revisions then Err(RevisionMissing)
      else
        var revision := repository.revisions[candidate.revision];
        match source.validate(revision)
        case Err(failure) => Err(failure)
        case Ok(profile) =>
          if !Shows(revision, groups, candidate.resource, blob)
          then Usable(source, repository, groups, blob, candidates[1..])
          else if FindAuthored(profile, candidate.resource).None? then Err(NoCanonicalResource)
          else Prepend([candidate], Usable(source, repository, groups, blob, candidates[1..]))
  }

  function Prepend(first: seq<Candidate>, rest: Result<seq<Candidate>, Failure>): Result<seq<Candidate>, Failure> {
    if rest.Ok? then Ok(first + rest.value) else rest
  }

  lemma PrependParts(first: seq<Candidate>, second: seq<Candidate>, rest: Result<seq<Candidate>, Failure>)
    ensures Prepend(first, Prepend(second, rest)) == Prepend(first + second, rest)
    ensures Prepend([], rest) == rest
  {
    if rest.Ok? {
      assert first + (second + rest.value) == first + second + rest.value;
      assert [] + rest.value == rest.value;
    }
  }

  /** The bytes of the first usable entry. */
  ghost function Serve(source: Source, repository: Repository, groups: set<string>, blob: string,
                       entries: seq<Candidate>): Reply {
    if entries == [] then Err(BlobNotFound)
    else
      var entry := entries[0];
      if entry.revision !in repository.revisions then Err(RevisionMissing)
      else
        var revision := repository.revisions[entry.revision];
        match source.validate(revision)
        case Err(failure) => Err(failure)
        case Ok(profile) =>
          if !Shows(revision, groups, entry.resource, blob) then Serve(source, repository, groups, blob, entries[1..])
          else
            match FindAuthored(profile, entry.resource)
            case None => Err(NoCanonicalResource)
            case Some(authored) => if source.digest(authored.spec) != blob then Err(DigestMismatch)
                                   else Ok(authored.spec)
  }

  ghost function Uncached(source: Source, repository: Repository, groups: set<string>, blob: string): Reply {
    match Usable(source, repository, groups, blob, repository.Candidates(blob))
    case Err(failure) => Err(failure)
    case Ok(entries) => Serve(source, repository, groups, blob, entries)
  }

  // ---------------------------------------------------------------- what a reply says

  ghost predicate IsShown(repository: Repository, groups: set<string>, blob: string, candidate: Candidate) {
    candidate.revision in repository.revisions
      && Shows(repository.revisions[candidate.revision], groups, candidate.resource, blob)
  }

  /** The first resource of that id in the profile. */
  ghost predicate IsFirstOfId(profile: Profile, id: string, j: nat) {
    j < |profile| && profile[j].id == id && forall i :: 0 <= i < j ==> profile[i].id != id
  }

  ghost predicate Lacks(profile: Profile, id: string) {
    forall j :: 0 <= j < |profile| ==> profile[j].id != id
  }

  /** The candidate's revision is stored and valid, and has a specification for what it shows. */
  ghost predicate IsSoundCandidate(source: Source, repository: Repository, groups: set<string>, blob: string,
                                   candidate: Candidate)
  {
    && candidate.revision in repository.revisions
    && source.validate(repository.revisions[candidate.revision]).Ok?
    && (IsShown(repository, groups, blob, candidate)
        ==> !Lacks(source.validate(repository.revisions[candidate.revision]).value, candidate.resource))
  }

  ghost predicate AllSound(source: Source, repository: Repository, groups: set<string>, blob: string,
                           candidates: seq<Candidate>)
  {
    forall candidate :: candidate in candidates ==> IsSoundCandidate(source, repository, groups, blob, candidate)
  }

  /** The failure is about this candidate. */
  ghost predicate IsFailureOf(source: Source, repository: Repository, groups: set<string>, blob: string,
                              candidate: Candidate, failure: Failure)
  {
    match failure
    case RevisionMissing => candidate.revision !in repository.revisions
    case RevisionRejected(_) =>
      candidate.revision in repository.revisions
        && source.validate(repository.revisions[candidate.revision]) == Err(failure)
    case NoCanonicalResource =>
      IsShown(repository, groups, blob, candidate)
        && source.validate(repository.revisions[candidate.revision]).Ok?
        && Lacks(source.validate(repository.revisions[candidate.revision]).value, candidate.resource)
    case _ => false
  }

  ghost predicate HasFailure(source: Source, repository: Repository, groups: set<string>, blob: string,
                             candidates: seq<Candidate>, failure: Failure)
  {
    exists candidate ::
      candidate in candidates && IsFailureOf(source, repository, groups, blob, candidate, failure)
  }

  /** The first candidate that shows the blob. */
  ghost predicate IsFirstShown(repository: Repository, groups: set<string>, blob: string, candidates: seq<Candidate>,
                               k: nat)
  {
    && k < |candidates| && IsShown(repository, groups, blob, candidates[k])
    && forall j :: 0 <= j < k ==> !IsShown(repository, groups, blob, candidates[j])
  }

  /** Under the first candidate that shows the blob, the valid profile has this specification. */
  ghost predicate IsFirstSpec(source: Source, repository: Repository, groups: set<string>, blob: string,
                              candidates: seq<Candidate>, spec: string)
  {
    exists k: nat, j: nat ::
      IsFirstShown(repository, groups, blob, candidates, k)
      && source.validate(repository.revisions[candidates[k].revision]).Ok?
      && IsFirstOfId(source.validate(repository.revisions[candidates[k].revision]).value, candidates[k].resource, j)
      && source.validate(repository.revisions[candidates[k].revision]).value[j].spec == spec
  }

  /** What each reply stands for: the bytes are the specification under the first candidate that shows the blob, and
      have its digest; and every failure has its reason. */
  ghost predicate IsRightReply(source: Source, repository: Repository, groups: set<string>, blob: string,
                               candidates: seq<Candidate>, reply: Reply)
  {
    match reply
    case Ok(bytes) =>
      AllSound(source, repository, groups, blob, candidates) && source.digest(bytes) == blob
        && IsFirstSpec(source, repository, groups, blob, candidates, bytes)
    case Err(DigestMismatch) =>
      AllSound(source, repository, groups, blob, candidates)
        && exists spec :: IsFirstSpec(source, repository, groups, blob, candidates, spec)
                          && source.digest(spec) != blob
    case Err(BlobNotFound) =>
      AllSound(source, repository, groups, blob, candidates)
        && forall candidate :: candidate in candidates ==> !IsShown(repository, groups, blob, candidate)
    case Err(failure) => HasFailure(source, repository, groups, blob, candidates, failure)
  }

  ghost function ShownOf(repository: Repository, groups: set<string>, blob: string, candidates: seq<Candidate>)
    : seq<Candidate>
  {
    if candidates == [] then []
    else (if IsShown(repository, groups, blob, candidates[0]) then [candidates[0]] else [])
         + ShownOf(repository, groups, blob, candidates[1..])
  }

  lemma {:induction false} FindAuthoredMeans(profile: Profile, id: string)
    ensures FindAuthored(profile, id).None? <==> Lacks(profile, id)
    ensures FindAuthored(profile, id).Some?
      ==> exists j: nat :: IsFirstOfId(profile, id, j) && profile[j] == FindAuthored(profile, id).value
  {
    if profile != [] {
      FindAuthoredMeans(profile[1..], id);
      if profile[0].id == id {
        assert IsFirstOfId(profile, id, 0);
      } else if FindAuthored(profile[1..], id).Some? {
        var j: nat :| IsFirstOfId(profile[1..], id, j) && profile[1..][j] == FindAuthored(profile, id).value;
        assert IsFirstOfId(profile, id, j + 1) && profile[j + 1] == FindAuthored(profile, id).value;
      } else {
        assert forall k :: 0 < k < |profile| ==> profile[k] == profile[1..][k - 1];
      }
    }
  }

  lemma {:induction false} UsableMeans(source: Source, repository: Repository, groups: set<string>, blob: string,
                                       candidates: seq<Candidate>)
    requires source.Sound()
    ensures var usable := Usable(source, repository, groups, blob, candidates);
      && (usable.Ok? ==> AllSound(source, repository, groups, blob, candidates)
                         && usable.value == ShownOf(repository, groups, blob, candidates))
      && (usable.Err? ==> (usable.error.RevisionMissing? || usable.error.RevisionRejected?
                           || usable.error.NoCanonicalResource?)
                          && HasFailure(source, repository, groups, blob, candidates, usable.error))
  {
    if candidates != [] {
      var candidate := candidates[0];
      assert candidates == [candidate] + candidates[1..] && candidate in candidates;
      if candidate.revision in repository.revisions
        && source.validate(repository.revisions[candidate.revision]).Ok? {
        FindAuthoredMeans(source.validate(repository.revisions[candidate.revision]).value, candidate.resource);
        UsableMeans(source, repository, groups, blob, candidates[1..]);
      } else {
        assert IsFailureOf(source, repository, groups, blob, candidate,
                           Usable(source, repository, groups, blob, candidates).error);
      }
    }
  }

  lemma {:induction false} FirstOfShown(repository: Repository, groups: set<string>, blob: string,
                                        candidates: seq<Candidate>)
    ensures var shown := ShownOf(repository, groups, blob, candidates);
      && (shown == [] ==> forall candidate :: candidate in candidates ==> !IsShown(repository, groups, blob, candidate))
      && (shown != []
          ==> exists k: nat :: IsFirstShown(repository, groups, blob, candidates, k) && candidates[k] == shown[0])
  {
    if candidates != [] {
      FirstOfShown(repository, groups, blob, candidates[1..]);
      assert candidates == [candidates[0]] + candidates[1..];
      if IsShown(repository, groups, blob, candidates[0]) {
        assert IsFirstShown(repository, groups, blob, candidates, 0);
      } else if ShownOf(repository, groups, blob, candidates[1..]) != [] {
        var k: nat :| IsFirstShown(repository, groups, blob, candidates[1..], k)
                      && candidates[1..][k] == ShownOf(repository, groups, blob, candidates)[0];
        assert candidates[k + 1] == candidates[1..][k];
        assert IsFirstShown(repository, groups, blob, candidates, k + 1);
      }
    }
  }

  /** The reply without caches is the right one. */
  lemma UncachedIsRight(source: Source, repository: Repository, groups: set<string>, blob: string)
    requires source.Sound()
    ensures var candidates := if blob in repository.blobs then repository.blobs[blob] else [];
      IsRightReply(source, repository, groups, blob, candidates, Uncached(source, repository, groups, blob))
  {
    var candidates := if blob in repository.blobs then repository.blobs[blob] else [];
    UsableMeans(source, repository, groups, blob, candidates);
    FirstOfShown(repository, groups, blob, candidates);
    var shown := ShownOf(repository, groups, blob, candidates);
    if Usable(source, repository, groups, blob, candidates).Ok? && shown != [] {
      ServedIsFirst(source, repository, groups, blob, candidates);
    }
  }

  lemma ServedIsFirst(source: Source, repository: Repository, groups: set<string>, blob: string,
                      candidates: seq<Candidate>)
    requires AllSound(source, repository, groups, blob, candidates)
    requires ShownOf(repository, groups, blob, candidates) != []
    ensures var reply := Serve(source, repository, groups, blob, ShownOf(repository, groups, blob, candidates));
      exists spec :: IsFirstSpec(source, repository, groups, blob, candidates, spec)
                     && reply == if source.digest(spec) == blob then Ok(spec) else Err(DigestMismatch)
  {
    FirstOfShown(repository, groups, blob, candidates);
    var first := ShownOf(repository, groups, blob, candidates)[0];
    var k: nat :| IsFirstShown(repository, groups, blob, candidates, k) && candidates[k] == first;
    assert first in candidates;
    assert IsSoundCandidate(source, repository, groups, blob, first);
    var profile := source.validate(repository.revisions[first.revision]).value;
    FindAuthoredMeans(profile, first.resource);
    var j: nat :| IsFirstOfId(profile, first.resource, j)
                  && profile[j] == FindAuthored(profile, first.resource).value;
    assert IsFirstSpec(source, repository, groups, blob, candidates, profile[j].spec);
  }

  // ---------------------------------------------------------------- cache keys

  function Scope(groups: seq<string>, blob: string): string {
    Join([blob, Join(Sorting.UniqueSorted(groups), "\0")], "\0")
  }

  function CandidateText(candidate: Candidate): string {
    candidate.revision + "\0" + candidate.resource
  }

  function CandidateTexts(candidates: seq<Candidate>): seq<string> {
    if candidates == [] then [] else [CandidateText(candidates[0])] + CandidateTexts(candidates[1..])
  }

  function Fingerprint(candidates: seq<Candidate>): string {
    Join(CandidateTexts(candidates), "\n")
  }

  /** The revision cache confuses no two revisions. */
  lemma CacheKeyIsInjective(source: Source, one: Revision, other: Revision)
    requires source.Sound() && IsIdentifier(one.id) && IsIdentifier(other.id)
             && source.CacheKey(one) == source.CacheKey(other)
    ensures one == other
  {
    var tail := [source.keyId, source.keyFingerprint];
    var v, v' := source.version(one), source.version(other);
    assert Join([v] + tail, "\0") == v + "\0" + Join(tail, "\0");
    assert Join([v'] + tail, "\0") == v' + "\0" + Join(tail, "\0");
    assert [one.id, v, source.keyId, source.keyFingerprint][1..] == [v] + tail;
    assert [other.id, v', source.keyId, source.keyFingerprint][1..] == [v'] + tail;
    CutAtFirst(one.id, other.id, '\0', Join([v] + tail, "\0"), Join([v'] + tail, "\0"));
    CutAtFirst(v, v', '\0', Join(tail, "\0"), Join(tail, "\0"));
  }

  /** The blob index confuses no two blobs and no two sets of groups, whatever order the groups come in. */
  lemma ScopeIsInjective(groups: seq<string>, blob: string, groups': seq<string>, blob': string)
    requires WellFormedRequest(groups, blob) && WellFormedRequest(groups', blob')
    ensures Scope(groups, blob) == Scope(groups', blob') <==> blob == blob' && GroupSet(groups) == GroupSet(groups')
  {
    var sorted, sorted' := Sorting.UniqueSorted(groups), Sorting.UniqueSorted(groups');
    Sorting.UniqueSortedIsSorted(groups);
    Sorting.UniqueSortedIsSorted(groups');
    Sorting.UniqueSortedOfSameElements(groups, groups');
    ScopeText(groups, blob);
    ScopeText(groups', blob');
    if Scope(groups, blob) == Scope(groups', blob') {
      CutAtFirst(blob, blob', '\0', Join(sorted, "\0"), Join(sorted', "\0"));
      JoinIsInjective(sorted, sorted', '\0');
      assert forall group :: group in groups <==> group in groups';
    }
    if GroupSet(groups) == GroupSet(groups') {
      forall group ensures group in groups <==> group in groups' {
        assert group in groups <==> group in GroupSet(groups);
      }
    }
  }

  lemma ScopeText(groups: seq<string>, blob: string)
    ensures Scope(groups, blob) == blob + "\0" + Join(Sorting.UniqueSorted(groups), "\0")
  {
    var names := Join(Sorting.UniqueSorted(groups), "\0");
    assert [blob, names][1..] == [names] && Join([names], "\0") == names;
  }

  lemma {:induction false} CandidateTextsAreSeparable(candidates: seq<Candidate>)
    requires WellFormedCandidates(candidates)
    ensures Separable(CandidateTexts(candidates), '\n')
  {
    if candidates != [] {
      assert candidates[0] in candidates;
      forall candidate | candidate in candidates[1..] ensures candidate in candidates {}
      CandidateTextsAreSeparable(candidates[1..]);
    }
  }

  lemma {:induction false} CandidateTextsAreInjective(candidates: seq<Candidate>, candidates': seq<Candidate>)
    requires WellFormedCandidates(candidates) && WellFormedCandidates(candidates')
    requires CandidateTexts(candidates) == CandidateTexts(candidates')
    ensures candidates == candidates'
  {
    if candidates != [] && candidates' != [] {
      var one, other := candidates[0], candidates'[0];
      assert one in candidates && other in candidates';
      assert CandidateTexts(candidates)[0] == CandidateText(one)
             && CandidateTexts(candidates')[0] == CandidateText(other);
      CutAtFirst(one.revision, other.revision, '\0', one.resource, other.resource);
      assert CandidateTexts(candidates)[1..] == CandidateTexts(candidates[1..]);
      assert CandidateTexts(candidates')[1..] == CandidateTexts(candidates'[1..]);
      forall candidate | candidate in candidates[1..] ensures candidate in candidates {}
      forall candidate | candidate in candidates'[1..] ensures candidate in candidates' {}
      CandidateTextsAreInjective(candidates[1..], candidates'[1..]);
      assert candidates == [one] + candidates[1..] && candidates' == [other] + candidates'[1..];
    }
  }

  /** The candidate list can be read back from its fingerprint. */
  lemma FingerprintIsInjective(candidates: seq<Candidate>, candidates': seq<Candidate>)
    requires WellFormedCandidates(candidates) && WellFormedCandidates(candidates')
    requires Fingerprint(candidates) == Fingerprint(candidates')
    ensures candidates == candidates'
  {
    CandidateTextsAreSeparable(candidates);
    CandidateTextsAreSeparable(candidates');
    JoinIsInjective(CandidateTexts(candidates), CandidateTexts(candidates'), '\n');
    CandidateTextsAreInjective(candidates, candidates');
  }

  // ---------------------------------------------------------------- the caches in use

  /** One entry of the authorized blob index. */
  datatype IndexEntry = IndexEntry(fingerprint: string, entries: seq<Candidate>)

  /** A cached profile is the one validation gives, for whichever revision has that key. */
  ghost predicate ProfileSound(source: Source, key: string, profile: Profile) {
    forall revision: Revision :: IsIdentifier(revision.id) && source.CacheKey(revision) == key
                                 ==> source.validate(revision) == Ok(profile)
  }

  /** A cached entry list is the usable one, for whichever request has that scope and fingerprint. */
  ghost predicate IndexSound(source: Source, repository: Repository, key: string, entry: IndexEntry) {
    forall groups, blob, candidates ::
      WellFormedRequest(groups, blob) && WellFormedCandidates(candidates)
      && Scope(groups, blob) == key && Fingerprint(candidates) == entry.fingerprint
      ==> Usable(source, repository, GroupSet(groups), blob, candidates) == Ok(entry.entries)
  }

  lemma ProfileIsSound(source: Source, revision: Revision, profile: Profile)
    requires source.Sound() && IsIdentifier(revision.id) && source.validate(revision) == Ok(profile)
    ensures ProfileSound(source, source.CacheKey(revision), profile)
  {
    forall other: Revision | IsIdentifier(other.id) && source.CacheKey(other) == source.CacheKey(revision)
      ensures source.validate(other) == Ok(profile)
    {
      CacheKeyIsInjective(source, other, revision);
    }
  }

  lemma IndexIsSound(source: Source, repository: Repository, groups: seq<string>, blob: string,
                     candidates: seq<Candidate>, entries: seq<Candidate>)
    requires WellFormedRequest(groups, blob) && WellFormedCandidates(candidates)
    requires Usable(source, repository, GroupSet(groups), blob, candidates) == Ok(entries)
    ensures IndexSound(source, repository, Scope(groups, blob), IndexEntry(Fingerprint(candidates), entries))
  {
    forall groups', blob', candidates' |
      WellFormedRequest(groups', blob') && WellFormedCandidates(candidates')
      && Scope(groups', blob') == Scope(groups, blob) && Fingerprint(candidates') == Fingerprint(candidates)
      ensures Usable(source, repository, GroupSet(groups'), blob', candidates') == Ok(entries)
    {
      ScopeIsInjective(groups', blob', groups, blob);
      FingerprintIsInjective(candidates', candidates);
    }
  }

  /** Entries found usable stay usable: revisions are immutable. */
  lemma {:induction false} UsableAsRepositoryGrows(source: Source, before: Repository, after: Repository,
                                                   groups: set<string>, blob: string,
                                                   candidates: seq<Candidate>)
    requires Grows(before, after) && Usable(source, before, groups, blob, candidates).Ok?
    ensures Usable(source, after, groups, blob, candidates) == Usable(source, before, groups, blob, candidates)
  {
    if candidates != [] { UsableAsRepositoryGrows(source, before, after, groups, blob, candidates[1..]); }
  }

  lemma IndexAsRepositoryGrows(source: Source, before: Repository, after: Repository, key: string, entry: IndexEntry)
    requires Grows(before, after) && IndexSound(source, before, key, entry)
    ensures IndexSound(source, after, key, entry)
  {
    forall groups, blob, candidates |
      WellFormedRequest(groups, blob) && WellFormedCandidates(candidates)
      && Scope(groups, blob) == key && Fingerprint(candidates) == entry.fingerprint
      ensures Usable(source, after, GroupSet(groups), blob, candidates) == Ok(entry.entries)
    {
      UsableAsRepositoryGrows(source, before, after, GroupSet(groups), blob, candidates);
    }
  }

  lemma NewestIsAPart<V>(entries: seq<(string, V)>, key: string, value: V, limit: nat)
    ensures forall entry :: entry in Newest(Without(entries, key) + [(key, value)], limit)
                            ==> entry == (key, value) || entry in entries
  {
    WithoutElements(entries, key);
    var whole := Without(entries, key) + [(key, value)];
    forall entry | entry in Newest(whole, limit) ensures entry == (key, value) || entry in entries {
      assert entry in whole;
      if entry in Without(entries, key) { WithoutElement(entries, key, entry); }
    }
  }

  class Enrollment {
    const source: Source
    const validatedRevisions: OrderedMap<Profile>
    const authorizedBlobIndex: OrderedMap<IndexEntry>

    ghost predicate RevisionsValid()
      reads validatedRevisions
    {
      && source.Sound() && validatedRevisions.Valid()
      && |validatedRevisions.entries| <= MAXIMUM_REVISION_VALIDATION_CACHE_ENTRIES
      && forall entry :: entry in validatedRevisions.entries ==> ProfileSound(source, entry.0, entry.1)
    }

    ghost predicate IndexValid(repository: Repository)
      reads authorizedBlobIndex
    {
      && authorizedBlobIndex.Valid()
      && |authorizedBlobIndex.entries| <= MAXIMUM_AUTHORIZED_BLOB_INDEX_ENTRIES
      && forall entry :: entry in authorizedBlobIndex.entries ==> IndexSound(source, repository, entry.0, entry.1)
    }

    ghost predicate Valid(repository: Repository)
      reads validatedRevisions, authorizedBlobIndex
    {
      repository.Valid() && RevisionsValid() && IndexValid(repository)
    }

    constructor (source: Source)
      requires source.Sound()
      ensures this.source == source && RevisionsValid() && forall repository: Repository :: IndexValid(repository)
      ensures validatedRevisions.entries == [] && authorizedBlobIndex.entries == []
      ensures fresh(validatedRevisions) && fresh(authorizedBlobIndex)
    {
      this.source := source;
      var revisions := new OrderedMap<Profile>();
      var index := new OrderedMap<IndexEntry>();
      validatedRevisions := revisions;
      authorizedBlobIndex := index;
    }

    /** Remember a validated profile, or refresh one: the cache stays sound either way. */
    method Remember(revision: Revision, profile: Profile)
      requires RevisionsValid() && IsIdentifier(revision.id) && source.validate(revision) == Ok(profile)
      modifies validatedRevisions
      ensures RevisionsValid()
    {
      var key := source.CacheKey(revision);
      ProfileIsSound(source, revision, profile);
      NewestIsAPart(validatedRevisions.entries, key, profile, MAXIMUM_REVISION_VALIDATION_CACHE_ENTRIES);
      CacheSet(validatedRevisions, key, profile, MAXIMUM_REVISION_VALIDATION_CACHE_ENTRIES);
    }

    method CachedRevision(revision: Revision) returns (profile: Result<Profile, Failure>)
      requires RevisionsValid() && IsIdentifier(revision.id)
      modifies validatedRevisions
      ensures RevisionsValid()
      ensures profile == source.validate(revision)
    {
      var key := source.CacheKey(revision);
      var cached := validatedRevisions.Get(key);
      LookupMeaning(validatedRevisions.entries, key);
      if cached.Some? {
        assert ProfileSound(source, key, cached.value);
        Remember(revision, cached.value);
        return Ok(cached.value);
      }
      profile := source.validate(revision);
      if profile.Ok? { Remember(revision, profile.value); }
    }

    /** Whether the follower sees the blob on that resource, by the projection of the whole revision. */
    method ShowsBlob(revision: Revision, groups: set<string>, resource: string, blob: string) returns (found: bool)
      ensures found == Shows(revision, groups, resource, blob)
    {
      var visible := VisibleResources(revision.resources, groups);
      found := exists item | item in visible :: item.id == resource && blob in item.blobs;
    }

    method UsableEntries(repository: Repository, groups: set<string>, blob: string, candidates: seq<Candidate>)
      returns (result: Result<seq<Candidate>, Failure>)
      requires RevisionsValid() && repository.Valid()
      modifies validatedRevisions
      ensures RevisionsValid()
      ensures result == Usable(source, repository, groups, blob, candidates)
    {
      var next: seq<Candidate> := [];
      PrependParts([], [], Usable(source, repository, groups, blob, candidates));
      assert candidates[0..] == candidates;
      for k := 0 to |candidates|
        invariant RevisionsValid()
        invariant Usable(source, repository, groups, blob, candidates)
                  == Prepend(next, Usable(source, repository, groups, blob, candidates[k..]))
      {
        var candidate := candidates[k];
        assert candidates[k..][0] == candidate && candidates[k..][1..] == candidates[k + 1..];
        if candidate.revision !in repository.revisions { return Err(RevisionMissing); }
        var revision := repository.revisions[candidate.revision];
        var profile := CachedRevision(revision);
        if profile.Err? { return Err(profile.error); }
        var found := ShowsBlob(revision, groups, candidate.resource, blob);
        if found {
          if FindAuthored(profile.value, candidate.resource).None? { return Err(NoCanonicalResource); }
          PrependParts(next, [candidate], Usable(source, repository, groups, blob, candidates[k + 1..]));
          next := next + [candidate];
        }
      }
      assert candidates[|candidates|..] == [] && next + [] == next;
      return Ok(next);
    }

    method ServeFirst(repository: Repository, groups: set<string>, blob: string, entries: seq<Candidate>)
      returns (reply: Reply)
      requires RevisionsValid() && repository.Valid()
      modifies validatedRevisions
      ensures RevisionsValid()
      ensures reply == Serve(source, repository, groups, blob, entries)
    {
      for k := 0 to |entries|
        invariant RevisionsValid()
        invariant Serve(source, repository, groups, blob, entries)
                  == Serve(source, repository, groups, blob, entries[k..])
      {
        var entry := entries[k];
        assert entries[k..][0] == entry && entries[k..][1..] == entries[k + 1..];
        if entry.revision !in repository.revisions { return Err(RevisionMissing); }
        var revision := repository.revisions[entry.revision];
        var profile := CachedRevision(revision);
        if profile.Err? { return Err(profile.error); }
        var found := ShowsBlob(revision, groups, entry.resource, blob);
        if found {
          var authored := FindAuthored(profile.value, entry.resource);
          if authored.None? { return Err(NoCanonicalResource); }
          if source.digest(authored.value.spec) != blob { return Err(DigestMismatch); }
          return Ok(authored.value.spec);
        }
      }
      return Err(BlobNotFound);
    }

    /** The reply is the uncached one, and both caches stay sound and within their bounds. */
    method GetAuthorizedBlob(repository: Repository, groups: seq<string>, blob: string) returns (reply: Reply)
      requires Valid(repository) && WellFormedRequest(groups, blob)
      modifies validatedRevisions, authorizedBlobIndex
      ensures Valid(repository)
      ensures reply == Uncached(source, repository, GroupSet(groups), blob)
      ensures IsRightReply(source, repository, GroupSet(groups), blob,
                           if blob in repository.blobs then repository.blobs[blob] else [], reply)
      ensures |validatedRevisions.entries| <= 1024 && |authorizedBlobIndex.entries| <= 1024
    {
      UncachedIsRight(source, repository, GroupSet(groups), blob);
      var candidates := repository.Candidates(blob);
      var fingerprint, scope := Fingerprint(candidates), Scope(groups, blob);
      var small := |candidates| <= MAXIMUM_CANDIDATES_PER_AUTHORIZED_BLOB_INDEX_ENTRY;
      var cached: Option<IndexEntry> := None;
      if small { cached := authorizedBlobIndex.Get(scope); }
      LookupMeaning(authorizedBlobIndex.entries, scope);
      var entries: seq<Candidate>;
      if cached.Some? && cached.value.fingerprint == fingerprint {
        assert IndexSound(source, repository, scope, cached.value);
        entries := cached.value.entries;
      } else {
        var next := UsableEntries(repository, GroupSet(groups), blob, candidates);
        if next.Err? { return Err(next.error); }
        entries := next.value;
        if small { RememberEntries(repository, groups, blob, candidates, entries); }
      }
      reply := ServeFirst(repository, GroupSet(groups), blob, entries);
    }

    method RememberEntries(repository: Repository, groups: seq<string>, blob: string, candidates: seq<Candidate>,
                           entries: seq<Candidate>)
      requires IndexValid(repository) && WellFormedRequest(groups, blob) && WellFormedCandidates(candidates)
      requires Usable(source, repository, GroupSet(groups), blob, candidates) == Ok(entries)
      modifies authorizedBlobIndex
      ensures IndexValid(repository)
    {
      var entry := IndexEntry(Fingerprint(candidates), entries);
      IndexIsSound(source, repository, groups, blob, candidates, entries);
      NewestIsAPart(authorizedBlobIndex.entries, Scope(groups, blob), entry, MAXIMUM_AUTHORIZED_BLOB_INDEX_ENTRIES);
      CacheSet(authorizedBlobIndex, Scope(groups, blob), entry, MAXIMUM_AUTHORIZED_BLOB_INDEX_ENTRIES);
    }
  }

  // ---------------------------------------------------------------- runs

  /** A request, with the repository as it is when the request arrives. */
  datatype Request = Request(repository: Repository, groups: seq<string>, blob: string)

  ghost function UncachedReply(source: Source, request: Request): Reply {
    Uncached(source, request.repository, GroupSet(request.groups), request.blob)
  }

  ghost predicate IsRightAnswer(source: Source, request: Request, reply: Reply) {
    var blobs := request.repository.blobs;
    IsRightReply(source, request.repository, GroupSet(request.groups), request.blob,
                 if request.blob in blobs then blobs[request.blob] else [], reply)
  }

  ghost predicate IsRun(requests: seq<Request>) {
    && (forall k :: 0 <= k < |requests|
                    ==> requests[k].repository.Valid() && WellFormedRequest(requests[k].groups, requests[k].blob))
    && (forall k :: 0 < k < |requests| ==> Grows(requests[k - 1].repository, requests[k].repository))
  }

  lemma IndexValidAsRepositoryGrows(enrollment: Enrollment, before: Repository, after: Repository)
    requires Grows(before, after) && enrollment.IndexValid(before)
    ensures enrollment.IndexValid(after)
  {
    forall entry | entry in enrollment.authorizedBlobIndex.entries
      ensures IndexSound(enrollment.source, after, entry.0, entry.1)
    {
      IndexAsRepositoryGrows(enrollment.source, before, after, entry.0, entry.1);
    }
  }

  /** Any run of requests against one server, publications in between: every reply is the uncached one. */
  method ServeRun(source: Source, requests: seq<Request>) returns (replies: seq<Reply>)
    requires source.Sound() && IsRun(requests)
    ensures |replies| == |requests|
    ensures forall k :: 0 <= k < |requests| ==> replies[k] == UncachedReply(source, requests[k])
    ensures forall k :: 0 <= k < |requests| ==> IsRightAnswer(source, requests[k], replies[k])
  {
    forall request: Request ensures IsRightAnswer(source, request, UncachedReply(source, request)) {
      UncachedIsRight(source, request.repository, GroupSet(request.groups), request.blob);
    }
    var enrollment := new Enrollment(source);
    ghost var current := Repository(map[], map[]);
    replies := [];
    for k := 0 to |requests|
      invariant |replies| == k && enrollment.source == source && enrollment.Valid(current)
      invariant k < |requests| ==> Grows(current, requests[k].repository)
      invariant fresh(enrollment.validatedRevisions) && fresh(enrollment.authorizedBlobIndex)
      invariant forall j :: 0 <= j < k ==> replies[j] == UncachedReply(source, requests[j])
    {
      IndexValidAsRepositoryGrows(enrollment, current, requests[k].repository);
      current := requests[k].repository;
      var reply := enrollment.GetAuthorizedBlob(requests[k].repository, requests[k].groups, requests[k].blob);
      replies := replies + [reply];
    }
  }
}
