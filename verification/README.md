# Canonfig: verified models of its deterministic core

Canonfig publishes machine profiles from a source machine and synchronizes them to followers. What a follower may
see, what is signed, what is written to disk and what a scheduler runs is decided by a small number of algorithms
over graphs, text and trees. This project models those algorithms in Dafny and proves what the code and its
documentation promise of them, for every input, every run and every failure.

`dafny verify dfyconfig.toml` checks the whole project.

## Layout

| files | what they model |
|---|---|
| `Authorization.dfy` | the follower's projection of a revision: a deletion loop that computes a greatest fixpoint |
| `BlobCache.dfy` | blob requests answered through two bounded caches, over any run |
| `FileTree.dfy`, `HeldMutation.dfy`, `GuardedMutation.dfy` | the guarded filesystem mutation, with any set of steps failing |
| `DependencyGraph.dfy`, `TopologicalOrder.dfy`, `PlanValidation.dfy` | cycle detection, dependency order, plan validation |
| `TargetPaths.dfy`, `PathConflicts.dfy` | normalized target paths and pairwise conflicts of path claims |
| `Sorting.dfy`, `Normalization.dfy`, `UnsettledProfile.dfy` | canonical order and defaults of machine profiles, and a profile that one pass does not settle |
| `ProposalReview.dfy`, `Revisions.dfy`, `Publication.dfy` | reviewed proposals, publishing signed revisions, and the check made before serving them |
| `Serving.dfy` | from a published profile to the bytes a follower gets |
| `CanonicalJson.dfy`, `Jsonc.dfy`, `CanonicalJsonc.dfy` | canonical JSON, comment stripping, and both together |
| `CommandLine.dfy`, `Xml.dfy`, `TaskDefinition.dfy`, `TaskXml.dfy`, `TaskInspection.dfy`, `Texts.dfy` | the Windows scheduler chain from argument vector to XML and back, and how an installed task is recognized |
| `TextComposition.dfy` | the append-local file format |
| `Systemctl.dfy`, `SystemctlParser.dfy`, `SystemctlRestarts.dfy` | the systemctl option grammar, its parser, and what is reported |
| `PipRequirements.dfy` | the bounded walk over included requirement files |
| `FileContent.dfy` | the copy loop under short and failing reads and writes |

Where the source changes state, so does the model: caches, the disk, the revision table, the depth-first searches and
the copy destination are classes whose methods are proved against specification functions, and the properties are
proved of those functions.

## Results that are not what one would expect

- Publication normalizes a profile once for the resource metadata and once more for the canonical bytes. Recipes are
  sorted by keys that hold index URLs as written, and the URLs are canonicalized afterwards, so a second pass can
  reorder them. A newly published revision passes the check made before serving exactly when canonicalizing keeps any
  two of a tool's recipes in the order of their keys (`Revisions.PublishedPassesValidation`), which canonical URLs
  always do (`Normalization.CanonicalUrlsStayOrdered`); otherwise it is refused with a resource metadata mismatch.
  `UnsettledProfile.OnePassIsNotEnough` gives such a profile, `UnsettledProfile.TwoHostsAreRefused` what becomes of it,
  and two passes always suffice (`Normalization.NormalizeThrice`). Authored profile files are normalized when they are
  read, so only tools found by discovery, and callers that publish a profile they did not read from a file, can run into
  this (`Publication.AuthoredFilesPass`).
- A revision that does not pass keeps a blob from everyone: a blob request is answered only when the revisions of all
  its candidates pass (`Serving.RepliesAreExact`).
- The projection function works on ids. It shows authorized resources only exactly when every id that names both an
  authorized and an unauthorized resource is hidden for something it needs
  (`Authorization.ShownResourcesAreAuthorized`); `Authorization.DuplicateIdExposesResource` is an instance where it is
  not. This concerns the function alone: publication and the check before serving refuse profiles with a repeated id
  (src/domain/profile.ts:590-596), and for what they let through only authorized resources are shown
  (`Serving.ServedResourcesAreAuthorized`).
- If the guard's name is already taken, the guarded mutation fails and its clean-up removes what stood there, exactly
  when the managed root is a directory and neither opening nor examining it nor the clean-up itself fails
  (`GuardedMutation.CleansUp`). If the temporary name is taken inside the root, writing a file or link fails and removes
  the entry that stood there, exactly when it gets as far as the clean-up behind the mutation, the entry is no directory
  and unlinking it does not fail (`GuardedMutation.UnlinksTaken`). Both names hold twelve random bytes. Whatever else
  happens, nothing but the target, its new ancestors and a leftover temporary file changes
  (`GuardedMutation.PortableSafeRootMutation`).
- Stripping a stripped JSONC text changes it exactly when two commas stand before a closing bracket with nothing but
  white space and comments between them (`Jsonc.StrippingTwice`, with `,,]` as an instance in
  `Jsonc.OnlyTheLastCommaGoes`).
- `/`, a bare drive and `.` do not cover what is below them; the one path with segments that a bare drive overlaps is
  the relative path whose only segment reads like it (`TargetPaths.RootsCoverNothing`).
- A weekly job without a day is rendered, and the parser refuses what was rendered (`TaskDefinition.ParseUndoesRender`).
- The task XML written for a job is not recognized as the job's if the description starts with a blank, the program has
  outer blanks or quotes, or a weekday is listed twice, and is recognized otherwise (`TaskInspection.JobIsRecognized`).

## Model

| member | source | states |
|---|---|---|
| `Authorization.VisibleResources` | src/enrollment/enrollment.layer.ts:97-123 | the deletion loop terminates and shows, in order, exactly the resources all of whose transitive dependencies are declared and authorized; with distinct ids each of them names no group or one of the follower's |
| `Authorization.AuthorizedMeans` | src/enrollment/enrollment.layer.ts:89-95 | a resource without groups is everyone's, any other exactly that of followers who share a group with it |
| `Authorization.RetainClosed` | src/enrollment/enrollment.layer.ts:101-121 | the ids left by the loop are the visible ones, cycles included |
| `Authorization.VisibleIsGreatest` | src/enrollment/enrollment.layer.ts:97-123 | visibility by reachability is the greatest authorized set closed under dependencies |
| `Authorization.VisibleIsMonotone` | src/enrollment/enrollment.layer.ts:89-123 | more groups never hide a resource |
| `Authorization.DeletionPass` | src/enrollment/enrollment.layer.ts:105-120 | one pass deletes nothing that any dependency-closed set holds, and either shrinks or finds the set closed |
| `Authorization.AuthorizedRevision` | src/enrollment/enrollment.layer.ts:793-832 | the transported copy keeps the projected resources in order, all their dependencies, and of their groups those of the follower, in order |
| `Authorization.TransportKeepsDependencies` | src/enrollment/enrollment.layer.ts:819-824 | the later dependency filter removes nothing |
| `Authorization.TransportIsSelfContained` | src/enrollment/enrollment.layer.ts:793-832 | projecting what was transported again, for the same groups, keeps all of it |
| `Authorization.ShownResourcesAreAuthorized` | src/enrollment/enrollment.layer.ts:89-123 | every shown resource is itself authorized exactly when every id naming both an authorized and an unauthorized resource needs something that is not authorized |
| `Authorization.DistinctIdsAreNotMixed` | src/enrollment/enrollment.layer.ts:89-123 | with distinct ids only authorized resources are shown |
| `BlobCache.CacheSet` | src/enrollment/enrollment.layer.ts:310-323 | the key becomes the newest entry and only the oldest are evicted, down to the bound |
| `BlobCache.CacheKeyIsInjective` | src/enrollment/enrollment.layer.ts:331-337 | validated-revision keys tell revisions apart |
| `BlobCache.ScopeIsInjective` | src/enrollment/enrollment.layer.ts:925-928 | index keys tell the blob and the set of groups apart |
| `BlobCache.FingerprintIsInjective` | src/enrollment/enrollment.layer.ts:922-924 | candidate fingerprints tell candidate lists apart |
| `BlobCache.Enrollment.CachedRevision` | src/enrollment/enrollment.layer.ts:325-356 | the cached answer is the one validation would give, and the cache stays sound and bounded |
| `BlobCache.Enrollment.UsableEntries` | src/enrollment/enrollment.layer.ts:936-971 | the entries found for a blob are those of the cache-free search, in order, with its errors |
| `BlobCache.Enrollment.ServeFirst` | src/enrollment/enrollment.layer.ts:981-1010 | the first usable entry is served as the cache-free search would serve it |
| `BlobCache.Enrollment.GetAuthorizedBlob` | src/enrollment/enrollment.layer.ts:914-1012 | one reply equals the cache-free reply; it is the specification under the first candidate that shows the blob, with the blob's digest, or a failure with its reason; both caches stay sound and within 1024 entries |
| `BlobCache.ServeRun` | src/enrollment/enrollment.layer.ts:914-1012 | over any run of requests, with publications between them and evictions, every reply equals the cache-free one and is right |
| `BlobCache.UncachedIsRight` | src/enrollment/enrollment.layer.ts:936-1010 | without caches: bytes are served only if every candidate's revision is stored, valid and has what it shows, each failure names a candidate or digest that causes it, and nothing is found exactly if nothing is shown |
| `HeldMutation.RemoveManagedLeaf` | src/machine/linux.layer.ts:386-397 | removing a leaf touches nothing else and does not follow what it finds |
| `HeldMutation.PrepareManagedLeafKind` | src/machine/linux.layer.ts:399-412 | a leaf of the wrong kind goes, one of the right kind stays, nothing else changes |
| `HeldMutation.ReachParent` | src/machine/linux.layer.ts:506-525 | the ancestor loop creates missing directories only, and stops where the way is not open |
| `HeldMutation.MutateHeld` | src/machine/linux.layer.ts:506-575 | inside the guard only the target, its temporary file and new ancestors change; success leaves the target with the content, link text and mode asked for, given permissions before a given mode before 0o600; an entry that stood at the temporary name goes exactly when the clean-up can unlink it, and then nothing else changes |
| `GuardedMutation.IsolateAndMutate` | src/machine/linux.layer.ts:485-575 | the root leaves its place exactly when the guard's name is free and none of the steps there fails, and then stands edited inside the guard |
| `GuardedMutation.TheWayBackIsFree` | src/machine/linux.layer.ts:576-585 | after any edit, only an injected failure can stop the move back |
| `GuardedMutation.PortableSafeRootMutation` | src/machine/linux.layer.ts:465-586 | whatever steps fail, the root ends whole in its place, or whole inside the guard exactly when it left and the move back failed; nothing outside changes; what becomes of entries at a taken guard or temporary name is stated exactly; without failures it succeeds exactly when the request can be met |
| `GuardedMutation.FreshNamesAreApart` | src/machine/linux.layer.ts:479-482 | guard and temporary names with different suffixes differ |
| `DependencyGraph.FindCycle` | src/domain/profile.ts:1126-1155 | a returned list is a cycle of edges, and none is returned exactly when the graph is acyclic |
| `DependencyGraph.FindDependencyCycle` | src/domain/profile.ts:1126-1155 | a returned list is a cycle of resources each needing the next, by the last declaration of each id; none is returned exactly when there is no such cycle |
| `DependencyGraph.RankedIsAcyclic` | src/domain/profile.ts:1135-1149 | finished ids, each behind all it names, admit no cycle |
| `TopologicalOrder.TopologicalOrder` | src/domain/profile.ts:1158-1178 | every declared or named id once, even with cycles; dependencies precede dependents unless they lead back; strictly so when the graph is acyclic; an input already in order is kept |
| `TopologicalOrder.AcyclicIsTopological` | src/domain/profile.ts:1157-1178 | without cycles no dependency can lead back, so the order is topological |
| `PlanValidation.FindActionCycle` | src/domain/synchronization.ts:579-605 | a returned list is a cycle of actions each to run before the next; none is returned exactly when there is no such cycle |
| `PlanValidation.ValidateSynchronizationPlan` | src/domain/synchronization.ts:549-577 | the errors are, in order, repeated ids and kind mismatches by action, missing references, and one cycle if there is one; each has its cause in the plan and each cause is reported; there is none exactly for executable plans |
| `TargetPaths.NormalizedTargetPath` | src/domain/profile.ts:829-852 | split at slashes, the normalized path is the written start and segments, case-folded on Windows |
| `TargetPaths.StartIsTold` | src/domain/profile.ts:829-836 | a path starts at a drive if it is a letter and a colon before a slash or the end, at the root if it starts with a slash of either kind, and nowhere otherwise |
| `TargetPaths.SegmentsAreTold` | src/domain/profile.ts:837-844 | its segments are, in order, what stands between slashes behind the drive, but for empty parts and dots |
| `TargetPaths.OverlapIsSegmentPrefix` | src/domain/profile.ts:1012-1015 | on all texts, the string test for overlap is prefix of segment lists |
| `TargetPaths.OverlapOfWritten` | src/domain/profile.ts:1012-1015 | for written paths with a segment, overlap is prefix of their locations |
| `TargetPaths.RootsCoverNothing` | src/domain/profile.ts:1012-1015 | a path without segments overlaps a path with segments exactly when it is a bare drive and the other the relative path that reads like it |
| `TargetPaths.EntryStaysInside` | src/domain/profile.ts:854-893 | an accepted managed path has the target's segments and then its own, strictly below the target |
| `TargetPaths.TargetReasonIsFirst` | src/domain/profile.ts:803-818 | a target is accepted exactly if it is not blank and holds no NUL, no climbing segment and no glob; otherwise the first of these is reported |
| `TargetPaths.EntryReasonIsFirst` | src/domain/profile.ts:854-893 | a managed path is accepted exactly if nothing of the kind is wrong with it, and on Windows with none of its segments (reserved characters, trailing dots and blanks, device names); otherwise the first thing wrong is reported |
| `PathConflicts.CollectClaims` | src/domain/profile.ts:966-980 | the target and entry errors, resource by resource, exactly where a check refuses |
| `PathConflicts.PairIsReported` | src/domain/profile.ts:1016-1064 | one pair of claims adds at most one error, justified by it, and is settled by it; no two resources are reported twice |
| `PathConflicts.ValidateResourcePathConflicts` | src/domain/profile.ts:957-1067 | exactly one conflict for each pair of ids with overlapping claims, lower id first; within an id one for each clashing pair, in order; target and entry errors first |
| `PathConflicts.ConflictsAreAboutResources` | src/domain/profile.ts:957-1067 | with distinct ids, two resources conflict exactly when paths they take overlap, and one with itself exactly when two of its accepted entries do without the one being a declared directory above the other |
| `Sorting.TextLeMeans` | src/domain/profile.ts:1182-1186 | texts are ordered by the first character in which they differ, and a text comes before its extensions |
| `Sorting.SortOfSameElements` | src/domain/profile.ts:1182-1189 | without ties a sorted list depends on its elements only |
| `Sorting.SortIsStable` | src/domain/profile.ts:1196-1338 | what an order does not tell apart stays in the order in which it was |
| `Sorting.UniqueSortedOfSameElements` | src/domain/profile.ts:1188-1189 | sorted sets are equal exactly when the elements are |
| `Normalization.NormalizeIgnoresOrder` | src/domain/profile.ts:1196-1338 | reordering groups, resources, files, directories, keys or recipes with distinct keys, or reordering or repeating dependencies, group references or days, never changes the normalized profile |
| `Normalization.NormalizeKeepsMeaning` | src/domain/profile.ts:1196-1338 | field by field: every authored resource, file, directory, key, group and recipe is there as often as it was, with what was given and, where nothing was, the default policy of its kind, modes 0o700 and 0o600, and disabled build scripts; index URLs are canonicalized where possible; everything listed comes in order |
| `Normalization.KeyTellsRecipe` | src/domain/profile.ts:1266-1271 | recipes are tied exactly on what the key lists: platform, method, package, version, index policy and source |
| `Normalization.NormalizeTwice` | src/domain/profile.ts:1260-1290 | one pass settles a profile exactly when canonicalizing keeps any two of a tool's authored recipes in the order of their keys |
| `Normalization.StayOrderedMeansSorted` | src/domain/profile.ts:1266-1290 | that condition on the authored recipes says that the normalized ones come out in key order |
| `Normalization.CanonicalUrlsStayOrdered` | src/domain/profile.ts:1266-1290 | index URLs written canonically keep every order |
| `Normalization.NormalizeThrice` | src/domain/profile.ts:1260-1338 | two passes always settle a profile |
| `Normalization.NormalizedStaysOrdered` | src/domain/profile.ts:1341-1348 | whatever was authored, a normalized profile has recipes that stay in order |
| `UnsettledProfile.TwoHostsAreNotSettled` | src/domain/profile.ts:1266-1290 | two recipes whose hosts change places are not settled by one pass, whatever else canonicalizing does |
| `UnsettledProfile.OnePassIsNotEnough` | src/domain/recipe-versions.ts:63-88 | an instance with hosts put into lower case |
| `UnsettledProfile.TwoHostsAreRefused` | src/enrollment/enrollment.layer.ts:165-188 | published, that profile fails the check before serving on resource metadata |
| `Revisions.OrderNeverChangesBytes` | src/domain/profile.ts:1357-1372 | the same reorderings never change the canonical bytes, nor then their digest |
| `Revisions.PublishedPassesValidation` | src/enrollment/enrollment.layer.ts:141-208 | a published revision passes the check before serving exactly when one pass of normalization settles its profile, and otherwise fails on resource metadata |
| `Revisions.PassingMeans` | src/enrollment/enrollment.layer.ts:141-208 | a revision passes with a profile exactly when its digest is that of its bytes, these hold that profile without errors and under its id, schedule and metadata are the profile's, and the signature verifies for all of it but the schedule, under the key |
| `Revisions.RefusalNamesItsReason` | src/enrollment/enrollment.layer.ts:141-208 | the check that a refusal names fails |
| `Revisions.PayloadIsInjective` | src/profile/publication.ts:388-398 | what is signed tells everything but the schedule, and the key |
| `Revisions.RevisionIdIsInjective` | src/profile/publication.ts:428-430 | a revision id stands for one profile id and one digest |
| `ProposalReview.UnresolvedReasons` | src/profile/publication.ts:229-273 | the reasons that keep a proposal from publication, each once; none exactly when it is resolved |
| `ProposalReview.OnlyAcceptedIsPublished` | src/profile/publication.ts:314-329 | the findings published are, tools before skills and in order, exactly those accepted as a finding and by the last proposed resource of their id |
| `Publication.ReviewIsOfThisProposal` | src/profile/publication.ts:275-303 | an accepted review is of exactly the proposal that is published |
| `Publication.MachineProfileFor` | src/profile/publication.ts:314-353 | the profile published has the authored id, name, groups and schedule, daily at midnight without one, and of each id one resource, an authored one before an accepted finding, each meaning what it did |
| `Publication.MergedIsLastOfEach` | src/profile/publication.ts:330-338 | the merge holds each id once, an authored resource before a discovered one |
| `Publication.Repository.PublishRevision` | src/state/state-repository.layer.ts:1177-1249 | the table's whole new state: unchanged for a known revision, refused for a taken id or sequence number, else extended by one |
| `Publication.Repository.GetLatestRevision` | src/state/state-repository.layer.ts:1304-1328 | the revision with the greatest sequence number |
| `Publication.Repository.Publish` | src/profile/publication.ts:389-482 | refused with an error that names the reason, answered with what is stored, or stored under the next sequence number; only reviewed and resolved proposals get through; a new revision carries the authored id, groups, schedule and time, the digest of bytes that hold that profile, the chosen resources' metadata, and a signature of all that; sequence numbers stay 1 to k |
| `Publication.StoredIsTheSame` | src/profile/publication.ts:431-444 | a stored id never names different content, so the immutability error cannot arise |
| `Publication.PublishAll` | src/profile/publication.ts:386-482 | over any run, stored revisions never change, every answer is what is stored for its content, and two answers are the same exactly when the contents are |
| `Publication.NewRevisionPassesIfOrdered` | src/profile/publication.ts:389-482 | publication and the check before serving, together |
| `Publication.AuthoredFilesPass` | src/runtime/layers.ts:160-180 | with an authored profile as read from a file, a publication passes the check before serving exactly when the recipes of the discovered tools it publishes stay in order |
| `Serving.MetadataIsExpected` | src/enrollment/enrollment.layer.ts:165-188 | a revision that passes has exactly the metadata of its profile |
| `Serving.ServedResourcesAreAuthorized` | src/enrollment/enrollment.layer.ts:97-123 | of a revision that passes, only authorized resources are shown |
| `Serving.RepliesAreExact` | src/enrollment/enrollment.layer.ts:914-1010 | no reply says that metadata and profile do not fit; a blob is served exactly when the revisions of all its candidates pass and one shows it, and then with the digest asked for |
| `Serving.FollowerGetsTheSpec` | src/enrollment/enrollment.layer.ts:914-1010 | a follower who sees a resource of a published, settled profile gets exactly the canonical bytes of its specification |
| `CanonicalJson.ParseUndoesEncode` | src/profile/profile-codec.ts:6-22 | a parser for the grammar of sections 4 to 7 of RFC 8259 reads every canonical encoding back |
| `CanonicalJson.EncodeIsInjective` | src/profile/profile-codec.ts:6-22 | equal encodings mean equal values |
| `CanonicalJson.SortedKeysAreStrict` | src/profile/profile-codec.ts:19-21 | members are written in strict key order, each key once |
| `CanonicalJson.EscapesAreShort` | src/profile/profile-codec.ts:12 | escapes are as short as the grammar allows and nothing else is escaped |
| `CanonicalJson.NumberIsTold` | src/profile/profile-codec.ts:13-16 | the number tokens are exactly those of section 6 of RFC 8259 |
| `Jsonc.StripComments` | src/profile/profile-codec.ts:97-146 | the first loop is the lexical blanking of comments, or the error for an unterminated one |
| `Jsonc.BlockEndsAtFirst` | src/profile/profile-codec.ts:97-146 | a block comment ends behind the first star and slash, and an unterminated one is one without them |
| `Jsonc.LineEndsAtFeed` | src/profile/profile-codec.ts:97-146 | a line comment ends before the first line feed |
| `Jsonc.LexIsFaithful` | src/profile/profile-codec.ts:97-146 | the tokens are the text, nothing more and nothing less |
| `Jsonc.RemoveTrailingCommas` | src/profile/profile-codec.ts:149-180 | the second loop drops exactly the commas before a closing bracket |
| `Jsonc.StripJsonc` | src/profile/profile-codec.ts:97-180 | both loops together |
| `Jsonc.StrippingKeepsLiterals` | src/profile/profile-codec.ts:97-180 | string literals come through byte for byte, no comment is left, and both loops agree on where literals are |
| `Jsonc.StrippingTwice` | src/profile/profile-codec.ts:171-176 | stripping twice is stripping once exactly when no comma before a closing bracket has another comma just before it |
| `CanonicalJsonc.StrippingKeepsCanonical` | src/profile/profile-codec.ts:6-22 | stripping leaves every canonical encoding unchanged; it holds no comment, and no white space outside its strings |
| `CommandLine.WindowsCommandLineArgument` | src/machine/windows.layer.ts:272-290 | the quoting loop equals the specified quoting |
| `CommandLine.QuotedIfNeeded` | src/machine/windows.layer.ts:272-274 | quotes are put around exactly the arguments that are empty or hold a blank or a quote |
| `CommandLine.SplitUndoesJoin` | src/machine/windows.layer.ts:272-290 | splitting by the documented C command-line rules gives back every argument vector |
| `Xml.DecodeUndoesEscape` | src/machine/windows.layer.ts:400-414 | five unescaping passes undo five escaping passes |
| `Xml.EscapedCharIsTold` | src/machine/windows.layer.ts:400-406 | the escapes are the five predefined entities of XML |
| `Xml.EscapedValueIsTrimmed` | src/machine/windows.layer.ts:416-420 | trimming escaped text and unescaping trims the text |
| `Texts.SpacesAreTold` | src/machine/windows.layer.ts:416-420 | trimming removes the white space and line ends of ECMAScript |
| `TaskDefinition.LiteralSurvives` | src/machine/windows.layer.ts:208-209 | a PowerShell literal decodes to its value |
| `TaskDefinition.ParseUndoesRender` | src/machine/windows.layer.ts:313-398 | parsing the rendered registration finds description, program, command line and calendar of every job, and refuses exactly a weekly job without a day |
| `TaskXml.DayNamesAgree` | src/machine/windows.layer.ts:247-255 | the day names in the XML are the English ones the short names stand for |
| `TaskXml.DefinitionInXml` | src/machine/windows.layer.ts:416-454 | the elements extracted from the XML are the definition's, trimmed |
| `TaskXml.JobReachesScheduler` | src/machine/windows.layer.ts:272-454 | end to end, the argument vector of every job but one without a day survives quoting, literals, parsing and XML |
| `TaskInspection.WeekShowsItsDays` | src/machine/windows.layer.ts:257-270 | the weekdays matched in a weekly schedule's own text are the schedule's, in order, each once for each time it is listed |
| `TaskInspection.DayEndsAreTold` | src/machine/windows.layer.ts:261-263 | a day's element may be closed at once and may have a blank or attributes |
| `TaskInspection.ScheduleIsRecognized` | src/machine/windows.layer.ts:1177-1187 | a written trigger matches exactly when it recurs every day, or every week on the wanted days with none repeated, and never one of the other kind |
| `TaskInspection.TaskIsRecognized` | src/machine/windows.layer.ts:1174-1199 | a task written from one definition is found to be as another wants it exactly when description, program and arguments agree but for outer blanks and quotes around the program, the time is the same, the trigger is enabled, and it recurs every day, or every week on the same days with none repeated |
| `TaskInspection.UnquotedMeans` | src/machine/windows.layer.ts:1176 | quotes go where they stand around the whole of one line, and nothing else goes |
| `TaskInspection.OwnTaskIsRecognized` | src/machine/windows.layer.ts:1174-1199 | a task just written matches its definition exactly when no text loses outer blanks or quotes and no day is listed twice |
| `TaskInspection.JobIsRecognized` | src/machine/windows.layer.ts:1164-1201 | end to end, the task XML of a job is found to be as wanted exactly when its description starts with no blank, its program has no outer blanks or quotes and no day is listed twice |
| `TextComposition.ParseUndoesLayout` | src/domain/text-composition.ts:35-68 | a composed file is read back exactly when neither text holds a marker or a NUL |
| `TextComposition.ManagedIsLayout` | src/domain/text-composition.ts:35-68 | managed files are exactly the layouts of clean texts, and composing after parsing is the identity |
| `TextComposition.RunKeepsBoth` | src/domain/text-composition.ts:20-68 | over any run of source updates and local edits the file holds the latest of both |
| `TextComposition.FirstWriteKeepsTheFile` | src/domain/text-composition.ts:57-68 | first adoption keeps a differing file as local text |
| `TextComposition.UpdateTwice` | src/domain/text-composition.ts:35-68 | an update is refused exactly for a damaged file, and repeating it changes nothing |
| `SystemctlParser.ParseSystemctlArguments` | src/agent/agent-resolution.service.ts:2366-2433 | the parser's result is the meaning of the one reading of the arguments, or invalid if there is none |
| `Systemctl.ReadingIsUnique` | src/agent/agent-resolution.service.ts:2366-2433 | arguments have a reading exactly when they are accepted, and then one only: each argument has one role |
| `SystemctlParser.ParseUndoesWritten` | src/agent/agent-resolution.service.ts:2366-2433 | any known options, values and positionals, written out, are recovered in order |
| `SystemctlParser.OptionsAreNamed` | src/agent/agent-resolution.service.ts:2390-2431 | the options found are exactly those that some argument is or clusters, long ones in lower case |
| `SystemctlParser.WordsAreAllPositionals` | src/agent/agent-resolution.service.ts:2369-2388 | the words found are exactly the positionals, each at its place |
| `Systemctl.SystemctlOptionsAreATable` | src/agent/agent-resolution.service.ts:2233-2300 | the option table satisfies what the theorems ask of it |
| `Systemctl.OptionsAreListed` | src/agent/agent-resolution.service.ts:2233-2300 | the options known are exactly those listed, and take a value exactly as listed |
| `SystemctlRestarts.LeadingPowerVerbIsReported` | src/agent/agent-resolution.service.ts:2513-2524 | a power-state verb is reported whatever options precede it and whatever follows |
| `SystemctlRestarts.PowerVerbBehindEndIsReported` | src/agent/agent-resolution.service.ts:2375-2382 | so is one behind `--` |
| `SystemctlRestarts.PowerTargetIsReported` | src/agent/agent-resolution.service.ts:2524-2538 | so are unit operations on a power-state unit, wherever it stands |
| `SystemctlRestarts.PositionalsAreInPlace` | src/agent/agent-resolution.service.ts:2369-2388 | every positional stands where it is said to, in order |
| `SystemctlRestarts.OptionValuesAreNoCommands` | src/agent/agent-resolution.service.ts:2390-2431 | option values are never taken for commands |
| `SystemctlRestarts.CapabilitiesAreExact` | src/agent/agent-resolution.service.ts:2513-2540 | for every command line: what cannot be read asks for both; a reboot is asked for exactly by a power verb, or by starting, or enabling with `--now`, a power-state unit; a restart exactly by `restart` otherwise |
| `PipRequirements.Walk.VisitFile` | src/agent/agent-resolution.service.ts:1475-1602 | a visit succeeds exactly when the file's include tree exists and keeps every bound; it adds the tree's files in preorder and restores the stack |
| `PipRequirements.ValidatePipRequirements` | src/agent/agent-resolution.service.ts:1427-1604 | the same for all files named: at most 64 files and 1 MiB in all are authorized, each with the canonical path and digest of what was read |
| `PipRequirements.ForestIsUnique` | src/agent/agent-resolution.service.ts:1475-1602 | files unfold to one include forest only |
| `PipRequirements.CyclesFail` | src/agent/agent-resolution.service.ts:1496-1502 | any reachable include cycle, by canonical paths, makes the walk fail |
| `PipRequirements.DeepPathsFail` | src/agent/agent-resolution.service.ts:1475-1495 | files included more than eight levels down make the walk fail |
| `FileContent.Destination.WriteFileContent` | src/machine/file-content.ts:27-77 | on success the destination holds exactly what was read, as long as the file was at opening, with the expected digest: the content that digest was made of, whatever the file did; whatever call fails, only a part of what was read is added; when writes progress, success is exact |
| `FileContent.Destination.CopyAll` | src/machine/file-content.ts:48-64 | the copy loop terminates under every schedule of short and failing reads and writes, and adds only what was read |
| `FileContent.StableFileIsCopied` | src/machine/file-content.ts:47-74 | a file that stays as it is is copied whole, however its reads are cut |

## Left out

- The synchronization planner, run orchestration and harness compiler, and the SQLite repository but for the revision
  table's insert and lookups: publication and blob lookup use plain maps.
- The two-phase enrollment protocol, TLS, HTTPS, credential stores and process spawning: I/O and foreign calls.
- SHA-256 and Ed25519: digests are abstract functions that tell texts apart, signatures an abstract sign and verify.
- Effect Schema decoding, URL parsing and `path.basename`: parameters with the laws stated where they are used.
- UTF-8, lone surrogates, Unicode NFC and letter case outside ASCII: texts are sequences of Unicode characters, and
  characters beyond U+FFFF sort by code point.
- Numbers in JSON are tokens of the RFC 8259 grammar, so `-0` and rounding are not modelled.
- Publication.MachineProfileFor: turning discovered tools and skills into resources is not modelled; a finding carries
  its resource.
- `isWithin` and the checks of `safeRemove` around the guarded mutation, and the descriptor-based strategy: the portable
  strategy is modelled from its first step on, over paths as lists of names.
- GuardedMutation.PortableSafeRootMutation: does not model other processes changing the tree meanwhile, inode identity,
  the umask, or moving a file source beneath the root (`relocateFileContent`); its failures are its own steps'.
- Authorization.AuthorizedRevision: authentication of the follower and listing of revisions come before it.
- BlobCache.Enrollment.GetAuthorizedBlob: the signing key is fixed for the run and revisions, once stored, stay.
- CommandLine.SplitUndoesJoin: the rule that two quotes inside a quoted part stand for one is not modelled, since
  quoting never writes two in a row there.
- PathConflicts.ValidateResourcePathConflicts: the order among conflicts of different resources is not stated.
- PipRequirements.ValidatePipRequirements: finding and normalizing the file options among the arguments comes before it.
- Serving.FollowerGetsTheSpec: that profiles with a repeated id have errors is a parameter, as the rest of validation
  is.
- Normalization.NormalizeIgnoresOrder: entries with equal keys keep the order in which they were written.
- FileContent.Destination.WriteFileContent: opening and closing handles is not modelled but for its outcome.
- TaskInspection.OwnTaskIsRecognized: decoding the scheduler's output, what the scheduler itself adds to or rewrites in
  the XML, and whether the task is enabled, are not modelled.
- The wrapper commands (`sudo`, `cmd` and others) and service managers other than systemctl: single-branch facts.
- What a requirement line says, and which paths and origins are allowed: parameters of the walk.
- The failure taxonomy, doctor probes, command log, CLI and website: tables and plumbing.
