# ScreenGoblin: a verified model of its hard parts

ScreenGoblin's API decides what signage screens play and which devices may speak for them. This
project models the parts of it whose correctness rests on reasoning across many operations, and
proves what they are for:

* **Releases** (`Releases`, `ReleaseStore`, `ReleaseInvariants`, `ReleaseDecisions`,
  `ReleaseCreation`, `ReleasePreparation`, `ReleaseRuns`, `Publication`, `OnAirContent`,
  `ReleaseDelivery`, `ReplayReconstruction`, `Backlog`, `Canonical`). Candidates go from draft
  through review and four-eyes approval to publication. Calls are idempotent under client keys,
  expired candidates are collected, schedules are withdrawn, and two readers decide what is on air.
* **Devices** (`Devices`, `DeviceStore`, `DeviceInvariants`, `DeviceSteps`, `DeviceOutcomes`,
  `DeviceEffects`, `DeviceDecisions`, `DeviceProofs`, `DeviceRuns`, `DeviceSafety`, `DeviceIssues`,
  `DeviceOrigins`, `DeviceAuthentication`). Pairing grants, proof attempts, credentials,
  generations, burnt keys and one-use challenges, as a protocol whose requests are suspended at
  their awaits.
* **Identity** (`Identity`, `IdentityEpochs`, `IdentityDecisions`, `IdentityRuns`, `IdentityStore`).
  Password, role, disablement and removal move epochs, and everything derived from a user is bound
  to them.
* **Schedules** (`Schedules`). Wall-clock minutes in time zones: sampling, exact search, binary
  search for a gap, and the memo table.
* **Small exact algorithms**: canonical JSON (`CanonicalJson`, `JsonNumbers`, `JsonReader`,
  `JsonForm`), strict DER (`EcdsaDer`), scoped authorization (`ScopedAuthorization`,
  `ScopedDecisions`), audit metadata (`AuditMetadata`, `AuditTrees`), the fixed-window rate limiter
  (`RateLimit`) and the exact-length stream filter (`ExactLength`).

`Common` holds optional values and sorting, `Batches` the filter, sort, slice idiom of the
maintenance routines, `Authority` who may act, and `Utf16` texts, their quoting in JSON and their
length in UTF-8.

## How to read it

Objects that the code updates in place are classes (`ReleaseStore.MemoryStore`,
`DeviceStore.MemoryStore`, `IdentityStore.MemoryStore`, `Schedules.WallMinutes`,
`AuditMetadata.Validator`, `RateLimit.MemoryRateLimitBudget`, `ExactLength.ExactByteLength`). A
method that changes a store requires and keeps its invariant, `Valid`, states its whole new state
through a function of the old one, and says what its outcome means for a caller: what asking again
would yield, what can no longer happen, what stays untouched. Their inner loops, as methods of their
own, are held to what they compute. The lemmas are about those functions: invariants of one step,
then whole runs. The modules named for decisions, effects and proofs say of each operation, in terms
of the stored fields alone, when it takes effect, which refusal comes when it does not, and the
whole store afterwards; the methods promise the same. A run is a list of events; `StateAt` and `At`
give the state after the first `i` of them, so that a property of a run can name the events it
speaks of.

Time is an integer clock that is part of each event and never goes back, and one request reads it
once. Ids are fresh numbers. A digest is the canonical value it is computed from, so equal digests
mean equal contents. Signature checks, media policy and the weekly window are arbitrary parameters.
A request that awaits is two events, and anything may come in between; the second may even be
repeated.

## Where the code and its words differ

* `apps/api/src/utils/schedule.ts:77-83` promises that a schedule does not reactivate when clocks go
  back. It can, when they go back across midnight and the daily bound on that side is not set:
  `Schedules.ReactivationExample`. `Schedules.PlaysOnceUnlessReopened` gives the exact condition.
* A login suspended at its user lookup goes on with the row it read, so it creates a session after
  the password was rotated (`IdentityRuns.StaleLoginExample`). That session never authenticates
  (`IdentityRuns.LoginOutlivedByMutation`, `IdentityRuns.OutdatedNeverAuthenticates`).
* A challenge can be issued for a credential that was revoked while the request was suspended
  (`DeviceIssues.LateChallengeExample`); `DeviceIssues.IssueIsSoundExactly` says exactly when the
  credential can still authenticate at that moment. Such a challenge never authenticates
  (`DeviceSafety.NeverAfterRevocation`).

## Model

| member | source | states |
|---|---|---|
| ReleaseRuns.ExactlyOnce | apps/api/src/store/memory.ts:2850-2922 | over any run on a clock that never goes back, no two calls under one (organization, operation, key) both take effect |
| ReleaseRuns.LaterCallsReplay | apps/api/src/store/memory.ts:2850-2901 | the complete answer to a later call under a used key: the first response, word for word, for thirty days; refused as reused for another actor or request, as expired afterwards, as forbidden without the capability |
| ReleaseRuns.NothingIsThrown | apps/api/src/store/memory.ts:2879-2896 | no call of any run reaches the "references are invalid" error |
| ReleaseInvariants.ReferencesAreValid | apps/api/src/store/memory.ts:2872-2896 | while a record is unexpired its candidate is still stored and satisfies every check of the replay |
| ReleaseInvariants.ReplayNeverThrows | apps/api/src/store/memory.ts:2850-2901 | in a sound store no replay throws, whatever the key |
| ReleaseInvariants.CollectedKeepsInv | apps/api/src/store/memory.ts:2996-3038 | collecting candidates a retention period after their expiry keeps the invariant: no release in use and no candidate of an unexpired record is lost |
| ReleaseInvariants.CollectedKeepsSupport | apps/api/src/store/memory.ts:2994-3019 | a candidate that an unexpired record refers to survives collection |
| ReleaseInvariants.CompactKeeps | apps/api/src/store/memory.ts:165-176 | compaction drops responses of expired records only, whichever hundred it takes |
| ReleaseInvariants.RememberKeeps | apps/api/src/store/memory.ts:2903-2922 | a response recorded before its candidate expires stays supported for its thirty days |
| ReleaseInvariants.RecordedAnswer | apps/api/src/store/memory.ts:2850-2902 | the one record of a key answers it: refused for another actor or request, refused after expiry, and otherwise its response, which is there as long as the record is unexpired |
| ReleaseInvariants.CompactKeepsAnswers | apps/api/src/store/memory.ts:152-177 | compaction changes the answer of no key |
| ReleaseInvariants.PublishableExactly | apps/api/src/store/memory.ts:3350-3397 | in a sound store a publication passes its checks exactly when the caller names the digest, the candidate is approved and unexpired, its approver is still current, and policy and screens allow it: the checks of stored digests and of the release never fail |
| ReleaseInvariants.PublicationOpensHistory | apps/api/src/store/memory.ts:3399-3446 | the assignment a publication makes is the whole history of its schedule and has the release, schedule and screens of the published candidate |
| Batches.Batch | apps/api/src/store/memory.ts:152-176 | the filter, sort, slice idiom of the maintenance routines: exactly the eligible records with fewer than the batch size of eligible ones before them |
| Batches.RankIsPlace | apps/api/src/store/memory.ts:157-163 | in the sorted list of the eligible records, as many come before a record as stand in front of it |
| Batches.FewAreFirst | apps/api/src/store/memory.ts:152-176 | whatever has fewer than the batch size of eligible records ahead of it is the first ones in order: no more than the batch, all of them if they are fewer, and none of the rest before any of these |
| ReleaseInvariants.CreateKeepsInv | apps/api/src/store/memory.ts:2965-3186 | creating keeps the invariant: ids unique, digests valid, releases present, records supported, histories well shaped |
| ReleaseInvariants.TransitionKeepsInv | apps/api/src/store/memory.ts:3219-3313 | submitting and approving keep the invariant |
| ReleaseInvariants.PublishKeepsInv | apps/api/src/store/memory.ts:3314-3489 | publishing keeps the invariant: the new assignment has a valid digest and opens the history of a new schedule |
| ReleaseInvariants.WithdrawKeepsInv | apps/api/src/store/memory.ts:3751-3822 | withdrawing keeps the invariant: it follows the one assignment of its schedule and repeats what it withdraws |
| ReleaseInvariants.StepKeepsSupport | apps/api/src/store/prisma.ts:999-1023 | whatever could be read back from a candidate by erasing later fields can be read back after its next step |
| ReleaseRuns.ReachableIsSound | apps/api/src/store/memory.ts:2850-3489 | the invariant holds in every store reached by any run of requests, identity mutations and catalog edits |
| Publication.PublicationIsFresh | apps/api/src/store/memory.ts:3262-3366 | every published candidate was created by its author as asked for, submitted by its author, then approved by an owner or admin other than the author under exactly its digest, then published; no password rotation, disablement, role change or removal touched the approver between approval and publication |
| OnAirContent.OnAirMeansApproved | apps/api/src/store/memory.ts:3834-3863 | whatever a screen shows in any reachable store, its items, schedule and screens are those of a published candidate whose digest covers them all and was created and submitted by its author, approved by an owner or admin other than the author, and then published, with nothing touching the approver in between |
| OnAirContent.AssignmentsAreBacked | apps/api/src/store/memory.ts:3399-3446 | in every reachable store each assignment was made by the publication of a candidate with the same release, schedule and screens |
| OnAirContent.PublishedStays | apps/api/src/store/memory.ts:2996-3019 | a published candidate is never changed or collected |
| Publication.CandidatesHaveProvenance | apps/api/src/store/memory.ts:3262-3286 | every candidate, drafts included, was created by a call of its author for that playlist, schedule, screens and expiry, and reached its stage through the submit, approve and publish calls that belong to it, in that order |
| Publication.EpochsOverRun | apps/api/src/store/memory.ts:487-512 | over a run of release requests, an identity mutation that touches a user leaves every epoch read before it outdated |
| ReleasePreparation.PreparedExactly | apps/api/src/store/memory.ts:3039-3101 | a create passes its checks exactly when the screens asked for are one to a thousand distinct ones that are stored, fewer than 100 open and fewer than 1000 unpublished candidates are, and the playlist is stored with every asset of its items, which pass the policy and have positions of their own |
| ReleasePreparation.AssetsAreStored | apps/api/src/store/memory.ts:3070-3076 | the policy is asked about exactly the stored assets of the playlist's items |
| ReleaseDelivery.DeliveryAgreesWithPlayback | apps/api/src/store/memory.ts:3834-3905 | a media request is authorized exactly when the screen is playing the named assignment under the named digest with a matching unexpired item of a safe positive size |
| ReleaseDelivery.ActiveMeansPlaying | apps/api/src/store/memory.ts:3834-3863 | what the schedule-first reader yields, said from the assignment: it is the last of its schedule, on air for the screen, with the release it names and a valid digest |
| ReleaseDelivery.WithdrawnForGood | apps/api/src/store/memory.ts:3774-3822 | after a successful withdrawal neither reader yields an assignment of that schedule at any later point of any run |
| ReleaseDelivery.HistoriesKeepTheirShape | apps/api/src/store/memory.ts:3399-3478 | in every reachable store a schedule's history is one assignment, or that assignment and one withdrawal pointing back to it |
| ReplayReconstruction.ResponsesCanBeReconstructed | apps/api/src/store/prisma.ts:985-1044 | after any further transitions, erasing the later fields of the live candidate reproduces the recorded response, so the deep comparison passes until the record expires |
| ReplayReconstruction.VerifiedReleaseCandidateReplay | apps/api/src/store/prisma.ts:950-1044 | the database replay returns the stored response when the live candidate confirms it, and nothing otherwise |
| ReplayReconstruction.LiveRecordsAreConfirmed | apps/api/src/store/prisma.ts:985-1044 | in a sound store the live candidate confirms the response of every unexpired record |
| Backlog.BacklogStaysBounded | apps/api/src/store/memory.ts:3041-3056 | in every reachable store an organization has at most 100 open unexpired candidates and at most 1000 unpublished ones |
| ReleaseStore.MemoryStore.CreateReleaseCandidate | apps/api/src/store/memory.ts:2965-3186 | creating: each refusal in its place, the collection, and exactly when nothing is in the way the caller's own draft; it never throws, keeps the invariant, and a completed create is answered with the same candidate when the call is repeated |
| ReleaseStore.MemoryStore.CollectExpiredCandidates | apps/api/src/store/memory.ts:2996-3038 | the filter, sort, slice and the two filters of the collection: what goes is exactly the first twenty unpublished candidates a retention period past their expiry, with the releases they alone referred to; every unexpired record keeps its candidate |
| ReleaseStore.MemoryStore.PrepareRelease | apps/api/src/store/memory.ts:3039-3101 | every answer of the checks: one to a thousand distinct screens that exist, both backlog limits, the playlist, its assets, policy and freezing; it goes on with the distinct screens in order and the playlist frozen as stored |
| ReleaseStore.MemoryStore.CommitCandidate | apps/api/src/store/memory.ts:3102-3185 | the candidate added is the caller's own draft, made now, of the playlist, items, schedule, screens and expiry asked for, on the first release of that content or a new one; nothing else changes, and the call is answered with it from then on |
| ReleaseStore.MemoryStore.TransitionReleaseCandidate | apps/api/src/store/memory.ts:3219-3313 | submit and approve, every answer with the store after it: a submission takes effect for the author of an open draft, an approval for another owner or admin on a candidate in review; a completed one is answered in the same way when repeated |
| ReleaseStore.MemoryStore.CheckPublication | apps/api/src/store/memory.ts:3350-3397 | the first thing in the way of a stored candidate, in source order, and none exactly when the digest is named, it is approved, unexpired, its approver's row as it was, and policy and screens allow it |
| ReleaseStore.MemoryStore.CommitPublication | apps/api/src/store/memory.ts:3399-3488 | the new schedule's whole history is one assignment that the published candidate backs, and nothing but the candidate, the schedule, the assignment and the record changes; the call is answered with the published form from then on |
| ReleaseStore.MemoryStore.PublishReleaseCandidate | apps/api/src/store/memory.ts:3314-3489 | publishing as a whole, every answer with the store after it: it never throws, and a completed one is answered in the same way when repeated |
| ReleaseStore.MemoryStore.WithdrawSchedule | apps/api/src/store/memory.ts:3751-3822 | every answer with the store after it: a withdrawal that points back to the last assignment, after which the schedule counts as withdrawn |
| ReleaseStore.MemoryStore.LatestAssignment | apps/api/src/store/memory.ts:3824-3833 | the backward search finds an assignment of the schedule with none of it behind, or there is none |
| ReleaseStore.MemoryStore.PlayingNow | apps/api/src/store/memory.ts:3841-3862 | a pair is played exactly when the assignment is the last of the schedule and on air and the release it names is stored with a valid digest |
| ReleaseStore.MemoryStore.ActiveOrdinaryReleases | apps/api/src/store/memory.ts:3834-3863 | exactly what the last assignments of the stored schedules show on the screen, each with its release |
| ReleaseStore.MemoryStore.AuthorizeMediaDelivery | apps/api/src/store/memory.ts:3864-3905 | authorizes exactly a safe positive size of an unexpired item that the screen is shown under the named assignment |
| ReleaseStore.MemoryStore.ReleaseCandidateReplay | apps/api/src/store/memory.ts:2850-2902 | no answer exactly when no record has the key; else the answer of that record, which is never a throw and never lacks its response while it is unexpired |
| ReleaseStore.MemoryStore.RememberReleaseCandidate | apps/api/src/store/memory.ts:2903-2922 | keeps the records sound, and the same call is answered with the recorded response for thirty days in whatever sound store |
| ReleaseStore.MemoryStore.CompactExpiredIdempotencyResponses | apps/api/src/store/memory.ts:152-177 | the filter, sort, slice and the loop: exactly the first hundred expired records that hold a response lose it; the answer of every key is unchanged |
| ReleaseDecisions.KeyDecides | apps/api/src/store/memory.ts:2850-2902 | a key is answered exactly when a record has it; its answer is that record's: reused for another actor or request, expired, or the response it holds |
| ReleaseDecisions.CompactIsCompacted | apps/api/src/store/memory.ts:152-177 | exactly the first hundred expired records that still hold a response, by expiry and key, lose it |
| ReleaseDecisions.SubmitDecides | apps/api/src/store/memory.ts:3187-3313 | every answer to a submission and the store after it; in particular it takes effect exactly when the caller may submit, the key is new, and a stored candidate of the organization has the id, the digest named, time left, the stage of a draft and the caller as its author |
| ReleaseDecisions.ApproveDecides | apps/api/src/store/memory.ts:3203-3313 | every answer to an approval and the store after it; it takes effect exactly when an owner or admin under a new key names a stored candidate in review by its digest, with time left, and did not write it; the approval holds the approver's epochs as they are then |
| ReleaseDecisions.BarIsRefusal | apps/api/src/store/memory.ts:3350-3397 | the first thing in the way of a publication, said of the stored candidate alone: digest, stage, expiry, the approver's row, policy on the stored assets, screens |
| ReleaseDecisions.PublishDecides | apps/api/src/store/memory.ts:3314-3489 | every answer to a publication and the store after it; it takes effect exactly when the caller may publish, the key is new and nothing is in the way of a stored candidate with the id |
| ReleaseDecisions.WithdrawDecides | apps/api/src/store/memory.ts:3751-3822 | every answer to a withdrawal and the store after it: the last assignment of a stored schedule, unless it is a withdrawal already, is followed by one that repeats it and points back |
| ReleaseDecisions.LatestIsLastFor | apps/api/src/store/memory.ts:3824-3833 | the backward search yields the assignment of the schedule with none of that schedule behind it |
| ReleaseCreation.CollectionIs | apps/api/src/store/memory.ts:2996-3038 | collection removes exactly the first twenty unpublished candidates of the organization that are thirty days past their expiry, by expiry and id, and exactly the releases that they alone referred to |
| ReleaseCreation.CommitIs | apps/api/src/store/memory.ts:3102-3185 | what a create adds: the caller's own draft, made now, of the playlist asked for, with the frozen items, the schedule asked for with its days in order, the distinct screens in order and the expiry asked for, on the first release of the same content or on a new one |
| ReleaseCreation.CreateDecides | apps/api/src/store/memory.ts:2965-3186 | every answer to a create and the store after it, each refusal in its place; the collection stays even when a later check refuses |
| ReleasePreparation.FreezeIs | apps/api/src/store/memory.ts:3077-3101 | what freezing a stored playlist comes to: exactly its items with their stored assets, one per position, in increasing position, or the reason why there is none |
| ReleasePreparation.ChecksAre | apps/api/src/store/memory.ts:3039-3101 | which check of a create answers, in every case: number and existence of the screens, both backlog limits, the playlist, its assets, the policy, and the freezing |
| ReleaseDelivery.ActiveExactly | apps/api/src/store/memory.ts:3834-3863 | what is active for a screen is exactly what the last assignment of a schedule shows: not a withdrawal, for that screen, enabled, begun, not ended, in its window, with its release; no digest check fails in a sound store |
| ReleaseDelivery.AuthorizedExactly | apps/api/src/store/memory.ts:3864-3905 | a media request is authorized exactly for a safe positive size of an unexpired asset, of that key and checksum, among the items of a release the screen is shown under the named assignment and digest |
| ReplayReconstruction.ConfirmedExactly | apps/api/src/store/prisma.ts:985-1044 | in a sound store a response is confirmed exactly when a stored candidate of its id has got to the stage of the call and, its later fields erased, is the response |
| Canonical.FreezeRefusal | apps/api/src/releases/canonical.ts:26-67 | which of the two refusals a playlist meets first, in the order of its positions: a shared position, or a missing asset |
| Canonical.SortKeepsTies | apps/api/src/releases/canonical.ts:26-40 | sorting by position a list that is sorted by id orders it by position and then by id |
| Authority.ActingIsFound | apps/api/src/store/memory.ts:2923-2930 | a caller is let through exactly when the user's row in the organization is not disabled and has one of the roles |
| Canonical.CandidateIdempotent | apps/api/src/releases/canonical.ts:153-183 | canonicalizing a stored canonical candidate changes nothing, so its digest can be recomputed from what is stored |
| Canonical.CandidateOrderIndependent | apps/api/src/releases/canonical.ts:153-183 | the candidate digest does not depend on the order or repetition of days and screens |
| Canonical.ReleasableExactly | apps/api/src/releases/canonical.ts:26-77 | a playlist can be released exactly when it has items, no two share a position and all assets are known; items come out in strictly increasing position |
| Canonical.ReleaseOrderIndependent | apps/api/src/releases/canonical.ts:26-77 | the release does not depend on the order in which the playlist stores its items |
| Canonical.CanonicalReleaseItems | apps/api/src/releases/canonical.ts:26-67 | the freezing loop with its set of positions |
| DeviceSafety.OneLiveCredential | apps/api/src/store/memory.ts:1514-1589 | in every reachable store each screen has at most one attached credential, key ids are distinct and are exactly the burnt ones; generations and burnt keys never go back |
| DeviceOrigins.CredentialsComeFromProofs | apps/api/src/store/memory.ts:1996-2206 | every credential in any reachable store carries the key of an attempt whose proof was verified before the attempt and its grant expired, and was made by that claim through an open code or by a later activation of that attempt by an administrator, on a live pending grant of the screen's generation |
| DeviceOrigins.ProvedWasVerified | apps/api/src/store/memory.ts:2029-2125 | an attempt counts as proved only after a claim of it whose proof was verified within the lifetimes of the attempt and of its pending grant |
| DeviceOrigins.ActivationBinds | apps/api/src/store/memory.ts:1448-1777 | an activation that makes a credential is an administrator's, of a proved and uncancelled attempt of a live pending grant at the screen's generation with a current issuer, and uses that attempt's unused key |
| DeviceSafety.RevocationDetaches | apps/api/src/store/memory.ts:1236-1252 | a successful revocation, re-enrollment request or decommissioning leaves no credential attached to the screen |
| DeviceSafety.ChallengeAuthenticatesOnce | apps/api/src/store/memory.ts:2298-2346 | under any interleaving a challenge authenticates at most once |
| DeviceSafety.NeverAfterRevocation | apps/api/src/store/memory.ts:2320-2346 | once a credential is detached or revoked no proof authenticates through it, even one that began before |
| DeviceSafety.NeverAfterReplacement | apps/api/src/store/memory.ts:2216-2233 | once another credential is attached to the screen, the older one never authenticates again |
| DeviceSafety.ProofSpansOneGeneration | apps/api/src/store/memory.ts:2302-2332 | between the start of a proof and its success the generation of the screen is unchanged at every step |
| DeviceSafety.FewChallengesAreLive | apps/api/src/store/memory.ts:2263-2284 | at every instant, the end of a run included, at most four challenges per credential and operation are unconsumed and unexpired |
| DeviceSafety.SoundFromThenOn | apps/api/src/store/memory.ts:1069-2509 | the store after any prefix of a run is sound at every later instant, the end of the run included |
| DeviceIssues.IssueIsSoundExactly | apps/api/src/store/memory.ts:2250-2297 | a challenge whose issue was suspended is issued for a credential that can still authenticate exactly when no revocation, re-enrollment request or decommissioning of its screen took effect in between and it has not expired |
| DeviceIssues.OnUntilEnded | apps/api/src/store/memory.ts:2250-2297 | over a run a credential stays attached, unrevoked and on an existing screen exactly while no such event takes effect |
| DeviceIssues.StepEnds | apps/api/src/store/memory.ts:2216-2249 | one event ends a credential exactly when it is a successful revocation, re-enrollment request or decommissioning of its screen |
| DeviceIssues.LateChallengeExample | apps/api/src/store/memory.ts:2250-2297 | a run from an empty store in which a challenge is issued for a credential revoked during the await |
| DeviceSafety.GrantLeavesPendingOnce | apps/api/src/store/memory.ts:195-252 | a grant that has left the pending state keeps its status and its screen for good |
| DeviceSafety.PendingGrantsAreFew | apps/api/src/store/memory.ts:1228-1235 | no two grants of a reachable store are pending for one screen, and no two unexpired pending grants have one code |
| DeviceSafety.FewHaveProved | apps/api/src/store/memory.ts:2107-2112 | in every reachable store at most four attempts of any one grant have proved themselves and are not cancelled |
| DeviceSafety.FewAreOutstanding | apps/api/src/store/memory.ts:1968-1974 | at every instant at most four attempts of one grant and key are unconsumed and unexpired |
| DeviceSafety.ClaimedGrantHasOneWinner | apps/api/src/store/memory.ts:1577-1586 | a claimed grant for a screen has exactly one bound attempt and all its others are cancelled |
| DeviceSafety.OpenCodeMakesOneScreen | apps/api/src/store/memory.ts:2128-2196 | an open code makes at most one screen under interleaved claims, the one the grant names |
| DeviceSafety.PendingGrantsAreBacked | apps/api/src/store/memory.ts:178-194 | every pending grant for a screen is backed by an active owner or admin in the recorded membership and epochs |
| DeviceRuns.ReachableIsSound | apps/api/src/store/memory.ts:1069-2509 | the invariant holds in every store reached by any interleaving of requests split at their awaits |
| DeviceRuns.NothingGoesBack | apps/api/src/store/memory.ts:195-252 | over a run records keep their places, statuses leave pending once, detached, revoked and consumed stay so, generations never decrease |
| DeviceRuns.StepKeepsMachineInv | apps/api/src/store/memory.ts:1069-2509 | every event, including the second halves of suspended requests, keeps the invariant |
| DeviceInvariants.RetiringKeepsInv | apps/api/src/store/memory.ts:178-253 | closing, expiring, cancelling and removing grants and attempts keeps the invariant |
| DeviceInvariants.DetachingKeepsInv | apps/api/src/store/memory.ts:1236-1266 | detaching credentials, consuming challenges and advancing generations keeps the invariant |
| DeviceInvariants.PruningRetires | apps/api/src/store/memory.ts:195-253 | pruning closes expired grants and removes closed ones; a pending unexpired grant and its attempts are untouched |
| DeviceSteps.AttachedKeepsInv | apps/api/src/store/memory.ts:1559-1586 | binding a credential to a screen without an attached one, through a pending grant, keeps the invariant |
| DeviceSteps.AttachedToNewKeepsInv | apps/api/src/store/memory.ts:2128-2206 | binding a credential to a new screen through an open grant keeps the invariant |
| DeviceSteps.ReenrollmentRequestedKeepsInv | apps/api/src/store/memory.ts:1157-1266 | a re-enrollment request keeps the invariant: code, grant, detachment and generation together |
| DeviceSteps.EnrollmentRequestedKeepsInv | apps/api/src/store/memory.ts:1267-1399 | an enrollment request keeps the invariant |
| DeviceSteps.ReenrollmentActivatedKeepsInv | apps/api/src/store/memory.ts:1448-1589 | activating a re-enrollment keeps the invariant |
| DeviceSteps.EnrollmentActivatedKeepsInv | apps/api/src/store/memory.ts:1590-1777 | activating an enrollment keeps the invariant, with its pruning in between |
| DeviceSteps.ClaimFinishedKeepsInv | apps/api/src/store/memory.ts:2036-2206 | the second half of a claim keeps the invariant, whatever happened during the verification |
| DeviceSteps.IssueFinishedKeepsInv | apps/api/src/store/memory.ts:2250-2297 | the second half of the issue of a challenge keeps the bound of four |
| DeviceSteps.UserMutatedKeepsInv | apps/api/src/store/memory.ts:178-194 | an identity mutation revokes the issuer's pending grants before it changes the rows, so the remaining ones stay backed |
| DeviceOutcomes.PruningLeavesAlone | apps/api/src/store/memory.ts:195-253 | pruning leaves alone whatever is pending and unexpired, with its attempts, everything of other organizations, unexpired records and the record in use |
| DeviceOutcomes.PruningKeepsCodes | apps/api/src/store/memory.ts:195-253 | the codes that are taken are the same before and after pruning |
| DeviceOutcomes.PairingCreatedIsClaimable | apps/api/src/store/memory.ts:1107-1156 | the code of a new open grant leads to that grant and no other |
| DeviceOutcomes.ReenrollmentRequestedClears | apps/api/src/store/memory.ts:1222-1266 | a granted re-enrollment leaves nothing attached, no other pending grant for the screen, and the next generation |
| DeviceOutcomes.EnrollmentRequestIsRepeatable | apps/api/src/store/memory.ts:1275-1399 | asking again under the same key is answered with the same grant until the record expires |
| DeviceOutcomes.EnrollmentRequestedIsOnlyOne | apps/api/src/store/memory.ts:1350-1399 | a new enrollment is the one pending grant of its screen, under one of the offered codes |
| DeviceOutcomes.CancelledIsClosed | apps/api/src/store/memory.ts:1778-1820 | a cancelled grant is revoked and leaves no unconsumed attempt uncancelled |
| DeviceOutcomes.ReenrollmentIsRepeatable | apps/api/src/store/memory.ts:1470-1589 | an activation binds the attempt's key to the screen, and activating again finds the same credential and changes nothing |
| DeviceOutcomes.EnrollmentIsRepeatable | apps/api/src/store/memory.ts:1600-1777 | an activation binds the confirmed key, and the same request is answered with the same credential until the record expires |
| DeviceOutcomes.ClaimedCodeIsSpent | apps/api/src/store/memory.ts:1821-1865 | once a code has been claimed nothing pending carries it; a claim that finds nothing changes nothing |
| DeviceOutcomes.IssuedCanBeClaimed | apps/api/src/store/memory.ts:1916-2028 | an issued attempt is outstanding, of an unused key, within its lifetime, and can be claimed by presenting its values |
| DeviceOutcomes.ClaimAnswers | apps/api/src/store/memory.ts:2036-2206 | paired means an unrevoked attached credential on an existing screen, pending means a proved attempt of an unexpired pending grant with a current issuer, invalid means nothing changed |
| DeviceOutcomes.ClaimIsIdempotent | apps/api/src/store/memory.ts:2036-2060 | the same claim is answered alike again and changes nothing, while the credential it was given is unexpired |
| DeviceOutcomes.IssuedCanBeAnswered | apps/api/src/store/memory.ts:2258-2318 | an issued challenge is alive and matches a proof with the values it was issued for; the challenges alive before stay alive |
| DeviceOutcomes.AcceptedIsSpent | apps/api/src/store/memory.ts:2319-2346 | an accepted proof found its challenge open and spends it, so that no proof is ever accepted with it again; nothing else changes |
| DeviceOutcomes.RevokedLeavesNothing | apps/api/src/store/memory.ts:2390-2509 | a revocation leaves nothing attached to the screen and nothing pending for it; a refused one changes nothing |
| DeviceOutcomes.DeletedLeavesNothing | apps/api/src/store/memory.ts:1019-1068 | a deleted screen is found by no lookup and has nothing attached and nothing pending |
| DeviceEffects.RevokingIs | apps/api/src/store/memory.ts:178-194 | revoking changes exactly the picked pending grants and, according to its kind, exactly their unbound or their unconsumed attempts, or none |
| DeviceEffects.DetachingIs | apps/api/src/store/memory.ts:1236-1252 | detaching changes exactly the picked attached credentials and exactly the open challenges of those |
| DeviceEffects.PruningIs | apps/api/src/store/memory.ts:195-253 | pruning in terms of first ones: the first hundred expired pending grants are closed, the first hundred long closed ones removed with their attempts, the first hundred expired records forgotten but not the one in use |
| DeviceEffects.FirstAreDropped | apps/api/src/store/memory.ts:135-151 | exactly the first hundred challenges a day past their expiry are dropped |
| DeviceDecisions.PairingDecides | apps/api/src/store/memory.ts:1107-1156 | every answer to a request for an open code: granted exactly to an administrator when no live pending grant has the code |
| DeviceDecisions.ReenrollmentRequestDecides | apps/api/src/store/memory.ts:1157-1266 | every answer to a re-enrollment request and the store after it: exactly the screen's attached credentials, pending grants and unbound attempts end, the generation advances and one grant is added |
| DeviceDecisions.EnrollmentRequestDecides | apps/api/src/store/memory.ts:1267-1399 | every answer to an enrollment request and the store after it: replayed from its record, refused in order, or granted under the first offered code that is free |
| DeviceDecisions.ReenrollmentActivatesExactly | apps/api/src/store/memory.ts:1448-1589 | a re-enrollment is activated, and not replayed, exactly when an administrator names a proved, uncancelled and unbound attempt with an unused key, of a pending re-enrollment grant of the screen that has not expired, is of the screen's generation and has a current issuer |
| DeviceDecisions.ReenrollmentDecides | apps/api/src/store/memory.ts:1448-1589 | every answer to the activation of a re-enrollment and the store after it: replayed, refused in order, or the one new credential, the spent key, the claimed grant and its other attempts cancelled |
| DeviceDecisions.EnrollmentActivatesExactly | apps/api/src/store/memory.ts:1590-1777 | an enrollment is activated, and not replayed, exactly when besides the grant is for enrollment, the fingerprint confirmed is the attempt's key, the screen never had a credential and the request key is new |
| DeviceDecisions.EnrollmentDecides | apps/api/src/store/memory.ts:1590-1777 | every answer to the activation of an enrollment and the store after it, replays and stale reasons included |
| DeviceDecisions.CancelDecides | apps/api/src/store/memory.ts:1778-1820 | a grant is cancelled exactly when an administrator names a pending one of that kind and screen; exactly its unconsumed attempts go with it |
| DeviceDecisions.RevocationDecides | apps/api/src/store/memory.ts:2390-2509 | every answer to a revocation and the store after it: the attached credential goes, or with none attached the grants still pending for the screen, and a screen with neither is refused |
| DeviceDecisions.DeletionDecides | apps/api/src/store/memory.ts:1019-1068 | a screen is removed exactly when an administrator names a stored one, and exactly what hangs on it ends |
| DeviceDecisions.MutationDecides | apps/api/src/store/memory.ts:178-194 | exactly the pending grants that users whom a mutation hits have issued end with it |
| DeviceProofs.OpenClaimDecides | apps/api/src/store/memory.ts:1821-1877 | a code makes a screen exactly when a live pending open grant has it; otherwise nothing changes |
| DeviceProofs.ProofIssueDecides | apps/api/src/store/memory.ts:1916-1995 | every answer to a request for a pairing proof: issued exactly for a live pending grant with a current issuer, a fresh hash, an unused key and fewer than four outstanding attempts, with a lifetime of 45 seconds at most |
| DeviceProofs.ClaimBeginsExactly | apps/api/src/store/memory.ts:1996-2035 | a claim goes on to verification exactly when it names a stored attempt by its hash, transcript and key under the code of its grant |
| DeviceProofs.ClaimDecides | apps/api/src/store/memory.ts:2036-2206 | every answer to a verified claim and the store after it: the same again for a bound or proved attempt, invalid after a lifetime or for a spent key, pending approval for a screen's grant, paired for an open one |
| DeviceProofs.ClaimTakesEffectExactly | apps/api/src/store/memory.ts:2061-2206 | a claim of an attempt that has not proved itself newly proves or pairs exactly when the attempt and its pending grant are unexpired, the key is unused, and for a screen's grant the issuer is current and fewer than four attempts have proved themselves |
| DeviceProofs.IssueBeginsExactly | apps/api/src/store/memory.ts:2234-2257 | a request for a challenge finds exactly the credential of that screen and key that is attached, unrevoked and unexpired |
| DeviceProofs.IssueDecides | apps/api/src/store/memory.ts:2258-2297 | every answer to the second half of an issue and the store after it: a challenge with the values asked for exactly when a credential was found, the lifetime is a minute at most, the hash is fresh and fewer than four are live |
| DeviceProofs.ProofBeginsExactly | apps/api/src/store/memory.ts:2298-2318 | a proof begins exactly when its credential can authenticate and its challenge is open and was issued for that credential, hash, activity and request; it keeps the generation of that moment |
| DeviceProofs.ConsumptionDecides | apps/api/src/store/memory.ts:2319-2346 | a verified proof authenticates exactly when its credential is attached, unrevoked, unexpired and on a stored screen still at the proof's generation, and its challenge is stored, open, unexpired and issued for the proof's values; exactly that challenge is then spent |
| DeviceAuthentication.ProofSucceedsExactly | apps/api/src/store/memory.ts:2250-2346 | over a whole run, for every activity: a challenge issued, a proof begun with its values and finished verified authenticates exactly when nothing ended its credential since the issue was asked for, no other proof used the challenge, and neither has expired |
| DeviceAuthentication.ChallengeStays | apps/api/src/store/memory.ts:2298-2346 | no event but the end of its credential, or an authentication through it, closes or removes an unexpired challenge |
| DeviceAuthentication.GenerationStays | apps/api/src/store/memory.ts:1222-1266 | no event moves the generation of a screen while a credential of it is attached and is not ended by that event |
| DeviceStore.MemoryStore.RevokeGrants | apps/api/src/store/memory.ts:178-194 | the revocation loops over grants and attempts: afterwards the selector picks out nothing |
| DeviceStore.MemoryStore.CancelAttempts | apps/api/src/store/memory.ts:189-192 | the inner loop: exactly the attempts of one revoked grant are cancelled |
| DeviceStore.MemoryStore.DetachCredentials | apps/api/src/store/memory.ts:1236-1252 | the detachment loops over credentials and challenges: what was picked is detached and has no live challenge |
| DeviceStore.MemoryStore.InvalidateChallenges | apps/api/src/store/memory.ts:2484-2491 | the inner loop: exactly the open challenges of one credential are consumed |
| DeviceStore.MemoryStore.ExpireGrants | apps/api/src/store/memory.ts:200-213 | the filter, sort, slice and loop that close exactly the first hundred expired grants |
| DeviceStore.MemoryStore.RemoveGrants | apps/api/src/store/memory.ts:214-238 | the set of removed grants and the two filters over grants and attempts |
| DeviceStore.MemoryStore.ForgetResponses | apps/api/src/store/memory.ts:239-252 | the filter, sort, slice and loop that drop exactly the first hundred expired responses, but not the one in use |
| DeviceStore.MemoryStore.DropChallenges | apps/api/src/store/memory.ts:135-151 | the filter, sort, slice and filter that drop exactly the first hundred day-old challenges |
| DeviceStore.MemoryStore.PruneDeviceEnrollmentAuthority | apps/api/src/store/memory.ts:195-253 | the three maintenance loops together: what is pending and unexpired stays with its attempts, and so does everything of other organizations; the codes taken are the same as before |
| DeviceStore.MemoryStore.TryCreatePairing | apps/api/src/store/memory.ts:1107-1156 | granted exactly to an administrator when no live pending grant has the code: an open grant that its code leads to; expired grants with the code are closed; a refusal changes nothing |
| DeviceStore.MemoryStore.RequestScreenReenrollment | apps/api/src/store/memory.ts:1157-1266 | every answer with the store after it: when granted nothing is attached to the screen any more and the new grant is the one pending for it |
| DeviceStore.MemoryStore.RequestScreenEnrollment | apps/api/src/store/memory.ts:1267-1399 | every answer with the store after it: when granted the new grant is the one pending for its screen, and asking again under the key is answered with it |
| DeviceStore.MemoryStore.CancelGrant | apps/api/src/store/memory.ts:1778-1820 | cancelled exactly when an administrator names a pending grant of that kind and screen: it is closed and none of its attempts can be activated any more |
| DeviceStore.MemoryStore.AttachCredential | apps/api/src/store/memory.ts:1559-1583 | a new attached credential of the attempt's key, burnt with it; the grant closed, the other attempts cancelled, the invariant kept |
| DeviceStore.MemoryStore.ActivateReenrollmentCandidate | apps/api/src/store/memory.ts:1448-1589 | every answer with the store after it: the key of a proved attempt of a live pending grant is bound to the screen; activating again finds the same credential and changes nothing; a refusal changes nothing |
| DeviceStore.MemoryStore.ActivateScreenEnrollmentCandidate | apps/api/src/store/memory.ts:1590-1777 | every answer with the store after it: the confirmed key of a proved attempt of a live pending grant is bound to a screen that never had one; the same request is answered with the same credential |
| DeviceStore.MemoryStore.ClaimPairing | apps/api/src/store/memory.ts:1821-1877 | exactly a code that a live pending open grant has makes one new screen and is spent; otherwise nothing changes |
| DeviceStore.MemoryStore.IssuePairingChallenge | apps/api/src/store/memory.ts:1916-1995 | every answer with the store after it; the attempt is one of at most four outstanding ones of its grant and key, the key is unused, and whoever presents its values can claim it |
| DeviceStore.MemoryStore.CompleteClaim | apps/api/src/store/memory.ts:2036-2206 | every answer with the store after it: a claim newly proves or pairs exactly within the lifetimes of the attempt and its pending grant, with an unused key; paired means an unrevoked attached credential, pending a proved attempt under a current issuer; the same claim is answered alike again |
| DeviceStore.MemoryStore.CompleteChallenge | apps/api/src/store/memory.ts:2258-2297 | issued exactly when a credential was found, the lifetime is a minute at most, the hash is fresh and fewer than four are live; the challenge can be answered with the values it was issued for, and the live ones before stay live |
| DeviceStore.MemoryStore.ConsumeDeviceProof | apps/api/src/store/memory.ts:2319-2346 | authenticates exactly when the credential is live on a stored screen at the proof's generation and the challenge open, unexpired and issued for the proof's values; the challenge is consumed now and no proof is ever accepted with it again; otherwise nothing changes |
| DeviceStore.MemoryStore.RevokeDeviceCredential | apps/api/src/store/memory.ts:2390-2509 | every answer with the store after it; after a revocation no credential of the screen can authenticate at any time and no grant for it is pending |
| DeviceStore.MemoryStore.DeleteScreen | apps/api/src/store/memory.ts:1019-1068 | removed exactly when an administrator names a stored screen: it is found by no lookup, nothing on it can ever authenticate, nothing is pending for it |
| DeviceStore.MemoryStore.MutateUser | apps/api/src/store/memory.ts:178-194 | exactly the pending grants of the users it hits go before the rows change, so that every pending grant for a screen has a current issuer |
| IdentityRuns.MutationEndsSessions | apps/api/src/store/memory.ts:376-405 | after an identity mutation about a user, no session made before it authenticates again, whatever happens next |
| IdentityRuns.LoginOutlivedByMutation | apps/api/src/store/memory.ts:317-375 | a login suspended at its lookup creates a session whatever happens meanwhile; the session is current exactly when no mutation hit the user in between, and outdated otherwise |
| IdentityRuns.OutdatedNeverAuthenticates | apps/api/src/store/memory.ts:376-405 | a session with outdated epochs, however it came about, never authenticates in any continuation |
| IdentityRuns.StaleLoginExample | apps/api/src/store/memory.ts:317-375 | a session is created for a password that was rotated during the await, and it never authenticates |
| IdentityRuns.StaleSnapshotIsRefused | apps/api/src/store/memory.ts:334-352 | a login that starts after the mutation but presents older epochs is refused |
| IdentityRuns.CurrentUntilHit | apps/api/src/store/memory.ts:439-741 | epochs read at the start of a run are outdated at its end if a mutation hit the row, and still current if none did |
| IdentityRuns.OwnersRemain | apps/api/src/store/memory.ts:548-556 | an organization with an active owner has one after any run |
| IdentityRuns.ActiveUserNeedsCurrent | apps/api/src/store/memory.ts:376-405 | a token authenticates only through a session whose epochs are current |
| IdentityRuns.RunKeepsInv | apps/api/src/store/memory.ts:317-741 | rows stay unique and nothing stored runs ahead of the rows it was read from |
| IdentityEpochs.OwnerContinuity | apps/api/src/store/memory.ts:597-741 | a mutation leaves an organization that has an active owner with one |
| IdentityEpochs.MutationAdvances | apps/api/src/store/memory.ts:487-741 | a mutation moves an epoch of every row it concerns, or removes the row, and moves none back |
| IdentityEpochs.UnconcernedKeepsCurrent | apps/api/src/store/memory.ts:557-741 | a mutation leaves the rows it does not concern alone |
| IdentityStore.MutationEndsAuthority | apps/api/src/store/memory.ts:376-741 | after a mutation no token authenticates a user it is about, and no suspended login of such a user will create a session that does; every organization keeps its owner |
| IdentityStore.LoginTakesEffect | apps/api/src/store/memory.ts:317-405 | the session of a login authenticates its user until it expires if the row is as the login read it, and nobody if the row's epochs have moved on |
| IdentityRuns.LogoutLasts | apps/api/src/store/memory.ts:406-438 | a logout suspended at its lookup, with anything in between: if it then finds the one session of its token, the token authenticates nobody over any continuation in which no login takes it up again |
| IdentityRuns.LogoutRevokes | apps/api/src/store/memory.ts:406-438 | a logout that finds the one session of its token leaves every session with the token revoked |
| IdentityRuns.LookupOutlivedByMutation | apps/api/src/store/memory.ts:376-405 | an authentication suspended between its session and its user succeeds only if no mutation hit the user in between |
| IdentityDecisions.JudgeDecides | apps/api/src/store/memory.ts:439-741 | every answer to an identity mutation: not found, the last active owner, any of the stale-state checks of the bootstrap rotation, or applied exactly when none of them is met |
| IdentityDecisions.MutationDecides | apps/api/src/store/memory.ts:439-741 | a mutation changes the store exactly when it is applied, and then in exactly the rows and sessions it concerns: the hash and epochs in every row of the user, the disablement, the role, or the removal |
| IdentityDecisions.LoginDecides | apps/api/src/store/memory.ts:317-375 | a session is made exactly when the row read at the lookup has the hash, role, epochs and bootstrap presented, which fits the purpose, and there is time left, ten minutes at most for a bootstrap; every field of the session, and that exactly the expired ones go |
| IdentityDecisions.LookupSucceedsExactly | apps/api/src/store/memory.ts:387-405 | the second half of an authentication yields exactly the user's active row when the session found holds its epochs and fits it: a full session for a row without a bootstrap, one for the rotation that ends by a bootstrap deadline not yet passed |
| IdentityDecisions.AuthenticatesExactly | apps/api/src/store/memory.ts:376-405 | a token authenticates a user exactly when the first unrevoked and unexpired session of that user, organization and token speaks for the user's active row |
| IdentityDecisions.LogoutDecides | apps/api/src/store/memory.ts:406-438 | a logout takes effect exactly when it began allowed and a session of that token is unrevoked and was unexpired then, and it revokes exactly the first such session |
| IdentityStore.MemoryStore.Memberships | apps/api/src/store/memory.ts:564-571 | the organizations of a user, and whether the rows agree on one authentication epoch |
| IdentityStore.MemoryStore.RotateUserPassword | apps/api/src/store/memory.ts:557-596 | every row of the user has the new hash; no token authenticates the user, logins under way are overrun, owners remain |
| IdentityStore.MemoryStore.DisableUserAndAudit | apps/api/src/store/memory.ts:597-649 | every row of the user is disabled and no token authenticates the user; refused when an organization would lose its last active owner |
| IdentityStore.MemoryStore.ChangeMembershipRole | apps/api/src/store/memory.ts:650-699 | the row has the role and no token authenticates the user in the organization; refused when it would lose its last active owner |
| IdentityStore.MemoryStore.RemoveMembershipAndAudit | apps/api/src/store/memory.ts:700-741 | the organization has no row of the user left and no token authenticates the user there; refused when it would lose its last active owner |
| IdentityStore.MemoryStore.RotateBootstrapPassword | apps/api/src/store/memory.ts:439-520 | the bootstrap is over in every row and every session is ended, the rotating one included; forbidden under any of the stale-state checks |
| IdentityStore.MemoryStore.CompleteUserSession | apps/api/src/store/memory.ts:334-375 | the session authenticates the user until it expires if the row is as the login read it, and nobody once the epochs have moved on |
| IdentityStore.MemoryStore.RevokeUserSession | apps/api/src/store/memory.ts:406-438 | takes effect exactly when it may and there is an unrevoked session that was unexpired when it began; a token that one session holds then authenticates nobody, at any time |
| Schedules.UncachedResolves | apps/api/src/utils/schedule.ts:99-154 | total and exact: for a whole-minute zone with at most one transition nearby the search never throws and returns the latest or earliest instant showing the minute, or the first instant after the gap |
| Schedules.ResolvesExactly | apps/api/src/utils/schedule.ts:99-154 | for any zone whatever, the search keeps its promise exactly when the promised instant exists and the samples meet it: one has its offset or, in a gap, the bisection of two neighbours ends there |
| Schedules.ResolutionIsUnique | apps/api/src/utils/schedule.ts:77-83 | what is promised for a wall minute determines the instant |
| Schedules.ExactIsComplete | apps/api/src/utils/schedule.ts:109-126 | the thirteen samples meet the offset of every instant that shows the minute |
| Schedules.BisectFindsChange | apps/api/src/utils/schedule.ts:136-146 | the binary search ends at the first minute after the change of offset |
| Schedules.NoExactMeansGap | apps/api/src/utils/schedule.ts:130-153 | with no exact instant the change skips the minute, and the gap search lands right after it |
| Schedules.WallMinutes.Resolve | apps/api/src/utils/schedule.ts:84-155 | the cached search answers what the uncached one would, and keeps the table within 4096 entries |
| Schedules.WallMinutes.MatchesScheduleWindow | apps/api/src/utils/schedule.ts:198-228 | the window test, its lookups going through the cache |
| Schedules.WallMinutes.SchedulePlaybackEndsAt | apps/api/src/utils/schedule.ts:157-176 | the earliest of the schedule's end and the coming daily end |
| Schedules.Search | apps/api/src/utils/schedule.ts:99-154 | the sampling loop, the exact instants and the gap search, as a method |
| Schedules.FindGap | apps/api/src/utils/schedule.ts:130-153 | the loop over neighbouring samples |
| Schedules.BinarySearch | apps/api/src/utils/schedule.ts:136-146 | the `low`/`high` loop, with termination |
| Schedules.WindowIsSound | apps/api/src/utils/schedule.ts:198-228 | a schedule that plays does so within its daily window as the local clock shows it |
| Schedules.MatchesExactly | apps/api/src/utils/schedule.ts:198-228 | on a date around which clocks change at most once, a schedule plays exactly when the date has an allowed day and is within its dates, the first instant of its daily start has come and the last of its daily end has not |
| Schedules.PlaysOnceUnlessReopened | apps/api/src/utils/schedule.ts:77-83 | on one local date a schedule plays over one stretch of time exactly when it is not reopened by clocks going back across midnight on a side without a daily bound |
| Schedules.ReactivationExample | apps/api/src/utils/schedule.ts:198-228 | clocks going back across midnight make a schedule without daily bounds play, stop and play again on one date |
| Schedules.TwoChangesExample | apps/api/src/utils/schedule.ts:130-153 | a zone with two changes between neighbouring samples, for which the search misses an instant that shows the minute |
| Schedules.PlaybackEndIsAhead | apps/api/src/utils/schedule.ts:157-176 | for a schedule that plays at an instant on a date around which clocks change at most once, the computed end is strictly later, on that date it plays at every moment until then, and at none from then on; there is no end exactly when neither bound is set |
| CanonicalJson.CanonicalTextIsInjective | packages/contracts/src/index.ts:414-434 | two values, with any finite numbers in them, print the same text exactly when they are equal up to the order of object keys and the sign of zero |
| JsonReader.CanonicalTextReadsBack | packages/contracts/src/index.ts:414-434 | the canonical text of every value, read by the grammar of RFC 8259 with its own literals, escapes, numbers, arrays and objects, is the value up to key order, with nothing left over and the keys of every object ascending |
| JsonReader.NumberReads | packages/contracts/src/index.ts:417-421 | a printed number is read, digit by digit, as the number it was |
| JsonReader.QuoteReads | packages/contracts/src/index.ts:415-416 | a quoted string is read as its content, up to its closing quote, with every escape undone |
| JsonForm.CanonicalTextIsCompact | packages/contracts/src/index.ts:414-434 | canonical text has no white space outside its strings, and inside them nothing is escaped that need not be |
| JsonForm.CompactStringIsQuoted | packages/contracts/src/index.ts:415-416 | of all the texts a reader takes for one string, the quoted one is the only one without a needless escape, so it is what `JSON.stringify` gives |
| JsonForm.NotationIs | packages/contracts/src/index.ts:417-421 | a number has an exponent exactly below a millionth and from ten to the 21st on, a point exactly when digits follow it, and no zero where none is needed |
| JsonReader.BeforeIsPrecedes | packages/contracts/src/index.ts:423-431 | the order in which keys are sorted is the order of their first differing code units |
| JsonNumbers.PrintInjective | packages/contracts/src/index.ts:417-421 | finite numbers print alike exactly when they are equal, in plain, pointed and exponent notation |
| JsonNumbers.PrintPrefix | packages/contracts/src/index.ts:417-421 | a printed number can be told apart from whatever may follow it |
| CanonicalJson.PrintPrefix | packages/contracts/src/index.ts:414-434 | the printed value can be told apart from whatever follows it: texts decode in one way |
| Utf16.QuotePrefix | packages/contracts/src/index.ts:415-416 | a quoted string determines its content and its end, escapes included |
| CanonicalJson.SameMeansEqualText | packages/contracts/src/index.ts:430-433 | values equal up to key order print alike |
| EcdsaDer.IsStrictEcdsaDer | apps/api/src/device-proof/crypto.ts:76-98 | accepts a signature exactly when it is the encoding of some pair (r, s) with 0 <= r, s < 2^263 |
| EcdsaDer.StrictMeansEncoded | apps/api/src/device-proof/crypto.ts:76-98 | the structure the parser accepts and the encodings of pairs are the same |
| EcdsaDer.EncodingIsInjective | apps/api/src/device-proof/crypto.ts:76-98 | a signature encodes one pair only, so decoding and encoding again is the identity |
| EcdsaDer.ContentsRoundTrip | apps/api/src/device-proof/crypto.ts:83-96 | the content octets of an integer give the integer back |
| ScopedAuthorization.DecisionIsOrderIndependent | apps/api/src/authorization/scoped.ts:96-284 | the whole decision, evidence included, is the same under any order of grants and targets and any order or repetition of group ids |
| ScopedAuthorization.AllowedExactly | apps/api/src/authorization/scoped.ts:223-284 | for a target capability, allowed exactly when the context is valid, the role permits it, there are targets and each is covered by an active grant |
| ScopedAuthorization.OrganizationAllowedExactly | apps/api/src/authorization/scoped.ts:249-268 | for a capability of the organization, allowed exactly when the context is valid, the role permits it, no target is named and some active grant is organization-wide |
| ScopedAuthorization.MoreGrantsNeverRevoke | apps/api/src/authorization/scoped.ts:249-284 | for every capability, a further grant with a fresh id never takes an allowance away |
| ScopedAuthorization.EvidenceIsStable | apps/api/src/authorization/scoped.ts:107-109 | the evidence does not depend on the instant of evaluation while the same grants are active |
| ScopedAuthorization.EvaluateScopedAuthorization | apps/api/src/authorization/scoped.ts:223-284 | the decision with its loop over targets |
| ScopedAuthorization.NormalizeTargets | apps/api/src/authorization/scoped.ts:126-156 | the loop that checks and normalizes targets |
| ScopedDecisions.ReasonDecides | apps/api/src/authorization/scoped.ts:223-284 | the reason of every decision from the request alone, in order, and that it allows exactly when the reason says so |
| ScopedDecisions.EvidenceDecides | apps/api/src/authorization/scoped.ts:96-124 | what every decision records: the request's own fields, the distinct targets in order, the smallest active grant that covers each, and the ids of these, once each and ascending, as the matching ones |
| AuditTrees.SoundExactly | apps/api/src/audit/integrity.ts:47-126 | a value is sound exactly when every value that a path leads to passes its own checks, within eight levels |
| AuditTrees.CompatibleExactly | apps/api/src/audit/integrity.ts:17-33 | text is accepted exactly when it has no U+0000, every high surrogate is followed by a low one and every low one follows a high one |
| AuditTrees.AcceptedIsATree | apps/api/src/audit/integrity.ts:47-126 | metadata is accepted exactly when it is an object, every value in it passes its own checks within eight levels, no object can be reached in two ways, and the bytes of its text with the slack for its numbers are at most 16384; cycles and sharing are refused |
| AuditTrees.PathsAreUnique | apps/api/src/audit/integrity.ts:80-85 | where the shared set of seen references has no repetition, two paths to one object are the same path |
| AuditTrees.RepetitionMeansTwoPaths | apps/api/src/audit/integrity.ts:80-85 | a repeated reference gives two different paths to one object |
| AuditTrees.EstimateCoversRendering | apps/api/src/audit/integrity.ts:72-126 | the estimate of any value is the UTF-8 length of its text, with `, ` and `: ` and quoted strings, where every number counts as 330 bytes; so it is never short of it |
| AuditTrees.AcceptedMetadataFits | apps/api/src/audit/integrity.ts:159-169 | the text of accepted metadata takes at most 16384 UTF-8 bytes |
| AuditMetadata.Validator.ValidateJsonValue | apps/api/src/audit/integrity.ts:47-126 | the recursion over the object graph terminates and accepts exactly sound values with unseen references, adding them to the shared set |
| AuditMetadata.Validator.ValidateParts | apps/api/src/audit/integrity.ts:86-125 | the loops over items and properties, with the running byte count |
| AuditMetadata.IsPostgresTextCompatible | apps/api/src/audit/integrity.ts:17-33 | accepts exactly the texts that are the UTF-16 form of characters other than U+0000 |
| AuditMetadata.CompatibleIsDecodable | apps/api/src/audit/integrity.ts:17-33 | a text is the UTF-16 form of some characters exactly when it decodes unit by unit |
| AuditMetadata.IsAuditEventSound | apps/api/src/audit/integrity.ts:128-169 | an event passes exactly when its texts are bounded and storable and its metadata is a sound object |
| AuditMetadata.IsBoundedString | apps/api/src/audit/integrity.ts:35-45 | length and text check of one field |
| RateLimit.AtMostTwoWindows | apps/api/src/utils/rate-limit.ts:31-54 | any half-open interval of one window's length holds at most 2m - 1 allowed calls of a key (none for m = 0) |
| RateLimit.BoundIsTight | apps/api/src/utils/rate-limit.ts:31-54 | that bound is reached by some history |
| RateLimit.RetryIsAllowed | apps/api/src/utils/rate-limit.ts:46-52 | a call after the returned delay, with none on the key in between, is allowed when m is at least 1 |
| RateLimit.WithinOneWindow | apps/api/src/utils/rate-limit.ts:40-47 | between openings of a key's window at most m calls are allowed |
| RateLimit.VerdictExactly | apps/api/src/utils/rate-limit.ts:37-53 | a call is allowed exactly when no more than m calls were made on its key since its window opened; the delay told is the least whole number of seconds, one at least, after which that window is over |
| RateLimit.CounterIs | apps/api/src/utils/rate-limit.ts:37-47 | the counter after a call holds the calls of its window and the end of that window |
| RateLimit.MemoryRateLimitBudget.Consume | apps/api/src/utils/rate-limit.ts:37-53 | counts the call in its window: of the calls on the key within the last window at most 2m - 1 have been let through, and whoever waits as long as told is let through |
| ExactLength.ExactlyTheDeclaredBytes | apps/api/src/media/delivery.ts:40-86 | for every chunking the stream succeeds exactly when the input has the declared length, and then delivers the input; before the end it has delivered all of a shorter input, and all but the last byte of one of the declared length |
| ExactLength.ChunkingIsIrrelevant | apps/api/src/media/delivery.ts:40-86 | how the input is cut into chunks does not change what is delivered |
| ExactLength.ExactByteLength.Transform | apps/api/src/media/delivery.ts:49-70 | refuses exactly the chunk that would exceed the declared length; what has been passed on is a prefix of the input, short of the declared length |
| ExactLength.ExactByteLength.Flush | apps/api/src/media/delivery.ts:71-79 | succeeds exactly on an input of the declared length, and completes it |

## Left out

- Instants are integers. The code compares ISO strings, which agrees for the years 0 to 9999.
- `localeCompare` on ids is modelled as the order of numbers; only its being a total order matters.
- SHA-256 and HMAC are injective by construction; Ed25519, P-256 and bcrypt are arbitrary booleans.
- Checks that a hash or key id has the right number of hexadecimal digits, which throw before anything is read.
- Audit log contents, and the atomicity of building an audit record before a change.
- Asset names, kinds and MIME types; they are frozen and compared with the other fields of an asset.
- `Intl.DateTimeFormat` and calendar conversion: a zone is a function from minutes to whole-minute offsets of at most 15 hours.
- Schedules.UncachedResolves: `Regular` is sufficient, not necessary; with two transitions within the 72 sampled hours the search may be wrong (`Schedules.TwoChangesExample`), and `Schedules.ResolvesExactly` says when.
- Schedules.PlaysOnceUnlessReopened: speaks of dates around which the clocks change at most once.
- The shortest digits and the exponent of a floating-point number are its model (section 6.1.6.1.20 of ECMA-262); finding them from the bits is not modelled.
- AuditTrees.EstimateCoversRendering: PostgreSQL is taken to escape strings as `JSON.stringify` does, and to render a finite number in at most 330 bytes.
- RateLimit.AtMostTwoWindows: one maximum and one window per key; the Redis script is not modelled.
- DeviceStore.MemoryStore.TryCreatePairing: the unaudited variant, which also closes expired grants when it reports a collision, is not modelled.
- DeviceStore.MemoryStore.PruneDeviceEnrollmentAuthority: removed records keep their place and carry a flag, so that a suspended request can still refer to them.
- Devices' bearer-token authentication, heartbeats' status fields, and the raw screen deletion that leaves pending grants alone.
- IdentityEpochs.MutationAdvances: users are not created here; a removed member who is invited again is outside the model.
- The invariants assume one row per user and organization to begin with, as `findUserByEmail` demands.
- SQL, transactions, row locks and retries in `prisma.ts`, beyond the reconstruction of replayed responses.
- Direct publication, raw schedule creation and deletion, and CRUD for locations, media and playlists, which are disabled or add only easy members; edits of the catalog are arbitrary events.
- Emergencies: no role may activate one.
- Routes, request schemas, configuration, the consoles and the player.
