/**
 The release workflow of the memory store (apps/api/src/store/memory.ts): candidates, their
 idempotency records, published assignments, and the two readers of what is on air.
 */
module Releases {
  import opened Common
  import opened Canonical
  import Identity

  const DAY_MS := 86_400_000
  const RETENTION := 30 * DAY_MS
  const MAX_LIFETIME := 7 * DAY_MS
  const GC_BATCH := 20
  const COMPACTION_BATCH := 100
  const MAX_SCREENS := 1000
  const MAX_PENDING := 100
  const MAX_UNPUBLISHED := 1000

  datatype Stage = Draft | InReview | Approved | Published

  datatype Operation = Create | Submit | Approve | Publish

  datatype Approval = Approval(
    id: Id, org: Id, candidate: Id, digest: Digest, approver: Id,
    authentication: nat, authorization: nat, approvedAt: int)

  datatype Candidate = Candidate(
    id: Id, org: Id, release: Id, releaseDigest: Digest, sourcePlaylist: Id, stage: Stage, digest: Digest, author: Id,
    items: seq<FrozenItem>, schedule: Schedule, screens: seq<int>, expiresAt: int, createdAt: int,
    submittedAt: Option<int>, approvedAt: Option<int>, approval: Option<Approval>,
    publishedAt: Option<int>, scheduleId: Option<Id>, assignmentId: Option<Id>)

  datatype Release = Release(id: Id, org: Id, content: ReleaseSnapshot, digest: Digest, createdBy: Id, createdAt: int)

  datatype ScheduleRecord = ScheduleRecord(id: Id, org: Id, playlist: Id, release: Id, assignment: Id)

  datatype Assignment = Assignment(
    id: Id, org: Id, release: Id, scheduleId: Id, screens: seq<int>, state: AssignmentState, schedule: Schedule,
    digest: Digest, previous: Option<Id>, createdBy: Id, createdAt: int)

  /** An idempotency record; its response is dropped once the record has expired. */
  datatype Record = Record(
    org: Id, operation: Operation, keyHash: Id, actor: Id, request: Id, expiresAt: int, response: Option<Candidate>)

  datatype MediaRecord = MediaRecord(org: Id, asset: Asset)

  datatype Screen = Screen(id: Id, org: Id)

  datatype Store = Store(
    users: seq<Identity.User>, playlists: seq<Playlist>, media: seq<MediaRecord>, screens: seq<Screen>,
    schedules: seq<ScheduleRecord>, releases: seq<Release>, assignments: seq<Assignment>,
    candidates: seq<Candidate>, records: seq<Record>, nextId: Id)

  datatype Reason =
    | NotFound | Forbidden | InvalidState | StaleDigest | AuthorCannotApprove | ApprovalStale | Expired
    | KeyReused | KeyExpired | PlaylistNotFound | ScreenNotFound | AssetMissing | AssetNotAllowed
    | AssetUnsupported | AssetExpired | TooLarge | NothingPlayable

  /** Thrown is the "references are invalid" error of a replay. */
  datatype Result = Completed(candidate: Candidate, replayed: bool) | Refused(reason: Reason) | Thrown

  /** Who calls, under which key, with which request. */
  datatype Caller = Caller(actor: Id, keyHash: Id, request: Id)

  datatype CandidateInput = CandidateInput(playlist: Id, schedule: Schedule, screens: seq<int>, expiresAt: int)

  /** The origin and media policy: why the assets may not be published at the given time, if they may not. */
  type Policy = (seq<Asset>, int) -> Option<Reason>

  // ------------------------------------------------------------------ who may do what

  function MayPerform(op: Operation): set<Identity.Role> {
    if op.Approve? then {Identity.Owner, Identity.Admin} else {Identity.Owner, Identity.Admin, Identity.Publisher}
  }

  predicate Capable(users: seq<Identity.User>, org: Id, actor: Id, roles: set<Identity.Role>) {
    var u := Identity.FindActive(users, actor, org);
    u.Some? && u.value.role in roles
  }

  const MAY_WITHDRAW := {Identity.Owner, Identity.Admin, Identity.Publisher}

  // ------------------------------------------------------------------ lookups

  predicate HasKey(r: Record, org: Id, op: Operation, key: Id) {
    r.org == org && r.operation == op && r.keyHash == key
  }

  function FindRecord(rs: seq<Record>, org: Id, op: Operation, key: Id): (k: Option<nat>)
    ensures k.Some? ==> k.value < |rs| && HasKey(rs[k.value], org, op, key)
    ensures k.None? ==> forall i | 0 <= i < |rs| :: !HasKey(rs[i], org, op, key)
  {
    if rs == [] then None
    else if HasKey(rs[0], org, op, key) then Some(0)
    else
      var rest := FindRecord(rs[1..], org, op, key);
      if rest.None? then None else Some(rest.value + 1)
  }

  function FindCandidate(cs: seq<Candidate>, org: Id, id: Id): (k: Option<nat>)
    ensures k.Some? ==> k.value < |cs| && cs[k.value].org == org && cs[k.value].id == id
    ensures k.None? ==> forall i | 0 <= i < |cs| :: !(cs[i].org == org && cs[i].id == id)
  {
    if cs == [] then None
    else if cs[0].org == org && cs[0].id == id then Some(0)
    else
      var rest := FindCandidate(cs[1..], org, id);
      if rest.None? then None else Some(rest.value + 1)
  }

  function FindRelease(rs: seq<Release>, org: Id, id: Id): (r: Option<Release>)
    ensures r.Some? ==> r.value in rs && r.value.org == org && r.value.id == id
    ensures r.None? ==> forall x | x in rs :: !(x.org == org && x.id == id)
  {
    if rs == [] then None
    else if rs[0].org == org && rs[0].id == id then Some(rs[0])
    else FindRelease(rs[1..], org, id)
  }

  function FindByDigest(rs: seq<Release>, org: Id, digest: Digest): (r: Option<Release>)
    ensures r.Some? ==> r.value in rs && r.value.org == org && r.value.digest == digest
  {
    if rs == [] then None
    else if rs[0].org == org && rs[0].digest == digest then Some(rs[0])
    else FindByDigest(rs[1..], org, digest)
  }

  function FindPlaylist(ps: seq<Playlist>, org: Id, id: Id): Option<Playlist> {
    if ps == [] then None
    else if ps[0].org == org && ps[0].id == id then Some(ps[0])
    else FindPlaylist(ps[1..], org, id)
  }

  function FindMedia(ms: seq<MediaRecord>, org: Id, id: Id): Option<Asset> {
    if ms == [] then None
    else if ms[0].org == org && ms[0].asset.id == id then Some(ms[0].asset)
    else FindMedia(ms[1..], org, id)
  }

  /** The known assets of the items, in item order. */
  function AssetsOf(items: seq<PlaylistItem>, media: seq<MediaRecord>, org: Id): seq<Asset> {
    if items == [] then [] else
    var asset := FindMedia(media, org, items[0].asset);
    (if asset.Some? then [asset.value] else []) + AssetsOf(items[1..], media, org)
  }

  predicate ScreenExists(screens: seq<Screen>, org: Id, id: int) {
    exists k :: 0 <= k < |screens| && screens[k].org == org && screens[k].id == id
  }

  predicate ScreensExist(screens: seq<Screen>, org: Id, ids: seq<int>) {
    forall k | 0 <= k < |ids| :: ScreenExists(screens, org, ids[k])
  }

  // ------------------------------------------------------------------ stored digests

  predicate ValidCandidateDigest(c: Candidate) {
    c.digest == OfCandidate(CanonicalCandidate(c.releaseDigest, c.schedule, c.screens, c.expiresAt))
  }

  predicate ValidReleaseDigest(r: Release) { r.digest == OfRelease(r.content) }

  predicate ValidAssignmentDigest(a: Assignment, r: Release) {
    && a.org == r.org && a.release == r.id && ValidReleaseDigest(r)
    && a.digest == OfAssignment(CanonicalAssignment(r.digest, a.state, a.schedule, a.screens, a.previous))
  }

  // ------------------------------------------------------------------ replay

  function ExpectedStage(op: Operation): Stage {
    match op case Create => Draft case Submit => InReview case Approve => Approved case Publish => Published
  }

  predicate ReferencesValid(org: Id, op: Operation, response: Candidate, live: Candidate) {
    && response.org == org
    && response.stage == ExpectedStage(op)
    && response.digest == live.digest
    && ValidCandidateDigest(live)
    && (op.Approve? || op.Publish? ==> live.approval.Some? && live.approval.value.digest == live.digest)
    && (op.Publish? ==> live.scheduleId.Some? && live.assignmentId.Some? && live.stage.Published?)
  }

  /** What a call under a key already recorded returns; None when the key is new. */
  function Replay(s: Store, org: Id, op: Operation, who: Caller, now: int): Option<Result> {
    var k := FindRecord(s.records, org, op, who.keyHash);
    if k.None? then None else
    var r := s.records[k.value];
    if r.actor != who.actor || r.request != who.request then Some(Refused(KeyReused))
    else if r.expiresAt <= now || r.response.None? then Some(Refused(KeyExpired))
    else
      var live := FindCandidate(s.candidates, org, r.response.value.id);
      if live.None? || !ReferencesValid(org, op, r.response.value, s.candidates[live.value]) then Some(Thrown)
      else Some(Completed(r.response.value, true))
  }

  function Remember(rs: seq<Record>, org: Id, op: Operation, who: Caller, c: Candidate, now: int): seq<Record> {
    rs + [Record(org, op, who.keyHash, who.actor, who.request, now + RETENTION, Some(c))]
  }

  predicate Compactable(r: Record, now: int) { r.response.Some? && r.expiresAt <= now }

  /** Order of the compaction batch: by expiry, then key, then position. */
  predicate RecordBefore(rs: seq<Record>, i: nat, j: nat)
    requires i < |rs| && j < |rs|
  {
    || rs[i].expiresAt < rs[j].expiresAt
    || (rs[i].expiresAt == rs[j].expiresAt
        && (rs[i].keyHash < rs[j].keyHash || (rs[i].keyHash == rs[j].keyHash && i < j)))
  }

  /** Record `i` is among the first hundred expired ones that still hold a response. */
  predicate Due(rs: seq<Record>, now: int, i: nat)
    requires i < |rs|
  {
    && Compactable(rs[i], now)
    && |set j | 0 <= j < |rs| && Compactable(rs[j], now) && RecordBefore(rs, j, i)| < COMPACTION_BATCH
  }

  function Compact(rs: seq<Record>, now: int): (r: seq<Record>)
    ensures |r| == |rs|
    ensures forall i | 0 <= i < |rs| :: r[i] == if Due(rs, now, i) then rs[i].(response := None) else rs[i]
  {
    seq(|rs|, i requires 0 <= i < |rs| => if Due(rs, now, i) then rs[i].(response := None) else rs[i])
  }

  // ------------------------------------------------------------------ garbage collection

  predicate Collectable(c: Candidate, org: Id, now: int) {
    c.org == org && !c.stage.Published? && c.expiresAt <= now - RETENTION
  }

  predicate CandidateBefore(c: Candidate, d: Candidate) {
    c.expiresAt < d.expiresAt || (c.expiresAt == d.expiresAt && c.id < d.id)
  }

  /** The first twenty candidates of the organization that expired a retention period ago. */
  function Garbage(cs: seq<Candidate>, org: Id, now: int): set<Id> {
    set i | 0 <= i < |cs| && Collectable(cs[i], org, now)
            && |set j | 0 <= j < |cs| && Collectable(cs[j], org, now) && CandidateBefore(cs[j], cs[i])| < GC_BATCH
      :: cs[i].id
  }

  function KeepCandidates(cs: seq<Candidate>, gone: set<Id>): (r: seq<Candidate>)
    ensures forall c :: c in r <==> c in cs && c.id !in gone
  {
    if cs == [] then [] else (if cs[0].id in gone then [] else [cs[0]]) + KeepCandidates(cs[1..], gone)
  }

  predicate Referenced(r: Release, candidates: seq<Candidate>, assignments: seq<Assignment>) {
    || (exists k :: 0 <= k < |candidates| && candidates[k].release == r.id)
    || (exists k :: 0 <= k < |assignments| && assignments[k].release == r.id)
  }

  function KeepReleases(
      rs: seq<Release>, suspects: set<Id>, candidates: seq<Candidate>, assignments: seq<Assignment>): (r: seq<Release>)
    ensures forall x :: x in r <==> x in rs && (x.id !in suspects || Referenced(x, candidates, assignments))
  {
    if rs == [] then []
    else
      (if rs[0].id !in suspects || Referenced(rs[0], candidates, assignments) then [rs[0]] else [])
      + KeepReleases(rs[1..], suspects, candidates, assignments)
  }

  function ReleasesOf(cs: seq<Candidate>, ids: set<Id>): set<Id> {
    set i | 0 <= i < |cs| && cs[i].id in ids :: cs[i].release
  }

  function Collected(s: Store, org: Id, now: int): Store {
    var gone := Garbage(s.candidates, org, now);
    if gone == {} then s else
    var kept := KeepCandidates(s.candidates, gone);
    s.(candidates := kept,
       releases := KeepReleases(s.releases, ReleasesOf(s.candidates, gone), kept, s.assignments))
  }

  // ------------------------------------------------------------------ creating a candidate

  /** A candidate of the organization that is not published and, if asked, has not expired. */
  predicate Counts(c: Candidate, org: Id, after: Option<int>) {
    c.org == org && !c.stage.Published? && (after.Some? ==> c.expiresAt > after.value)
  }

  function CountOpen(cs: seq<Candidate>, org: Id, after: Option<int>): nat {
    if cs == [] then 0 else
    var last := cs[|cs| - 1];
    CountOpen(cs[..|cs| - 1], org, after)
    + if Counts(last, org, after) then 1 else 0
  }

  datatype Prepared = Ready(snapshot: ReleaseSnapshot, screens: seq<int>) | NotReady(reason: Reason)

  /** The checks between garbage collection and the first change. */
  function Prepare(s: Store, org: Id, data: CandidateInput, policy: Policy, now: int): Prepared {
    var screens := SortUnique(data.screens);
    if screens == [] || |screens| > MAX_SCREENS then NotReady(ScreenNotFound)
    else if CountOpen(s.candidates, org, Some(now)) >= MAX_PENDING then NotReady(TooLarge)
    else if CountOpen(s.candidates, org, None) >= MAX_UNPUBLISHED then NotReady(TooLarge)
    else
      var playlist := FindPlaylist(s.playlists, org, data.playlist);
      if playlist.None? then NotReady(PlaylistNotFound)
      else if !ScreensExist(s.screens, org, screens) then NotReady(ScreenNotFound)
      else
        var p := playlist.value;
        var assets := AssetsOf(p.items, s.media, org);
        var failure := policy(assets, now);
        if failure.Some? then NotReady(failure.value)
        else
          match FreezePlaylist(p.items, assets)
          case NoPlayableItems => NotReady(NothingPlayable)
          case AssetNotFound => NotReady(AssetMissing)
          case Frozen(items) => Ready(ReleaseSnapshot(p.id, p.updatedAt, p.name, p.description, items), screens)
  }

  /** The release the snapshot belongs to: the stored one with its digest, or a new one. */
  function ReleaseFor(s: Store, org: Id, snapshot: ReleaseSnapshot, actor: Id, now: int): Release {
    var found := FindByDigest(s.releases, org, OfRelease(snapshot));
    if found.Some? then found.value else Release(s.nextId, org, snapshot, OfRelease(snapshot), actor, now)
  }

  function NewCandidate(id: Id, org: Id, release: Release, snapshot: ReleaseSnapshot, data: CandidateInput,
      screens: seq<int>, actor: Id, now: int): Candidate
  {
    var c := CanonicalCandidate(OfRelease(snapshot), data.schedule, screens, data.expiresAt);
    Candidate(id, org, release.id, OfRelease(snapshot), data.playlist, Draft, OfCandidate(c), actor,
              snapshot.items, c.schedule, c.screens, c.expiresAt, now, None, None, None, None, None, None)
  }

  /** The changes of a successful create. */
  function Commit(s: Store, org: Id, data: CandidateInput, who: Caller, snapshot: ReleaseSnapshot, screens: seq<int>,
      now: int): (Store, Candidate)
  {
    var release := ReleaseFor(s, org, snapshot, who.actor, now);
    var isNew := FindByDigest(s.releases, org, OfRelease(snapshot)).None?;
    var id := if isNew then s.nextId + 1 else s.nextId;
    var c := NewCandidate(id, org, release, snapshot, data, screens, who.actor, now);
    (s.(releases := if isNew then s.releases + [release] else s.releases,
        candidates := s.candidates + [c],
        records := Compact(Remember(s.records, org, Create, who, c, now), now),
        nextId := id + 1),
     c)
  }

  function Created(s: Store, org: Id, data: CandidateInput, who: Caller, policy: Policy, now: int): (Store, Result) {
    if !Capable(s.users, org, who.actor, MayPerform(Create)) then (s, Refused(Forbidden)) else
    var replay := Replay(s, org, Create, who, now);
    if replay.Some? then (s, replay.value)
    else if data.expiresAt <= now || data.expiresAt > now + MAX_LIFETIME then (s, Refused(Expired))
    else
      var t := Collected(s, org, now);
      match Prepare(t, org, data, policy, now)
      case NotReady(reason) => (t, Refused(reason))
      case Ready(snapshot, screens) =>
        var (u, c) := Commit(t, org, data, who, snapshot, screens, now);
        (u, Completed(c, false))
  }

  // ------------------------------------------------------------------ submitting and approving

  function Advanced(s: Store, c: Candidate, op: Operation, actor: Identity.User, now: int): (Candidate, Id)
    requires op.Submit? || op.Approve?
  {
    if op.Submit? then (c.(stage := InReview, submittedAt := Some(now)), s.nextId)
    else
      (c.(stage := Approved, approvedAt := Some(now),
          approval := Some(Approval(s.nextId, c.org, c.id, c.digest, actor.id,
                                    actor.authenticationEpoch, actor.authorizationEpoch, now))),
       s.nextId + 1)
  }

  /** Why the candidate cannot make the transition, if it cannot. */
  function TransitionRefusal(c: Candidate, op: Operation, expected: Digest, actor: Id, now: int): Option<Reason> {
    if c.digest != expected || !ValidCandidateDigest(c) then Some(StaleDigest)
    else if c.expiresAt <= now then Some(Expired)
    else if op.Submit? then
      if c.author != actor then Some(Forbidden) else if !c.stage.Draft? then Some(InvalidState) else None
    else
      if c.author == actor then Some(AuthorCannotApprove) else if !c.stage.InReview? then Some(InvalidState) else None
  }

  function Transitioned(
      s: Store, org: Id, op: Operation, id: Id, expected: Digest, who: Caller, now: int): (Store, Result)
    requires op.Submit? || op.Approve?
  {
    if !Capable(s.users, org, who.actor, MayPerform(op)) then (s, Refused(Forbidden)) else
    var replay := Replay(s, org, op, who, now);
    if replay.Some? then (s, replay.value) else
    var k := FindCandidate(s.candidates, org, id);
    if k.None? then (s, Refused(NotFound)) else
    var c := s.candidates[k.value];
    var refusal := TransitionRefusal(c, op, expected, who.actor, now);
    if refusal.Some? then (s, Refused(refusal.value)) else
    var (d, next) := Advanced(s, c, op, Identity.FindActive(s.users, who.actor, org).value, now);
    (s.(candidates := s.candidates[k.value := d],
        records := Compact(Remember(s.records, org, op, who, d, now), now),
        nextId := next),
     Completed(d, false))
  }

  // ------------------------------------------------------------------ publishing and withdrawing

  /** The approver still holds the role and the epochs the approval was given under. */
  predicate ApprovalFresh(users: seq<Identity.User>, org: Id, a: Approval) {
    && Capable(users, org, a.approver, MayPerform(Approve))
    && var u := Identity.FindActive(users, a.approver, org).value;
       u.authenticationEpoch == a.authentication && u.authorizationEpoch == a.authorization
  }

  function AssetsIn(items: seq<FrozenItem>): seq<Asset> {
    seq(|items|, k requires 0 <= k < |items| => items[k].asset)
  }

  function PublicationRefusal(
      s: Store, org: Id, c: Candidate, expected: Digest, policy: Policy, now: int): Option<Reason>
  {
    if c.digest != expected || !ValidCandidateDigest(c) then Some(StaleDigest)
    else if c.expiresAt <= now then Some(Expired)
    else if !c.stage.Approved? || c.approval.None? then Some(InvalidState)
    else if c.approval.value.digest != c.digest then Some(ApprovalStale)
    else if !ApprovalFresh(s.users, org, c.approval.value) then Some(ApprovalStale)
    else
      var release := FindRelease(s.releases, org, c.release);
      if release.None? || release.value.digest != c.releaseDigest || !ValidReleaseDigest(release.value)
      then Some(StaleDigest)
      else
        var failure := policy(AssetsIn(release.value.content.items), now);
        if failure.Some? then failure
        else if !ScreensExist(s.screens, org, c.screens) then Some(ScreenNotFound) else None
  }

  function NewAssignment(s: Store, c: Candidate, actor: Id, now: int): Assignment {
    Assignment(s.nextId + 1, c.org, c.release, s.nextId, c.screens, Assigned, c.schedule,
               OfAssignment(CanonicalAssignment(c.releaseDigest, Assigned, c.schedule, c.screens, None)),
               None, actor, now)
  }

  function PublishedForm(s: Store, c: Candidate, now: int): Candidate {
    c.(stage := Published, publishedAt := Some(now), scheduleId := Some(s.nextId), assignmentId := Some(s.nextId + 1))
  }

  function PublishedStore(s: Store, k: nat, who: Caller, now: int): Store
    requires k < |s.candidates|
  {
    var c := s.candidates[k];
    var d := PublishedForm(s, c, now);
    s.(candidates := s.candidates[k := d],
       schedules := s.schedules + [ScheduleRecord(s.nextId, c.org, c.sourcePlaylist, c.release, s.nextId + 1)],
       assignments := s.assignments + [NewAssignment(s, c, who.actor, now)],
       records := Compact(Remember(s.records, c.org, Publish, who, d, now), now),
       nextId := s.nextId + 2)
  }

  function PublishedBy(
      s: Store, org: Id, id: Id, expected: Digest, who: Caller, policy: Policy, now: int): (Store, Result)
  {
    if !Capable(s.users, org, who.actor, MayPerform(Publish)) then (s, Refused(Forbidden)) else
    var replay := Replay(s, org, Publish, who, now);
    if replay.Some? then (s, replay.value) else
    var k := FindCandidate(s.candidates, org, id);
    if k.None? then (s, Refused(NotFound)) else
    var c := s.candidates[k.value];
    var refusal := PublicationRefusal(s, org, c, expected, policy, now);
    if refusal.Some? then (s, Refused(refusal.value)) else
    (PublishedStore(s, k.value, who, now), Completed(PublishedForm(s, c, now), false))
  }

  /** The last assignment made for a schedule. */
  function Latest(assignments: seq<Assignment>, schedule: Id): (r: Option<Assignment>)
    ensures r.Some? ==> r.value in assignments && r.value.scheduleId == schedule
    ensures r.None? ==> forall a | a in assignments :: a.scheduleId != schedule
  {
    if assignments == [] then None else
    var last := assignments[|assignments| - 1];
    assert assignments == assignments[..|assignments| - 1] + [last];
    if last.scheduleId == schedule then Some(last) else Latest(assignments[..|assignments| - 1], schedule)
  }

  function FindSchedule(ss: seq<ScheduleRecord>, org: Id, id: Id): (r: Option<ScheduleRecord>)
    ensures r.Some? ==> r.value in ss && r.value.org == org && r.value.id == id
    ensures r.None? ==> forall x | x in ss :: !(x.org == org && x.id == id)
  {
    if ss == [] then None
    else if ss[0].org == org && ss[0].id == id then Some(ss[0])
    else FindSchedule(ss[1..], org, id)
  }

  datatype Withdrawal = WithdrawnAs(assignment: Assignment) | NotWithdrawn(already: bool) | WithdrawForbidden

  function Withdraw(s: Store, org: Id, scheduleId: Id, actor: Id, now: int): Withdrawal {
    if !Capable(s.users, org, actor, MAY_WITHDRAW) then WithdrawForbidden else
    var schedule := FindSchedule(s.schedules, org, scheduleId);
    var previous := Latest(s.assignments, scheduleId);
    if schedule.None? || previous.None? then NotWithdrawn(false)
    else if previous.value.state.Withdrawn? then NotWithdrawn(true)
    else
      var release := FindRelease(s.releases, org, schedule.value.release);
      if release.None? then NotWithdrawn(false)
      else
        var p := previous.value;
        WithdrawnAs(Assignment(s.nextId, org, schedule.value.release, scheduleId, p.screens, Withdrawn, p.schedule,
          OfAssignment(CanonicalAssignment(release.value.digest, Withdrawn, p.schedule, p.screens, Some(p.id))),
          Some(p.id), actor, now))
  }

  function WithdrawnStore(s: Store, org: Id, scheduleId: Id, actor: Id, now: int): Store {
    var w := Withdraw(s, org, scheduleId, actor, now);
    if w.WithdrawnAs? then s.(assignments := s.assignments + [w.assignment], nextId := s.nextId + 1) else s
  }

  // ------------------------------------------------------------------ what is on air

  /** Whether a schedule's recurring window is open at an instant. */
  type OpenWindow = (Schedule, int) -> bool

  predicate OnAir(a: Assignment, screen: int, at: int, open: OpenWindow) {
    && a.state.Assigned?
    && screen in a.screens
    && a.schedule.enabled
    && a.schedule.startsAt <= at
    && (a.schedule.endsAt.Some? ==> at < a.schedule.endsAt.value)
    && open(a.schedule, at)
  }

  /** What one schedule plays on the screen. */
  function Plays(s: Store, schedule: ScheduleRecord, org: Id, screen: int, at: int,
      open: OpenWindow): Option<(Release, Assignment)>
  {
    if schedule.org != org then None else
    var latest := Latest(s.assignments, schedule.id);
    if latest.None? || latest.value.org != org || !OnAir(latest.value, screen, at, open) then None else
    var release := FindRelease(s.releases, org, latest.value.release);
    if release.None? || !ValidAssignmentDigest(latest.value, release.value) then None
    else Some((release.value, latest.value))
  }

  function ActiveReleases(s: Store, schedules: seq<ScheduleRecord>, org: Id, screen: int, at: int,
      open: OpenWindow): seq<(Release, Assignment)>
  {
    if schedules == [] then [] else
    var first := Plays(s, schedules[0], org, screen, at, open);
    (if first.Some? then [first.value] else []) + ActiveReleases(s, schedules[1..], org, screen, at, open)
  }

  datatype Delivery = Delivery(
    org: Id, screen: int, assignment: Id, assignmentDigest: Digest, asset: Id, storageKey: Id, checksum: Id,
    sizeBytes: int)

  const MAX_SAFE_INTEGER := 0x1F_FFFF_FFFF_FFFF

  function FindAssignment(assignments: seq<Assignment>, org: Id, id: Id): (r: Option<Assignment>)
    ensures r.Some? ==> r.value in assignments && r.value.org == org && r.value.id == id
    ensures r.None? ==> forall x | x in assignments :: !(x.org == org && x.id == id)
  {
    if assignments == [] then None
    else if assignments[0].org == org && assignments[0].id == id then Some(assignments[0])
    else FindAssignment(assignments[1..], org, id)
  }

  predicate Delivers(item: FrozenItem, d: Delivery, at: int) {
    && item.asset.id == d.asset && item.asset.storageKey == Some(d.storageKey)
    && item.asset.checksum == d.checksum && item.asset.sizeBytes == d.sizeBytes
    && (item.asset.expiresAt.Some? ==> at < item.asset.expiresAt.value)
  }

  predicate MediaAuthorized(s: Store, d: Delivery, at: int, open: OpenWindow) {
    && 1 <= d.sizeBytes <= MAX_SAFE_INTEGER
    && var a := FindAssignment(s.assignments, d.org, d.assignment);
       && a.Some?
       && a.value.digest == d.assignmentDigest
       && Latest(s.assignments, a.value.scheduleId).value.id == a.value.id
       && OnAir(a.value, d.screen, at, open)
       && var r := FindRelease(s.releases, d.org, a.value.release);
          && r.Some? && ValidAssignmentDigest(a.value, r.value)
          && exists k :: 0 <= k < |r.value.content.items| && Delivers(r.value.content.items[k], d, at)
  }
}
