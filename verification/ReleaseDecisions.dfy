/**
 What every call on a candidate comes to, case by case, in terms of the stored fields alone: the
 refusals in their order, and the whole store after a call that takes effect.
 */
module ReleaseDecisions {
  import opened Common
  import opened Batches
  import opened Canonical
  import opened Releases
  import opened ReleaseInvariants
  import opened Authority
  import Identity

  const THIRTY_DAYS := 2_592_000_000

  // ------------------------------------------------------------------ idempotency records

  ghost predicate UnderKey(r: Record, org: Id, op: Operation, key: Id) {
    r.org == org && r.operation == op && r.keyHash == key
  }

  ghost predicate KeyUsed(rs: seq<Record>, org: Id, op: Operation, key: Id) {
    exists k: nat :: k < |rs| && UnderKey(rs[k], org, op, key)
  }

  /** A used key answers for its one record, and nothing changes. */
  ghost predicate AnsweredFromRecord(s: Store, t: Store, r: Result, org: Id, op: Operation, who: Caller, now: int) {
    && t == s
    && exists k: nat ::
         && k < |s.records| && UnderKey(s.records[k], org, op, who.keyHash)
         && var existing := s.records[k];
            && (now < existing.expiresAt ==> existing.response.Some?)
            && r == if existing.actor != who.actor || existing.request != who.request then Refused(KeyReused)
                    else if existing.expiresAt <= now then Refused(KeyExpired)
                    else Completed(existing.response.value, true)
  }

  ghost function HoldsResponsePast(rs: seq<Record>, now: int): nat -> bool {
    (k: nat) => k < |rs| && rs[k].response.Some? && rs[k].expiresAt <= now
  }

  ghost function ByExpiry(rs: seq<Record>): Order {
    (i: nat, j: nat) => i < |rs| && j < |rs| &&
      (|| rs[i].expiresAt < rs[j].expiresAt
       || (rs[i].expiresAt == rs[j].expiresAt
           && (rs[i].keyHash < rs[j].keyHash || (rs[i].keyHash == rs[j].keyHash && i < j))))
  }

  /** The first hundred expired records that hold a response lose it; nothing else changes. */
  ghost predicate Compacted(rs: seq<Record>, ts: seq<Record>, now: int) {
    exists dropped: set<nat> ::
      && FirstFew(|rs|, HoldsResponsePast(rs, now), ByExpiry(rs), dropped, 100)
      && |ts| == |rs|
      && forall k: nat | k < |rs| :: ts[k] == if k in dropped then rs[k].(response := None) else rs[k]
  }

  /** The call is recorded with its response for thirty days. */
  ghost predicate Recorded(
      rs: seq<Record>, ts: seq<Record>, org: Id, op: Operation, who: Caller, c: Candidate, now: int)
  {
    Compacted(rs + [Record(org, op, who.keyHash, who.actor, who.request, now + THIRTY_DAYS, Some(c))], ts, now)
  }

  lemma {:induction false} CompactIsCompacted(rs: seq<Record>, now: int)
    ensures Compacted(rs, Compact(rs, now), now)
  {
    var n, eligible, before := |rs|, HoldsResponsePast(rs, now), ByExpiry(rs);
    var dropped := set k: nat | k < n && Due(rs, now, k);
    forall i: nat | i < n ensures Due(rs, now, i) <==> eligible(i) && |Ahead(n, eligible, before, i)| < 100 {
      assert Ahead(n, eligible, before, i)
             == set j | 0 <= j < n && Compactable(rs[j], now) && RecordBefore(rs, j, i);
    }
    assert StrictOrder(before, n);
    FewAreFirst(n, eligible, before, dropped, 100);
  }

  lemma {:induction false} RememberedIsRecorded(
      rs: seq<Record>, org: Id, op: Operation, who: Caller, c: Candidate, now: int)
    ensures Recorded(rs, Compact(Remember(rs, org, op, who, c, now), now), org, op, who, c, now)
  {
    hide Compact, Compacted;
    CompactIsCompacted(Remember(rs, org, op, who, c, now), now);
  }

  /** The two ways a key can stand: used, with its answer, or new. */
  lemma {:induction false} KeyDecides(s: Store, org: Id, op: Operation, who: Caller, now: int)
    requires Inv(s, now)
    ensures var replay := Replay(s, org, op, who, now);
            && (KeyUsed(s.records, org, op, who.keyHash) <==> replay.Some?)
            && (replay.Some? ==> AnsweredFromRecord(s, s, replay.value, org, op, who, now))
  {
    hide Replay, FindRecord, RecordsSound, CandidatesSound, ReleasesSound, AssignmentsSound, SchedulesSound;
    NewKeyIsNotReplayed(s, org, op, who, now);
    var k := FindRecord(s.records, org, op, who.keyHash);
    FoundRecord(s.records, org, op, who.keyHash);
    if k.Some? { RecordedAnswer(s, now, k.value, who); }
  }

  lemma {:induction false} FoundRecord(rs: seq<Record>, org: Id, op: Operation, key: Id)
    ensures var k := FindRecord(rs, org, op, key);
            && (k.Some? <==> KeyUsed(rs, org, op, key))
            && (k.Some? ==> k.value < |rs| && UnderKey(rs[k.value], org, op, key))
  {
  }

  // ------------------------------------------------------------------ candidates

  ghost predicate StoredAt(cs: seq<Candidate>, k: nat, org: Id, id: Id) {
    k < |cs| && cs[k].org == org && cs[k].id == id
  }

  lemma {:induction false} FoundCandidate(cs: seq<Candidate>, org: Id, id: Id)
    ensures var k := FindCandidate(cs, org, id);
            && (k.Some? ==> StoredAt(cs, k.value, org, id))
            && (k.None? ==> forall i: nat :: !StoredAt(cs, i, org, id))
  {
  }

  // ------------------------------------------------------------------ submitting

  /** What a submission comes to. */
  ghost predicate SubmitDecided(
      s: Store, t: Store, r: Result, org: Id, id: Id, expected: Digest, who: Caller, now: int)
  {
    if !ActsAs(s.users, org, who.actor, {Identity.Owner, Identity.Admin, Identity.Publisher}) then
      t == s && r == Refused(Forbidden)
    else if KeyUsed(s.records, org, Submit, who.keyHash) then AnsweredFromRecord(s, t, r, org, Submit, who, now)
    else if forall k: nat :: !StoredAt(s.candidates, k, org, id) then t == s && r == Refused(NotFound)
    else exists k: nat :: StoredAt(s.candidates, k, org, id) && SubmittedAt(s, t, r, k, expected, who, now)
  }

  ghost predicate SubmittedAt(s: Store, t: Store, r: Result, k: nat, expected: Digest, who: Caller, now: int)
    requires k < |s.candidates|
  {
    var c := s.candidates[k];
    if c.digest != expected then t == s && r == Refused(StaleDigest)
    else if c.expiresAt <= now then t == s && r == Refused(Expired)
    else if c.author != who.actor then t == s && r == Refused(Forbidden)
    else if c.stage != Draft then t == s && r == Refused(InvalidState)
    else
      var d := c.(stage := InReview, submittedAt := Some(now));
      && r == Completed(d, false)
      && t == s.(candidates := s.candidates[k := d], records := t.records)
      && Recorded(s.records, t.records, c.org, Submit, who, d, now)
  }

  /**
   In a sound store a submission takes effect exactly when its caller may submit, its key is new, and
   a stored candidate of the organization has the id, the digest named, time left, the stage of a
   draft and the caller as its author; it then moves that candidate to review and changes nothing
   else. Every other case is answered as listed.
   */
  lemma {:induction false} SubmitDecides(s: Store, org: Id, id: Id, expected: Digest, who: Caller, now: int)
    requires Inv(s, now)
    ensures var (t, r) := Transitioned(s, org, Submit, id, expected, who, now);
            && SubmitDecided(s, t, r, org, id, expected, who, now)
            && ((r.Completed? && !r.replayed) <==>
                  && ActsAs(s.users, org, who.actor, {Identity.Owner, Identity.Admin, Identity.Publisher})
                  && !KeyUsed(s.records, org, Submit, who.keyHash)
                  && exists c :: c in s.candidates && c.org == org && c.id == id && c.digest == expected
                       && now < c.expiresAt && c.stage == Draft && c.author == who.actor)
  {
    hide Replay, FindRecord, FindCandidate, ValidCandidateDigest, Compact, Remember, Recorded, AnsweredFromRecord,
         KeyUsed, RecordsSound, ReleasesSound, AssignmentsSound, SchedulesSound, HasRelease, ActsAs;
    var (t, r) := Transitioned(s, org, Submit, id, expected, who, now);
    var roles := {Identity.Owner, Identity.Admin, Identity.Publisher};
    ActingIsFound(s.users, org, who.actor, roles);
    KeyDecides(s, org, Submit, who, now);
    FoundCandidate(s.candidates, org, id);
    ReplayIsReplayed(s, org, Submit, who, now);
    var k := FindCandidate(s.candidates, org, id);
    if k.Some? {
      var c := s.candidates[k.value];
      assert CandidateSound(c);
      RememberedIsRecorded(s.records, org, Submit, who, c.(stage := InReview, submittedAt := Some(now)), now);
      OnlyOneStored(s.candidates, k.value, org, id);
      assert c in s.candidates;
    }
  }

  lemma {:induction false} ReplayIsReplayed(s: Store, org: Id, op: Operation, who: Caller, now: int)
    ensures var r := Replay(s, org, op, who, now); r.Some? && r.value.Completed? ==> r.value.replayed
  {
  }

  lemma {:induction false} OnlyOneStored(cs: seq<Candidate>, k: nat, org: Id, id: Id)
    requires DistinctIds(cs) && StoredAt(cs, k, org, id)
    ensures forall c | c in cs && c.org == org && c.id == id :: c == cs[k]
  {
  }

  // ------------------------------------------------------------------ approving

  /** What an approval comes to. */
  ghost predicate ApproveDecided(
      s: Store, t: Store, r: Result, org: Id, id: Id, expected: Digest, who: Caller, now: int)
  {
    if !ActsAs(s.users, org, who.actor, {Identity.Owner, Identity.Admin}) then t == s && r == Refused(Forbidden)
    else if KeyUsed(s.records, org, Approve, who.keyHash) then AnsweredFromRecord(s, t, r, org, Approve, who, now)
    else if forall k: nat :: !StoredAt(s.candidates, k, org, id) then t == s && r == Refused(NotFound)
    else
      exists k: nat, u ::
        && StoredAt(s.candidates, k, org, id) && ActiveRow(s.users, org, who.actor, u)
        && ApprovedAt(s, t, r, k, expected, who, u, now)
  }

  ghost predicate ApprovedAt(
      s: Store, t: Store, r: Result, k: nat, expected: Digest, who: Caller, u: Identity.User, now: int)
    requires k < |s.candidates|
  {
    var c := s.candidates[k];
    if c.digest != expected then t == s && r == Refused(StaleDigest)
    else if c.expiresAt <= now then t == s && r == Refused(Expired)
    else if c.author == who.actor then t == s && r == Refused(AuthorCannotApprove)
    else if c.stage != InReview then t == s && r == Refused(InvalidState)
    else
      var approval := Approval(s.nextId, c.org, c.id, c.digest, who.actor, u.authenticationEpoch, u.authorizationEpoch,
                               now);
      var d := c.(stage := Approved, approvedAt := Some(now), approval := Some(approval));
      && r == Completed(d, false)
      && t == s.(candidates := s.candidates[k := d], records := t.records, nextId := s.nextId + 1)
      && Recorded(s.records, t.records, c.org, Approve, who, d, now)
  }

  /**
   In a sound store an approval takes effect exactly when its caller is an owner or admin, its key is
   new, and a stored candidate of the organization has the id, the digest named, time left, is in
   review and has another author; it then carries the approver's epochs of now. Every other case is
   answered as listed.
   */
  lemma {:induction false} ApproveDecides(s: Store, org: Id, id: Id, expected: Digest, who: Caller, now: int)
    requires Inv(s, now)
    ensures var (t, r) := Transitioned(s, org, Approve, id, expected, who, now);
            && ApproveDecided(s, t, r, org, id, expected, who, now)
            && ((r.Completed? && !r.replayed) <==>
                  && ActsAs(s.users, org, who.actor, {Identity.Owner, Identity.Admin})
                  && !KeyUsed(s.records, org, Approve, who.keyHash)
                  && exists c :: c in s.candidates && c.org == org && c.id == id && c.digest == expected
                       && now < c.expiresAt && c.stage == InReview && c.author != who.actor)
  {
    hide Replay, FindRecord, FindCandidate, ValidCandidateDigest, Compact, Remember, Recorded, AnsweredFromRecord,
         KeyUsed, RecordsSound, ReleasesSound, AssignmentsSound, SchedulesSound, HasRelease, ActsAs, ActiveRow,
         Identity.FindActive;
    var (t, r) := Transitioned(s, org, Approve, id, expected, who, now);
    ActingIsFound(s.users, org, who.actor, {Identity.Owner, Identity.Admin});
    KeyDecides(s, org, Approve, who, now);
    FoundCandidate(s.candidates, org, id);
    ReplayIsReplayed(s, org, Approve, who, now);
    var k, u := FindCandidate(s.candidates, org, id), Identity.FindActive(s.users, who.actor, org);
    if k.Some? && u.Some? {
      var c := s.candidates[k.value];
      assert CandidateSound(c);
      ActiveRowIsFound(s.users, org, who.actor, u.value);
      FoundUser(s.users, org, who.actor);
      var d := Advanced(s, c, Approve, u.value, now).0;
      RememberedIsRecorded(s.records, org, Approve, who, d, now);
      OnlyOneStored(s.candidates, k.value, org, id);
      assert c in s.candidates;
    }
  }

  lemma {:induction false} FoundUser(users: seq<Identity.User>, org: Id, user: Id)
    ensures var u := Identity.FindActive(users, user, org); u.Some? ==> u.value.id == user && u.value.org == org
  {
  }

  ghost predicate TransitionDecided(
      s: Store, t: Store, r: Result, org: Id, op: Operation, id: Id, expected: Digest, who: Caller, now: int)
    requires op.Submit? || op.Approve?
  {
    if op == Submit then SubmitDecided(s, t, r, org, id, expected, who, now)
    else ApproveDecided(s, t, r, org, id, expected, who, now)
  }

  lemma {:induction false} TransitionDecides(
      s: Store, org: Id, op: Operation, id: Id, expected: Digest, who: Caller, now: int)
    requires Inv(s, now) && (op.Submit? || op.Approve?)
    ensures var (t, r) := Transitioned(s, org, op, id, expected, who, now);
            TransitionDecided(s, t, r, org, op, id, expected, who, now)
  {
    hide Transitioned, SubmitDecided, ApproveDecided;
    if op.Submit? {
      SubmitDecides(s, org, id, expected, who, now);
    } else {
      ApproveDecides(s, org, id, expected, who, now);
    }
  }

  // ------------------------------------------------------------------ digests, by what they cover

  /** The same schedule, its days listed once each and in order. */
  ghost predicate InOrder(canonical: Schedule, schedule: Schedule) {
    && canonical == schedule.(daysOfWeek := canonical.daysOfWeek)
    && Increasing(canonical.daysOfWeek) && forall d :: d in canonical.daysOfWeek <==> d in schedule.daysOfWeek
  }

  ghost predicate ListedInOrder(canonical: seq<int>, ids: seq<int>) {
    Increasing(canonical) && forall x :: x in canonical <==> x in ids
  }

  ghost predicate CoversAssignment(d: Digest, releaseDigest: Digest, state: AssignmentState, schedule: Schedule,
      screens: seq<int>, previous: Option<Id>)
  {
    && d.OfAssignment? && d.assignment.releaseDigest == releaseDigest && d.assignment.state == state
    && InOrder(d.assignment.schedule, schedule) && ListedInOrder(d.assignment.screens, screens)
    && d.assignment.previous == previous
  }

  lemma {:induction false} AssignmentIsCovered(releaseDigest: Digest, state: AssignmentState, schedule: Schedule,
      screens: seq<int>, previous: Option<Id>)
    ensures CoversAssignment(OfAssignment(CanonicalAssignment(releaseDigest, state, schedule, screens, previous)),
                             releaseDigest, state, schedule, screens, previous)
  {
  }

  // ------------------------------------------------------------------ publishing

  /** The user still acts as owner or admin, under these epochs. */
  ghost predicate StillApproves(users: seq<Identity.User>, org: Id, a: Approval) {
    exists u ::
      && ActiveRow(users, org, a.approver, u) && u.role in {Identity.Owner, Identity.Admin}
      && u.authenticationEpoch == a.authentication && u.authorizationEpoch == a.authorization
  }

  ghost function AssetsOfItems(items: seq<FrozenItem>): seq<Asset> {
    if items == [] then [] else [items[0].asset] + AssetsOfItems(items[1..])
  }

  ghost predicate AllStored(screens: seq<Screen>, org: Id, ids: seq<int>) {
    forall x | x in ids :: exists k: nat :: k < |screens| && screens[k].org == org && screens[k].id == x
  }

  /** What a publication comes to. */
  ghost predicate PublishDecided(
      s: Store, t: Store, r: Result, org: Id, id: Id, expected: Digest, who: Caller, policy: Policy, now: int)
  {
    if !ActsAs(s.users, org, who.actor, {Identity.Owner, Identity.Admin, Identity.Publisher}) then
      t == s && r == Refused(Forbidden)
    else if KeyUsed(s.records, org, Publish, who.keyHash) then AnsweredFromRecord(s, t, r, org, Publish, who, now)
    else if forall k: nat :: !StoredAt(s.candidates, k, org, id) then t == s && r == Refused(NotFound)
    else
      exists k: nat ::
        StoredAt(s.candidates, k, org, id) && BarredOrPublished(s, t, r, k, expected, who, policy, now)
  }

  ghost predicate BarredOrPublished(
      s: Store, t: Store, r: Result, k: nat, expected: Digest, who: Caller, policy: Policy, now: int)
    requires k < |s.candidates|
  {
    var bar := PublicationBar(s, s.candidates[k], expected, policy, now);
    if bar.Some? then t == s && r == Refused(bar.value) else PublishedAt(s, t, r, k, who, now)
  }

  /** The first thing that stands in the way of a publication, if anything does. */
  ghost function PublicationBar(s: Store, c: Candidate, expected: Digest, policy: Policy, now: int): Option<Reason> {
    if c.digest != expected then Some(StaleDigest)
    else if c.expiresAt <= now then Some(Expired)
    else if c.stage != Approved || c.approval.None? then Some(InvalidState)
    else if !StillApproves(s.users, c.org, c.approval.value) then Some(ApprovalStale)
    else if policy(AssetsOfItems(c.items), now).Some? then policy(AssetsOfItems(c.items), now)
    else if !AllStored(s.screens, c.org, c.screens) then Some(ScreenNotFound)
    else None
  }

  /** The candidate is on a schedule of its own, by one assignment of its release to its screens. */
  ghost predicate PublishedAt(s: Store, t: Store, r: Result, k: nat, who: Caller, now: int)
    requires k < |s.candidates|
  {
    var c, scheduleId, assignmentId := s.candidates[k], s.nextId, s.nextId + 1;
    var d := c.(stage := Published, publishedAt := Some(now), scheduleId := Some(scheduleId),
                assignmentId := Some(assignmentId));
    && r == Completed(d, false)
    && |t.assignments| == |s.assignments| + 1
    && var a := t.assignments[|s.assignments|];
       && a == Assignment(assignmentId, c.org, c.release, scheduleId, c.screens, Assigned, c.schedule, a.digest, None,
                          who.actor, now)
       && CoversAssignment(a.digest, c.releaseDigest, Assigned, c.schedule, c.screens, None)
       && t == s.(candidates := s.candidates[k := d],
                  schedules :=
                    s.schedules + [ScheduleRecord(scheduleId, c.org, c.sourcePlaylist, c.release, assignmentId)],
                  assignments := s.assignments + [a], records := t.records, nextId := s.nextId + 2)
       && Recorded(s.records, t.records, c.org, Publish, who, d, now)
  }

  lemma {:induction false} StillApprovesIsFresh(users: seq<Identity.User>, org: Id, a: Approval)
    ensures ApprovalFresh(users, org, a) <==> StillApproves(users, org, a)
  {
    hide Identity.FindActive, ActiveRow;
    var found := Identity.FindActive(users, a.approver, org);
    if found.Some? { ActiveRowIsFound(users, org, a.approver, found.value); }
    if StillApproves(users, org, a) {
      var u :| ActiveRow(users, org, a.approver, u) && u.role in {Identity.Owner, Identity.Admin}
               && u.authenticationEpoch == a.authentication && u.authorizationEpoch == a.authorization;
      ActiveRowIsFound(users, org, a.approver, u);
    }
  }

  lemma {:induction false} ItemsHaveAssets(items: seq<FrozenItem>)
    ensures AssetsIn(items) == AssetsOfItems(items)
  {
    if items != [] {
      ItemsHaveAssets(items[1..]);
      assert AssetsIn(items) == [items[0].asset] + AssetsIn(items[1..]);
    }
  }

  lemma {:induction false} StoredMeansExist(screens: seq<Screen>, org: Id, ids: seq<int>)
    ensures ScreensExist(screens, org, ids) <==> AllStored(screens, org, ids)
  {
    if ScreensExist(screens, org, ids) {
      forall x | x in ids ensures exists k: nat :: k < |screens| && screens[k].org == org && screens[k].id == x {
        var i :| 0 <= i < |ids| && ids[i] == x;
        assert ScreenExists(screens, org, ids[i]);
      }
    }
    if AllStored(screens, org, ids) {
      forall i | 0 <= i < |ids| ensures ScreenExists(screens, org, ids[i]) { assert ids[i] in ids; }
    }
  }

  /** In a sound store the checks of a publication find the first thing in its way. */
  lemma {:induction false} BarIsRefusal(
      s: Store, k: nat, expected: Digest, policy: Policy, now: int)
    requires Inv(s, now) && k < |s.candidates|
    ensures var c := s.candidates[k];
            PublicationRefusal(s, c.org, c, expected, policy, now) == PublicationBar(s, c, expected, policy, now)
  {
    hide AssignmentsSound, SchedulesSound, RecordsSound, ApprovalFresh, StillApproves, ScreensExist, AllStored,
         AssetsIn, AssetsOfItems;
    var c := s.candidates[k];
    assert CandidateSound(c);
    if c.approval.Some? { StillApprovesIsFresh(s.users, c.org, c.approval.value); }
    var r :| r in s.releases && r.org == c.org && r.id == c.release && r.digest == c.releaseDigest;
    FindReleaseFinds(s.releases, s.nextId, r);
    ItemsHaveAssets(c.items);
    StoredMeansExist(s.screens, c.org, c.screens);
  }

  lemma {:induction false} PublishedStoreIs(s: Store, k: nat, who: Caller, now: int)
    requires k < |s.candidates|
    ensures PublishedAt(s, PublishedStore(s, k, who, now),
                        Completed(PublishedForm(s, s.candidates[k], now), false), k, who, now)
  {
    hide Compact, Remember, Recorded, CoversAssignment, CanonicalAssignment;
    var c := s.candidates[k];
    AssignmentIsCovered(c.releaseDigest, Assigned, c.schedule, c.screens, None);
    RememberedIsRecorded(s.records, c.org, Publish, who, PublishedForm(s, c, now), now);
  }

  /**
   In a sound store a publication takes effect exactly when its caller may publish, its key is new, and
   a stored candidate of the organization has the id with nothing in the way; it is then on screen by
   one assignment. Every other case is answered as listed.
   */
  lemma {:induction false} PublishDecides(
      s: Store, org: Id, id: Id, expected: Digest, who: Caller, policy: Policy, now: int)
    requires Inv(s, now)
    ensures var (t, r) := PublishedBy(s, org, id, expected, who, policy, now);
            && PublishDecided(s, t, r, org, id, expected, who, policy, now)
            && ((r.Completed? && !r.replayed) <==>
                  && ActsAs(s.users, org, who.actor, {Identity.Owner, Identity.Admin, Identity.Publisher})
                  && !KeyUsed(s.records, org, Publish, who.keyHash)
                  && exists c :: c in s.candidates && c.org == org && c.id == id
                       && PublicationBar(s, c, expected, policy, now).None?)
  {
    hide Replay, FindRecord, FindCandidate, AnsweredFromRecord, KeyUsed, ActsAs, Inv, PublicationRefusal,
         PublicationBar, PublishedStore, PublishedForm, PublishedAt;
    var (t, r) := PublishedBy(s, org, id, expected, who, policy, now);
    ActingIsFound(s.users, org, who.actor, {Identity.Owner, Identity.Admin, Identity.Publisher});
    KeyDecides(s, org, Publish, who, now);
    FoundCandidate(s.candidates, org, id);
    ReplayIsReplayed(s, org, Publish, who, now);
    var k := FindCandidate(s.candidates, org, id);
    if k.Some? {
      BarIsRefusal(s, k.value, expected, policy, now);
      PublishedStoreIs(s, k.value, who, now);
      IdsDiffer(s, now);
      OnlyOneStored(s.candidates, k.value, org, id);
      assert s.candidates[k.value] in s.candidates;
    }
  }

  lemma {:induction false} IdsDiffer(s: Store, now: int)
    requires Inv(s, now)
    ensures DistinctIds(s.candidates)
  {
  }

  // ------------------------------------------------------------------ withdrawing

  /** The last assignment made for a schedule. */
  ghost predicate LastFor(as_: seq<Assignment>, schedule: Id, a: Assignment) {
    exists k: nat ::
      && k < |as_| && as_[k] == a && a.scheduleId == schedule
      && forall j: nat | k < j < |as_| :: as_[j].scheduleId != schedule
  }

  lemma {:induction false} LatestIsLastFor(as_: seq<Assignment>, schedule: Id, a: Assignment)
    ensures Latest(as_, schedule) == Some(a) <==> LastFor(as_, schedule, a)
  {
    hide Latest;
    FoundIsLastFor(as_, schedule);
    if LastFor(as_, schedule, a) {
      assert a in as_;
      assert Latest(as_, schedule).Some?;
    }
  }

  lemma {:induction false} FoundIsLastFor(as_: seq<Assignment>, schedule: Id)
    ensures var found := Latest(as_, schedule); found.Some? ==> LastFor(as_, schedule, found.value)
  {
    var found := Latest(as_, schedule);
    if found.Some? {
      var n := |as_| - 1;
      if as_[n].scheduleId != schedule {
        FoundIsLastFor(as_[..n], schedule);
        LastForLonger(as_, schedule, found.value);
      }
    }
  }

  lemma {:induction false} LastForLonger(as_: seq<Assignment>, schedule: Id, a: Assignment)
    requires as_ != [] && as_[|as_| - 1].scheduleId != schedule && LastFor(as_[..|as_| - 1], schedule, a)
    ensures LastFor(as_, schedule, a)
  {
    var n := |as_| - 1;
    var front := as_[..n];
    var k: nat :| k < |front| && front[k] == a && a.scheduleId == schedule
                  && forall j: nat | k < j < |front| :: front[j].scheduleId != schedule;
    assert as_[k] == a;
    assert forall j: nat | k < j < n :: as_[j] == front[j];
  }

  /** What a withdrawal comes to. */
  ghost predicate WithdrawDecided(s: Store, t: Store, r: Withdrawal, org: Id, schedule: Id, actor: Id, now: int) {
    if !ActsAs(s.users, org, actor, {Identity.Owner, Identity.Admin, Identity.Publisher}) then
      t == s && r == WithdrawForbidden
    else if forall x | x in s.schedules :: !(x.org == org && x.id == schedule) then t == s && r == NotWithdrawn(false)
    else
      exists last, release ::
        && LastFor(s.assignments, schedule, last)
        && release in s.releases && release.org == org && release.id == last.release
        && if last.state == Withdrawn then t == s && r == NotWithdrawn(true)
           else
             && r.WithdrawnAs?
             && var a := r.assignment;
                && a == Assignment(s.nextId, org, last.release, schedule, last.screens, Withdrawn, last.schedule,
                                   a.digest,
                                   Some(last.id), actor, now)
                && CoversAssignment(a.digest, release.digest, Withdrawn, last.schedule, last.screens, Some(last.id))
                && t == s.(assignments := s.assignments + [a], nextId := s.nextId + 1)
  }

  /**
   In a sound store a schedule of the organization is withdrawn exactly when its last assignment is not
   a withdrawal, by a record that points back to it and repeats its release, schedule and screens.
   */
  lemma {:induction false} WithdrawDecides(s: Store, org: Id, schedule: Id, actor: Id, now: int)
    requires Inv(s, now)
    ensures WithdrawDecided(s, WithdrawnStore(s, org, schedule, actor, now), Withdraw(s, org, schedule, actor, now),
                            org, schedule, actor, now)
  {
    hide CandidatesSound, RecordsSound, ActsAs, History, CanonicalAssignment, CoversAssignment, ValidAssignmentDigest,
         Latest, LastFor, Identity.FindActive;
    ActingIsFound(s.users, org, actor, {Identity.Owner, Identity.Admin, Identity.Publisher});
    var record := FindSchedule(s.schedules, org, schedule);
    if record.Some? {
      var h := History(s.assignments, schedule);
      LatestIsLast(s.assignments, schedule);
      HistoryMembers(s.assignments, schedule);
      assert HistoryShape(h);
      var last := h[|h| - 1];
      assert last in h && last in s.assignments;
      assert AssignmentSound(last, s.schedules, s.releases, s.nextId);
      LatestIsLastFor(s.assignments, schedule, last);
      var release :| release in s.releases && release.org == last.org && release.id == last.release
                     && ValidAssignmentDigest(last, release);
      FindReleaseFinds(s.releases, s.nextId, release);
      AssignmentIsCovered(release.digest, Withdrawn, last.schedule, last.screens, Some(last.id));
    }
  }
}
