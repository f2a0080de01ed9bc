/** What every operation of the release workflow keeps. */
module ReleaseInvariants {
  import opened Common
  import opened Canonical
  import opened Releases
  import Identity

  // ------------------------------------------------------------------ the invariant

  function Rank(stage: Stage): nat {
    match stage case Draft => 0 case InReview => 1 case Approved => 2 case Published => 3
  }

  /** The candidate as it was when the operation completed: later fields erased, the stage set back. */
  function Erase(op: Operation, c: Candidate): Candidate {
    match op
    case Create =>
      c.(stage := Draft, submittedAt := None, approvedAt := None, approval := None,
         publishedAt := None, scheduleId := None, assignmentId := None)
    case Submit =>
      c.(stage := InReview, approvedAt := None, approval := None,
         publishedAt := None, scheduleId := None, assignmentId := None)
    case Approve =>
      c.(stage := Approved, publishedAt := None, scheduleId := None, assignmentId := None)
    case Publish => c
  }

  ghost predicate ApprovalSound(c: Candidate) {
    && c.approval.Some?
    && c.approval.value.digest == c.digest && c.approval.value.candidate == c.id && c.approval.value.org == c.org
    && c.approval.value.approver != c.author
  }

  /**
   A candidate holds exactly the fields of its stage, its digest covers what it holds, and its items are
   its release's.
   */
  ghost predicate CandidateSound(c: Candidate) {
    && ValidCandidateDigest(c)
    && c.releaseDigest.OfRelease? && c.items == c.releaseDigest.release.items
    && (c.submittedAt.Some? <==> Rank(c.stage) >= 1)
    && (c.approvedAt.Some? <==> Rank(c.stage) >= 2)
    && (c.approval.Some? <==> Rank(c.stage) >= 2)
    && (c.approval.Some? ==> ApprovalSound(c))
    && (c.publishedAt.Some? <==> c.stage.Published?)
    && (c.scheduleId.Some? <==> c.stage.Published?)
    && (c.assignmentId.Some? <==> c.stage.Published?)
  }

  ghost predicate HasRelease(releases: seq<Release>, org: Id, id: Id, digest: Digest) {
    exists r :: r in releases && r.org == org && r.id == id && r.digest == digest
  }

  ghost predicate DistinctIds(cs: seq<Candidate>) {
    forall i, j | 0 <= i < j < |cs| :: cs[i].id != cs[j].id
  }

  ghost predicate CandidatesSound(cs: seq<Candidate>, releases: seq<Release>, next: Id) {
    && DistinctIds(cs)
    && (forall c | c in cs ::
          c.id < next && CandidateSound(c) && HasRelease(releases, c.org, c.release, c.releaseDigest))
  }

  ghost predicate ReleasesSound(releases: seq<Release>, next: Id) {
    && (forall r | r in releases :: r.id < next && ValidReleaseDigest(r))
    && (forall r, t | r in releases && t in releases && r.id == t.id :: r == t)
  }

  ghost predicate AssignmentSound(a: Assignment, schedules: seq<ScheduleRecord>, releases: seq<Release>, next: Id) {
    && a.id < next && a.scheduleId < next
    && (exists s :: s in schedules && s.id == a.scheduleId && s.org == a.org && s.release == a.release)
    && (exists r :: r in releases && r.org == a.org && r.id == a.release && ValidAssignmentDigest(a, r))
  }

  ghost predicate AssignmentsSound(
      as_: seq<Assignment>, schedules: seq<ScheduleRecord>, releases: seq<Release>, next: Id)
  {
    && (forall a | a in as_ :: AssignmentSound(a, schedules, releases, next))
    && (forall i, j | 0 <= i < j < |as_| :: as_[i].id != as_[j].id)
  }

  /** The assignments made for a schedule, oldest first. */
  function History(as_: seq<Assignment>, schedule: Id): seq<Assignment> {
    if as_ == [] then [] else
    var last := as_[|as_| - 1];
    History(as_[..|as_| - 1], schedule) + if last.scheduleId == schedule then [last] else []
  }

  /** Assigned once, and at most once withdrawn, by a record that points back and repeats what it withdraws. */
  ghost predicate HistoryShape(h: seq<Assignment>) {
    && 1 <= |h| <= 2
    && h[0].state.Assigned? && h[0].previous.None?
    && (|h| == 2 ==>
          && h[1].state.Withdrawn? && h[1].previous == Some(h[0].id)
          && h[1].release == h[0].release && h[1].screens == h[0].screens && h[1].schedule == h[0].schedule)
  }

  ghost predicate SchedulesSound(schedules: seq<ScheduleRecord>, as_: seq<Assignment>, next: Id) {
    && (forall s, t | s in schedules && t in schedules && s.id == t.id :: s == t)
    && (forall s | s in schedules :: s.id < next && HistoryShape(History(as_, s.id)))
  }

  /** The live candidate from which the response of a record can be read back. */
  ghost predicate Supports(r: Record, c: Candidate)
    requires r.response.Some?
  {
    && c.id == r.response.value.id && c.org == r.org
    && Rank(c.stage) >= Rank(ExpectedStage(r.operation))
    && Erase(r.operation, c) == r.response.value
  }

  ghost predicate HasSupport(r: Record, cs: seq<Candidate>)
    requires r.response.Some?
  {
    exists c :: c in cs && Supports(r, c)
  }

  /** A response is dropped only after its record has expired, and until then its candidate is there. */
  ghost predicate RecordSound(r: Record, cs: seq<Candidate>, now: int) {
    && (r.response.None? ==> r.expiresAt <= now)
    && (r.response.Some? ==>
          && r.expiresAt < r.response.value.expiresAt + RETENTION
          && (now < r.expiresAt ==> HasSupport(r, cs)))
  }

  ghost predicate RecordsSound(rs: seq<Record>, cs: seq<Candidate>, now: int) {
    && (forall k | 0 <= k < |rs| :: RecordSound(rs[k], cs, now))
    && (forall i, j | 0 <= i < j < |rs| :: !HasKey(rs[j], rs[i].org, rs[i].operation, rs[i].keyHash))
  }

  ghost predicate Inv(s: Store, now: int) {
    && CandidatesSound(s.candidates, s.releases, s.nextId)
    && ReleasesSound(s.releases, s.nextId)
    && AssignmentsSound(s.assignments, s.schedules, s.releases, s.nextId)
    && SchedulesSound(s.schedules, s.assignments, s.nextId)
    && RecordsSound(s.records, s.candidates, now)
  }

  // ------------------------------------------------------------------ lookups under the invariant

  lemma {:induction false} FindCandidateFinds(cs: seq<Candidate>, k: nat)
    requires k < |cs| && DistinctIds(cs)
    ensures FindCandidate(cs, cs[k].org, cs[k].id) == Some(k)
  {
    if k > 0 {
      FindCandidateFinds(cs[1..], k - 1);
    }
  }

  lemma {:induction false} FindReleaseFinds(releases: seq<Release>, next: Id, r: Release)
    requires ReleasesSound(releases, next) && r in releases
    ensures FindRelease(releases, r.org, r.id) == Some(r)
  {
  }

  // ------------------------------------------------------------------ records

  /** Compaction drops responses of expired records only, so nothing that can still be replayed is lost. */
  lemma {:induction false} CompactKeeps(rs: seq<Record>, cs: seq<Candidate>, now: int)
    requires RecordsSound(rs, cs, now)
    ensures RecordsSound(Compact(rs, now), cs, now)
  {
    hide Due;
    var r := Compact(rs, now);
    forall k | 0 <= k < |rs| ensures RecordSound(r[k], cs, now) {
      assert RecordSound(rs[k], cs, now);
      if Due(rs, now, k) { DueIsExpired(rs, now, k); }
    }
  }

  lemma {:induction false} DueIsExpired(rs: seq<Record>, now: int, i: nat)
    requires i < |rs| && Due(rs, now, i)
    ensures rs[i].expiresAt <= now
  {
  }

  lemma {:induction false} RememberedIsSound(
      rs: seq<Record>, cs: seq<Candidate>, org: Id, op: Operation, who: Caller, c: Candidate, now: int)
    requires RecordsSound(rs, cs, now) && FindRecord(rs, org, op, who.keyHash).None?
    requires c in cs && c.org == org && c.stage == ExpectedStage(op) && Erase(op, c) == c && now < c.expiresAt
    ensures RecordsSound(Remember(rs, org, op, who, c, now), cs, now)
  {
    hide Erase;
    var after := Remember(rs, org, op, who, c, now);
    var last := after[|rs|];
    assert Supports(last, c);
    assert RecordSound(last, cs, now);
    assert forall k | 0 <= k < |rs| :: RecordSound(after[k], cs, now);
  }

  lemma {:induction false} RememberKeeps(
      rs: seq<Record>, cs: seq<Candidate>, org: Id, op: Operation, who: Caller, c: Candidate, now: int)
    requires RecordsSound(rs, cs, now) && FindRecord(rs, org, op, who.keyHash).None?
    requires c in cs && c.org == org && c.stage == ExpectedStage(op) && Erase(op, c) == c && now < c.expiresAt
    ensures RecordsSound(Compact(Remember(rs, org, op, who, c, now), now), cs, now)
  {
    hide Due, Compact, Erase, Remember, RecordsSound;
    RememberedIsSound(rs, cs, org, op, who, c, now);
    CompactKeeps(Remember(rs, org, op, who, c, now), cs, now);
  }

  /** Records stay sound while every candidate that a live record needs is still supported. */
  lemma {:induction false} SupportCarries(rs: seq<Record>, cs: seq<Candidate>, ds: seq<Candidate>, now: int)
    requires RecordsSound(rs, cs, now)
    requires forall r | r in rs && r.response.Some? && now < r.expiresAt && HasSupport(r, cs) :: HasSupport(r, ds)
    ensures RecordsSound(rs, ds, now)
  {
    forall k | 0 <= k < |rs| ensures RecordSound(rs[k], ds, now) {
      assert RecordSound(rs[k], cs, now) && rs[k] in rs;
    }
  }

  lemma {:induction false} TimePasses(s: Store, now: int, later: int)
    requires Inv(s, now) && now <= later
    ensures Inv(s, later)
  {
    forall k | 0 <= k < |s.records| ensures RecordSound(s.records[k], s.candidates, later) {
      assert RecordSound(s.records[k], s.candidates, now);
    }
  }

  // ------------------------------------------------------------------ replay never fails

  lemma {:induction false} RecordIsSound(s: Store, now: int, k: nat)
    requires RecordsSound(s.records, s.candidates, now) && k < |s.records| && now < s.records[k].expiresAt
    ensures s.records[k].response.Some? && exists c :: c in s.candidates && Supports(s.records[k], c)
  {
    hide Supports;
    assert RecordSound(s.records[k], s.candidates, now);
  }

  lemma {:induction false} SupportIsFound(s: Store, r: Record, i: nat)
    requires CandidatesSound(s.candidates, s.releases, s.nextId) && i < |s.candidates|
    requires r.response.Some? && Supports(r, s.candidates[i])
    ensures FindCandidate(s.candidates, r.org, r.response.value.id) == Some(i)
    ensures CandidateSound(s.candidates[i])
  {
    hide CandidateSound, HasRelease;
    FindCandidateFinds(s.candidates, i);
    assert s.candidates[i] in s.candidates;
  }

  lemma {:induction false} SupportIsValid(r: Record, c: Candidate)
    requires r.response.Some? && Supports(r, c) && CandidateSound(c)
    ensures ReferencesValid(r.org, r.operation, r.response.value, c)
  {
    hide ValidCandidateDigest;
  }

  /** A live record's references are valid: its candidate is stored, and passes every check of the replay. */
  lemma {:induction false} ReferencesAreValid(s: Store, now: int, k: nat)
    requires RecordsSound(s.records, s.candidates, now) && CandidatesSound(s.candidates, s.releases, s.nextId)
    requires k < |s.records| && now < s.records[k].expiresAt
    ensures var r := s.records[k];
            && r.response.Some?
            && var live := FindCandidate(s.candidates, r.org, r.response.value.id);
               && live.Some?
               && Supports(r, s.candidates[live.value])
               && ReferencesValid(r.org, r.operation, r.response.value, s.candidates[live.value])
  {
    hide ValidCandidateDigest, HasRelease, CandidateSound, RecordsSound, CandidatesSound, Supports, ReferencesValid;
    var r := s.records[k];
    RecordIsSound(s, now, k);
    var c :| c in s.candidates && Supports(r, c);
    var i :| 0 <= i < |s.candidates| && s.candidates[i] == c;
    SupportIsFound(s, r, i);
    SupportIsValid(r, c);
  }

  lemma {:induction false} FindRecordFinds(rs: seq<Record>, k: nat, org: Id, op: Operation, key: Id)
    requires k < |rs| && HasKey(rs[k], org, op, key)
    requires forall i, j | 0 <= i < j < |rs| :: !HasKey(rs[j], rs[i].org, rs[i].operation, rs[i].keyHash)
    ensures FindRecord(rs, org, op, key) == Some(k)
  {
    if k > 0 {
      assert rs[1..][k - 1] == rs[k];
      assert !HasKey(rs[0], org, op, key);
      FindRecordFinds(rs[1..], k - 1, org, op, key);
    }
  }

  /** What a call under the key of record `k` is answered, and that no other record can answer it. */
  lemma {:induction false} RecordedAnswer(s: Store, now: int, k: nat, who: Caller)
    requires RecordsSound(s.records, s.candidates, now) && CandidatesSound(s.candidates, s.releases, s.nextId)
    requires k < |s.records| && s.records[k].keyHash == who.keyHash
    ensures var r := s.records[k];
            && (now < r.expiresAt ==> r.response.Some?)
            && Replay(s, r.org, r.operation, who, now) == Some(
                 if r.actor != who.actor || r.request != who.request then Refused(KeyReused)
                 else if r.expiresAt <= now then Refused(KeyExpired)
                 else Completed(r.response.value, true))
  {
    hide ReferencesValid, FindCandidate, Supports, CandidatesSound, RecordSound;
    var r := s.records[k];
    FindRecordFinds(s.records, k, r.org, r.operation, who.keyHash);
    if now < r.expiresAt { ReferencesAreValid(s, now, k); }
  }

  lemma {:induction false} ReplayNeverThrows(s: Store, org: Id, op: Operation, who: Caller, now: int)
    requires Inv(s, now)
    ensures Replay(s, org, op, who, now) != Some(Thrown)
  {
    hide Replay, RecordsSound, CandidatesSound, FindRecord;
    var k := FindRecord(s.records, org, op, who.keyHash);
    if k.Some? { RecordedAnswer(s, now, k.value, who); } else { NewKeyIsNotReplayed(s, org, op, who, now); }
  }

  lemma {:induction false} NewKeyIsNotReplayed(s: Store, org: Id, op: Operation, who: Caller, now: int)
    ensures Replay(s, org, op, who, now).None? <==> FindRecord(s.records, org, op, who.keyHash).None?
  {
  }

  /** Compaction changes no answer: a dropped response was not to be replayed any more. */
  lemma {:induction false} CompactKeepsAnswers(s: Store, org: Id, op: Operation, who: Caller, now: int)
    ensures Replay(s.(records := Compact(s.records, now)), org, op, who, now) == Replay(s, org, op, who, now)
  {
    hide Due, Compact, ReferencesValid, FindCandidate;
    var rs := Compact(s.records, now);
    SameKeysFound(s.records, rs, org, op, who.keyHash);
    var k := FindRecord(s.records, org, op, who.keyHash);
    if k.Some? && Due(s.records, now, k.value) { DueIsExpired(s.records, now, k.value); }
  }

  lemma {:induction false} SameKeysFound(rs: seq<Record>, ts: seq<Record>, org: Id, op: Operation, key: Id)
    requires |rs| == |ts|
    requires forall k | 0 <= k < |rs| :: ts[k] == rs[k].(response := ts[k].response)
    ensures FindRecord(ts, org, op, key) == FindRecord(rs, org, op, key)
  {
    if rs != [] {
      SameKeysFound(rs[1..], ts[1..], org, op, key);
    }
  }

  // ------------------------------------------------------------------ garbage collection

  lemma {:induction false} KeepCandidatesDistinct(cs: seq<Candidate>, gone: set<Id>)
    requires DistinctIds(cs)
    ensures DistinctIds(KeepCandidates(cs, gone))
  {
    if cs != [] {
      var first, rest := cs[0], KeepCandidates(cs[1..], gone);
      KeepCandidatesDistinct(cs[1..], gone);
      if first.id in gone {
        assert KeepCandidates(cs, gone) == rest;
      } else {
        forall d | d in rest ensures d.id != first.id {
          var j :| 0 <= j < |cs[1..]| && cs[1..][j] == d;
          assert cs[j + 1] == d;
        }
        assert KeepCandidates(cs, gone) == [first] + rest;
        ConsDistinct(first, rest);
      }
    }
  }

  lemma {:induction false} ConsDistinct(first: Candidate, rest: seq<Candidate>)
    requires DistinctIds(rest) && forall d | d in rest :: d.id != first.id
    ensures DistinctIds([first] + rest)
  {
    var r := [first] + rest;
    assert forall i | 0 < i < |r| :: r[i] == rest[i - 1];
  }

  lemma {:induction false} GarbageIsOld(cs: seq<Candidate>, org: Id, now: int, c: Candidate)
    requires c in cs && c.id in Garbage(cs, org, now)
    requires DistinctIds(cs)
    ensures c.expiresAt <= now - RETENTION && !c.stage.Published? && c.org == org
  {
    var i :| 0 <= i < |cs| && Collectable(cs[i], org, now) && cs[i].id == c.id;
    var j :| 0 <= j < |cs| && cs[j] == c;
  }

  /** Collection never takes a candidate that an unexpired record refers to, nor a release still in use. */
  lemma {:induction false} CollectedKeepsInv(s: Store, org: Id, now: int)
    requires Inv(s, now)
    ensures Inv(Collected(s, org, now), now)
  {
    hide Garbage, KeepCandidates, KeepReleases, CandidatesSound, AssignmentsSound, SchedulesSound, RecordsSound,
         ReleasesOf;
    if Garbage(s.candidates, org, now) != {} {
      CollectedCandidates(s, org, now);
      CollectedAssignments(s, org, now);
      CollectedRecords(s, org, now);
    }
  }

  lemma {:induction false} CollectedCandidates(s: Store, org: Id, now: int)
    requires CandidatesSound(s.candidates, s.releases, s.nextId)
    ensures var t := Collected(s, org, now); CandidatesSound(t.candidates, t.releases, t.nextId)
  {
    hide Garbage, KeepCandidates, KeepReleases, CandidateSound, ReleasesOf;
    var t := Collected(s, org, now);
    var gone := Garbage(s.candidates, org, now);
    KeepCandidatesDistinct(s.candidates, gone);
    if gone == {} { return; }
    assert t.candidates == KeepCandidates(s.candidates, gone);
    forall c | c in t.candidates
      ensures c.id < t.nextId && CandidateSound(c) && HasRelease(t.releases, c.org, c.release, c.releaseDigest)
    {
      assert c in s.candidates;
      var r :| r in s.releases && r.org == c.org && r.id == c.release && r.digest == c.releaseDigest;
      var k :| 0 <= k < |t.candidates| && t.candidates[k] == c;
      assert Referenced(r, t.candidates, s.assignments);
    }
  }

  lemma {:induction false} CollectedAssignments(s: Store, org: Id, now: int)
    requires AssignmentsSound(s.assignments, s.schedules, s.releases, s.nextId)
    ensures AssignmentsSound(s.assignments, s.schedules, Collected(s, org, now).releases, s.nextId)
  {
    hide Garbage, KeepCandidates, KeepReleases, ValidAssignmentDigest, ReleasesOf;
    var t := Collected(s, org, now);
    forall a | a in s.assignments ensures AssignmentSound(a, s.schedules, t.releases, s.nextId) {
      assert AssignmentSound(a, s.schedules, s.releases, s.nextId);
      var r :| r in s.releases && r.org == a.org && r.id == a.release && ValidAssignmentDigest(a, r);
      var k :| 0 <= k < |s.assignments| && s.assignments[k] == a;
      assert Referenced(r, t.candidates, s.assignments);
    }
  }

  lemma {:induction false} CollectedRecords(s: Store, org: Id, now: int)
    requires RecordsSound(s.records, s.candidates, now) && CandidatesSound(s.candidates, s.releases, s.nextId)
    ensures RecordsSound(s.records, Collected(s, org, now).candidates, now)
  {
    hide Collected, CandidatesSound, HasSupport;
    var t := Collected(s, org, now);
    forall r | r in s.records && r.response.Some? && now < r.expiresAt && HasSupport(r, s.candidates)
      ensures HasSupport(r, t.candidates)
    {
      CollectedKeepsSupport(s, org, now, r);
    }
    SupportCarries(s.records, s.candidates, t.candidates, now);
  }

  lemma {:induction false} CollectedKeepsSupport(s: Store, org: Id, now: int, r: Record)
    requires RecordsSound(s.records, s.candidates, now) && CandidatesSound(s.candidates, s.releases, s.nextId)
    requires r in s.records && r.response.Some? && now < r.expiresAt && HasSupport(r, s.candidates)
    ensures HasSupport(r, Collected(s, org, now).candidates)
  {
    hide Garbage, KeepCandidates, CandidateSound, HistoryShape, History;
    var k :| 0 <= k < |s.records| && s.records[k] == r;
    assert RecordSound(r, s.candidates, now);
    var c :| c in s.candidates && Supports(r, c);
    assert c.expiresAt == r.response.value.expiresAt;
    var gone := Garbage(s.candidates, org, now);
    if c.id in gone { GarbageIsOld(s.candidates, org, now, c); }
    assert c in Collected(s, org, now).candidates;
  }

  // ------------------------------------------------------------------ creating

  /** The store with the release and the candidate in it, before the response is recorded. */
  lemma {:induction false} CommittedIsSound(
      s: Store, org: Id, data: CandidateInput, who: Caller, snapshot: ReleaseSnapshot, screens: seq<int>, now: int)
    requires Inv(s, now)
    ensures var (t, c) := Commit(s, org, data, who, snapshot, screens, now);
            && Inv(t.(records := s.records), now)
            && c in t.candidates && c.org == org && c.stage.Draft? && Erase(Create, c) == c
               && c.expiresAt == data.expiresAt
  {
    hide Compact, FindByDigest, CandidateSound, AssignmentsSound, SchedulesSound, RecordsSound, Erase, ReleaseFor;
    var release := ReleaseFor(s, org, snapshot, who.actor, now);
    var (t, c) := Commit(s, org, data, who, snapshot, screens, now);
    NewCandidateSound(c.id, org, release, snapshot, data, screens, who.actor, now);
    CommitReleases(s, org, data, who, snapshot, screens, now);
    AddedCandidate(s.candidates, c, s.releases, t.releases, s.nextId, t.nextId);
    AssignmentsGrow(s.assignments, s.schedules, s.releases, t.releases, s.nextId, t.nextId);
    SchedulesGrow(s.schedules, s.assignments, s.nextId, t.nextId);
    AddedSupport(s.records, s.candidates, c, now);
  }

  lemma {:induction false} CommitKeepsInv(
      s: Store, org: Id, data: CandidateInput, who: Caller, snapshot: ReleaseSnapshot, screens: seq<int>, now: int)
    requires Inv(s, now) && FindRecord(s.records, org, Create, who.keyHash).None? && now < data.expiresAt
    ensures Inv(Commit(s, org, data, who, snapshot, screens, now).0, now)
  {
    hide Compact, CandidatesSound, AssignmentsSound, SchedulesSound, RecordsSound, ReleasesSound, Erase, ReleaseFor,
         NewCandidate, FindByDigest;
    var (t, c) := Commit(s, org, data, who, snapshot, screens, now);
    CommittedIsSound(s, org, data, who, snapshot, screens, now);
    RememberKeeps(s.records, t.candidates, org, Create, who, c, now);
  }

  lemma {:induction false} NewCandidateSound(id: Id, org: Id, release: Release, snapshot: ReleaseSnapshot,
      data: CandidateInput, screens: seq<int>, actor: Id, now: int)
    ensures var c := NewCandidate(id, org, release, snapshot, data, screens, actor, now);
            CandidateSound(c) && Erase(Create, c) == c
  {
    CandidateIdempotent(OfRelease(snapshot), data.schedule, screens, data.expiresAt);
  }

  lemma {:induction false} CommitReleases(
      s: Store, org: Id, data: CandidateInput, who: Caller, snapshot: ReleaseSnapshot, screens: seq<int>, now: int)
    requires ReleasesSound(s.releases, s.nextId)
    ensures var (t, c) := Commit(s, org, data, who, snapshot, screens, now);
            && ReleasesSound(t.releases, t.nextId)
            && (forall r | r in s.releases :: r in t.releases)
            && HasRelease(t.releases, c.org, c.release, c.releaseDigest)
  {
    hide Compact, FindByDigest, Remember, CanonicalCandidate;
    var (t, c) := Commit(s, org, data, who, snapshot, screens, now);
    var release := ReleaseFor(s, org, snapshot, who.actor, now);
    assert release in t.releases;
  }

  lemma {:induction false} AddedCandidate(
      cs: seq<Candidate>, c: Candidate, releases: seq<Release>, more: seq<Release>, next: Id, next': Id)
    requires CandidatesSound(cs, releases, next) && CandidateSound(c) && next <= c.id < next'
    requires HasRelease(more, c.org, c.release, c.releaseDigest) && forall r | r in releases :: r in more
    ensures CandidatesSound(cs + [c], more, next')
  {
    hide CandidateSound, HasRelease;
    forall d | d in cs + [c]
      ensures d.id < next' && CandidateSound(d) && HasRelease(more, d.org, d.release, d.releaseDigest)
    {
      if d in cs { GrowReleases(releases, more, d.org, d.release, d.releaseDigest); }
    }
    forall i | 0 <= i < |cs| ensures cs[i].id != c.id { assert cs[i] in cs; }
  }

  lemma {:induction false} AssignmentsGrow(as_: seq<Assignment>, schedules: seq<ScheduleRecord>, releases: seq<Release>,
      more: seq<Release>, next: Id, next': Id)
    requires AssignmentsSound(as_, schedules, releases, next) && next <= next' && forall r | r in releases :: r in more
    ensures AssignmentsSound(as_, schedules, more, next')
  {
    hide ValidAssignmentDigest;
    forall a | a in as_ ensures AssignmentSound(a, schedules, more, next') {
      assert AssignmentSound(a, schedules, releases, next);
    }
  }

  lemma {:induction false} SchedulesGrow(schedules: seq<ScheduleRecord>, as_: seq<Assignment>, next: Id, next': Id)
    requires SchedulesSound(schedules, as_, next) && next <= next'
    ensures SchedulesSound(schedules, as_, next')
  {
  }

  lemma {:induction false} AddedSupport(rs: seq<Record>, cs: seq<Candidate>, c: Candidate, now: int)
    requires RecordsSound(rs, cs, now)
    ensures RecordsSound(rs, cs + [c], now)
  {
    hide Supports;
    SupportCarries(rs, cs, cs + [c], now);
  }

  lemma {:induction false} GrowReleases(releases: seq<Release>, more: seq<Release>, org: Id, id: Id, digest: Digest)
    requires HasRelease(releases, org, id, digest) && forall r | r in releases :: r in more
    ensures HasRelease(more, org, id, digest)
  {
  }

  // ------------------------------------------------------------------ submitting, approving, publishing

  /** One step of a candidate: the next stage and its fields, nothing else. */
  ghost predicate StepsTo(c: Candidate, op: Operation, d: Candidate) {
    match op
    case Create => false
    case Submit => c.stage.Draft? && d == c.(stage := InReview, submittedAt := d.submittedAt)
    case Approve => c.stage.InReview? && d == c.(stage := Approved, approvedAt := d.approvedAt, approval := d.approval)
    case Publish =>
      c.stage.Approved?
      && d == c.(stage := Published, publishedAt := d.publishedAt, scheduleId := d.scheduleId,
                 assignmentId := d.assignmentId)
  }

  /** Whatever a record could read back from a candidate, it reads back after the candidate's next step. */
  lemma {:induction false} StepKeepsSupport(r: Record, c: Candidate, op: Operation, d: Candidate)
    requires CandidateSound(c) && StepsTo(c, op, d) && r.response.Some? && Supports(r, c)
    ensures Supports(r, d)
  {
  }

  lemma {:induction false} ReplacedKeepsSupport(
      rs: seq<Record>, cs: seq<Candidate>, k: nat, op: Operation, d: Candidate, now: int)
    requires RecordsSound(rs, cs, now) && k < |cs| && CandidateSound(cs[k]) && StepsTo(cs[k], op, d)
    ensures RecordsSound(rs, cs[k := d], now)
  {
    hide Supports, CandidateSound, StepsTo;
    forall r | r in rs && r.response.Some? && now < r.expiresAt && HasSupport(r, cs) ensures HasSupport(r, cs[k := d]) {
      var c :| c in cs && Supports(r, c);
      var i :| 0 <= i < |cs| && cs[i] == c;
      if i == k { StepKeepsSupport(r, c, op, d); }
      assert cs[k := d][i] in cs[k := d];
    }
    SupportCarries(rs, cs, cs[k := d], now);
  }

  lemma {:induction false} ReplacedCandidate(
      cs: seq<Candidate>, k: nat, op: Operation, d: Candidate, releases: seq<Release>, next: Id, next': Id)
    requires CandidatesSound(cs, releases, next) && k < |cs| && StepsTo(cs[k], op, d) && CandidateSound(d)
             && next <= next'
    ensures CandidatesSound(cs[k := d], releases, next')
  {
    hide CandidateSound, HasRelease;
    assert d.id == cs[k].id && d.org == cs[k].org && d.release == cs[k].release
           && d.releaseDigest == cs[k].releaseDigest;
    forall c | c in cs[k := d]
      ensures c.id < next' && CandidateSound(c) && HasRelease(releases, c.org, c.release, c.releaseDigest)
    {
      assert cs[k] in cs;
      if c != d { assert c in cs; }
    }
  }

  lemma {:induction false} AdvancedSteps(
      s: Store, c: Candidate, op: Operation, expected: Digest, actor: Identity.User, now: int)
    requires CandidateSound(c) && (op.Submit? || op.Approve?) && TransitionRefusal(c, op, expected, actor.id, now).None?
    ensures var (d, next) := Advanced(s, c, op, actor, now);
            StepsTo(c, op, d) && CandidateSound(d) && d.stage == ExpectedStage(op) && Erase(op, d) == d
            && now < d.expiresAt && s.nextId <= next && d.org == c.org
  {
  }

  /** The store with the candidate advanced, before its response is recorded. */
  lemma {:induction false} AdvancedKeepsInv(
      s: Store, k: nat, op: Operation, expected: Digest, actor: Identity.User, now: int)
    requires Inv(s, now) && k < |s.candidates| && (op.Submit? || op.Approve?)
    requires TransitionRefusal(s.candidates[k], op, expected, actor.id, now).None?
    ensures var (d, next) := Advanced(s, s.candidates[k], op, actor, now);
            && Inv(s.(candidates := s.candidates[k := d], nextId := next), now)
            && d.stage == ExpectedStage(op) && Erase(op, d) == d && now < d.expiresAt && d.org == s.candidates[k].org
  {
    hide CandidateSound, StepsTo, CandidatesSound, AssignmentsSound, SchedulesSound, RecordsSound, TransitionRefusal,
         Advanced, Erase;
    var c := s.candidates[k];
    SoundAt(s.candidates, s.releases, s.nextId, k);
    AdvancedSteps(s, c, op, expected, actor, now);
    var (d, next) := Advanced(s, c, op, actor, now);
    ReplacedCandidate(s.candidates, k, op, d, s.releases, s.nextId, next);
    ReplacedKeepsSupport(s.records, s.candidates, k, op, d, now);
    AssignmentsGrow(s.assignments, s.schedules, s.releases, s.releases, s.nextId, next);
    SchedulesGrow(s.schedules, s.assignments, s.nextId, next);
  }

  lemma {:induction false} TransitionKeepsInv(
      s: Store, org: Id, op: Operation, id: Id, expected: Digest, who: Caller, now: int)
    requires Inv(s, now) && (op.Submit? || op.Approve?)
    ensures Inv(Transitioned(s, org, op, id, expected, who, now).0, now)
  {
    hide Compact, Remember, CandidatesSound, AssignmentsSound, SchedulesSound, RecordsSound,
         FindCandidate, TransitionRefusal, Advanced, Erase, ReferencesValid;
    var (t, r) := Transitioned(s, org, op, id, expected, who, now);
    if r.Completed? && !r.replayed {
      var k := FindCandidate(s.candidates, org, id).value;
      var actor := Identity.FindActive(s.users, who.actor, org).value;
      AdvancedKeepsInv(s, k, op, expected, actor, now);
      assert t.candidates[k] == r.candidate;
      RememberKeeps(s.records, t.candidates, org, op, who, r.candidate, now);
    }
  }

  lemma {:induction false} SoundAt(cs: seq<Candidate>, releases: seq<Release>, next: Id, k: nat)
    requires CandidatesSound(cs, releases, next) && k < |cs|
    ensures CandidateSound(cs[k]) && cs[k].id < next
            && HasRelease(releases, cs[k].org, cs[k].release, cs[k].releaseDigest)
  {
    assert cs[k] in cs;
  }

  // ------------------------------------------------------------------ histories

  lemma {:induction false} HistoryOfLonger(as_: seq<Assignment>, a: Assignment, schedule: Id)
    ensures History(as_ + [a], schedule) == History(as_, schedule) + if a.scheduleId == schedule then [a] else []
  {
    assert (as_ + [a])[..|as_|] == as_;
  }

  lemma {:induction false} HistoryMembers(as_: seq<Assignment>, schedule: Id)
    ensures forall a :: a in History(as_, schedule) <==> a in as_ && a.scheduleId == schedule
  {
    if as_ != [] {
      HistoryMembers(as_[..|as_| - 1], schedule);
      assert as_ == as_[..|as_| - 1] + [as_[|as_| - 1]];
    }
  }

  lemma {:induction false} LatestIsLast(as_: seq<Assignment>, schedule: Id)
    ensures var h := History(as_, schedule); Latest(as_, schedule) == if h == [] then None else Some(h[|h| - 1])
  {
    if as_ != [] {
      LatestIsLast(as_[..|as_| - 1], schedule);
    }
  }

  /** Adding the first assignment of a new schedule. */
  lemma {:induction false} AddedSchedule(schedules: seq<ScheduleRecord>, as_: seq<Assignment>, releases: seq<Release>,
      next: Id, s: ScheduleRecord, a: Assignment)
    requires SchedulesSound(schedules, as_, next) && AssignmentsSound(as_, schedules, releases, next)
    requires s.id == next && a.scheduleId == next && a.state.Assigned? && a.previous.None?
    ensures SchedulesSound(schedules + [s], as_ + [a], next + 2)
  {
    hide AssignmentSound;
    forall x | x in schedules + [s] ensures x.id < next + 2 && HistoryShape(History(as_ + [a], x.id)) {
      HistoryOfLonger(as_, a, x.id);
      if x !in schedules {
        HistoryMembers(as_, next);
        if History(as_, next) != [] {
          var first := History(as_, next)[0];
          assert first in as_;
          ScheduleIsOld(as_, schedules, releases, next, first);
        }
      }
    }
  }

  lemma {:induction false} ScheduleIsOld(
      as_: seq<Assignment>, schedules: seq<ScheduleRecord>, releases: seq<Release>, next: Id, a: Assignment)
    requires AssignmentsSound(as_, schedules, releases, next) && a in as_
    ensures a.scheduleId < next
  {
    assert AssignmentSound(a, schedules, releases, next);
  }

  lemma {:induction false} AddedAssignment(as_: seq<Assignment>, schedules: seq<ScheduleRecord>,
      more: seq<ScheduleRecord>, releases: seq<Release>, next: Id, next': Id, a: Assignment)
    requires AssignmentsSound(as_, schedules, releases, next) && next <= a.id < next'
    requires forall s | s in schedules :: s in more
    requires AssignmentSound(a, more, releases, next')
    ensures AssignmentsSound(as_ + [a], more, releases, next')
  {
    hide ValidAssignmentDigest;
    forall x | x in as_ ensures AssignmentSound(x, more, releases, next') {
      assert AssignmentSound(x, schedules, releases, next);
    }
    forall i | 0 <= i < |as_| ensures as_[i].id != a.id {
      assert AssignmentSound(as_[i], schedules, releases, next);
    }
  }

  // ------------------------------------------------------------------ publishing

  lemma {:induction false} PublishedSteps(s: Store, c: Candidate, now: int)
    requires CandidateSound(c) && c.stage.Approved? && now < c.expiresAt
    ensures var d := PublishedForm(s, c, now);
            StepsTo(c, Publish, d) && CandidateSound(d) && d.stage.Published? && now < d.expiresAt && d.org == c.org
  {
  }

  /** The assignment a publication makes refers to the candidate's release and carries a valid digest. */
  lemma {:induction false} NewAssignmentSound(s: Store, c: Candidate, actor: Id, now: int)
    requires ReleasesSound(s.releases, s.nextId) && HasRelease(s.releases, c.org, c.release, c.releaseDigest)
    ensures AssignmentSound(NewAssignment(s, c, actor, now),
                            s.schedules + [ScheduleRecord(s.nextId, c.org, c.sourcePlaylist, c.release, s.nextId + 1)],
                            s.releases, s.nextId + 2)
  {
    var a := NewAssignment(s, c, actor, now);
    var record := ScheduleRecord(s.nextId, c.org, c.sourcePlaylist, c.release, s.nextId + 1);
    assert record in s.schedules + [record];
    var r :| r in s.releases && r.org == c.org && r.id == c.release && r.digest == c.releaseDigest;
    assert ValidAssignmentDigest(a, r);
  }

  /** The published candidate whose publication made the assignment. */
  ghost predicate Backs(c: Candidate, a: Assignment) {
    && c.stage.Published? && c.org == a.org && c.release == a.release
    && c.assignmentId == Some(a.id) && c.scheduleId == Some(a.scheduleId)
    && c.screens == a.screens && c.schedule == a.schedule
  }

  /**
   In a sound store a stored candidate can be published exactly when the caller names its digest, it
   is approved and has not expired, the approver is still current, the policy lets its items pass
   and its screens exist: the checks of stored digests and of the release never fail.
   */
  lemma {:induction false} PublishableExactly(
      s: Store, org: Id, c: Candidate, expected: Digest, policy: Policy, now: int)
    requires Inv(s, now) && c in s.candidates && c.org == org
    ensures PublicationRefusal(s, org, c, expected, policy, now).None? <==>
              && c.digest == expected && now < c.expiresAt && c.stage.Approved?
              && c.approval.Some? && ApprovalFresh(s.users, org, c.approval.value)
              && policy(AssetsIn(c.items), now).None? && ScreensExist(s.screens, org, c.screens)
    ensures PublicationRefusal(s, org, c, expected, policy, now) == Some(StaleDigest) ==>
              c.digest != expected
              || policy(AssetsIn(c.items), now) == Some(StaleDigest)
  {
    hide AssignmentsSound, SchedulesSound, RecordsSound, ApprovalFresh, ScreensExist;
    assert CandidateSound(c);
    var r :| r in s.releases && r.org == c.org && r.id == c.release && r.digest == c.releaseDigest;
    FindReleaseFinds(s.releases, s.nextId, r);
  }

  lemma {:induction false} PublishedStoreKeepsInv(s: Store, k: nat, who: Caller, now: int)
    requires Inv(s, now) && k < |s.candidates| && s.candidates[k].stage.Approved? && now < s.candidates[k].expiresAt
    requires FindRecord(s.records, s.candidates[k].org, Publish, who.keyHash).None?
    ensures Inv(PublishedStore(s, k, who, now), now)
    ensures RecordsSound(s.records, PublishedStore(s, k, who, now).candidates, now)
  {
    hide Compact, Remember, CandidateSound, StepsTo, CandidatesSound, AssignmentsSound, SchedulesSound, RecordsSound,
         PublishedForm, AssignmentSound, NewAssignment;
    var t, c := PublishedStore(s, k, who, now), s.candidates[k];
    SoundAt(s.candidates, s.releases, s.nextId, k);
    PublishedSteps(s, c, now);
    var d, a := PublishedForm(s, c, now), NewAssignment(s, c, who.actor, now);
    var record := ScheduleRecord(s.nextId, c.org, c.sourcePlaylist, c.release, s.nextId + 1);
    ReplacedCandidate(s.candidates, k, Publish, d, s.releases, s.nextId, s.nextId + 2);
    ReplacedKeepsSupport(s.records, s.candidates, k, Publish, d, now);
    NewAssignmentSound(s, c, who.actor, now);
    NewAssignmentFields(s, c, who.actor, now);
    AddedSchedule(s.schedules, s.assignments, s.releases, s.nextId, record, a);
    AddedAssignment(s.assignments, s.schedules, s.schedules + [record], s.releases, s.nextId, s.nextId + 2, a);
    assert t.candidates[k] == d;
    RememberKeeps(s.records, t.candidates, c.org, Publish, who, d, now);
  }

  lemma {:induction false} PublishKeepsInv(
      s: Store, org: Id, id: Id, expected: Digest, who: Caller, policy: Policy, now: int)
    requires Inv(s, now)
    ensures Inv(PublishedBy(s, org, id, expected, who, policy, now).0, now)
  {
    hide Inv, PublishedStore, Capable, FindCandidate, ReferencesValid, PublishedForm;
    var (t, r) := PublishedBy(s, org, id, expected, who, policy, now);
    if r.Completed? && !r.replayed {
      PublishedStoreKeepsInv(s, FindCandidate(s.candidates, org, id).value, who, now);
    }
  }

  /** The assignment a publication makes is the whole history of its schedule, and the published candidate backs it. */
  lemma {:induction false} PublicationOpensHistory(s: Store, k: nat, who: Caller, now: int)
    requires Inv(s, now) && k < |s.candidates|
    ensures var t, d := PublishedStore(s, k, who, now), PublishedForm(s, s.candidates[k], now);
            var a := NewAssignment(s, s.candidates[k], who.actor, now);
            && Backs(d, a) && d.scheduleId.Some?
            && History(t.assignments, d.scheduleId.value) == [a] && Latest(t.assignments, d.scheduleId.value) == Some(a)
  {
    hide CandidatesSound, RecordsSound, SchedulesSound, AssignmentSound, Compact, Remember, CanonicalAssignment;
    var t, a := PublishedStore(s, k, who, now), NewAssignment(s, s.candidates[k], who.actor, now);
    HistoryOfLonger(s.assignments, a, s.nextId);
    HistoryMembers(s.assignments, s.nextId);
    if History(s.assignments, s.nextId) != [] {
      ScheduleIsOld(s.assignments, s.schedules, s.releases, s.nextId, History(s.assignments, s.nextId)[0]);
    }
    LatestIsLast(t.assignments, s.nextId);
  }

  lemma {:induction false} NewAssignmentFields(s: Store, c: Candidate, actor: Id, now: int)
    ensures var a := NewAssignment(s, c, actor, now);
            a.id == s.nextId + 1 && a.scheduleId == s.nextId && a.state.Assigned? && a.previous.None? && a.org == c.org
  {
  }

  // ------------------------------------------------------------------ withdrawing

  /** A withdrawal follows the one assignment of its schedule and repeats what it withdraws. */
  lemma {:induction false} WithdrawalFollows(s: Store, org: Id, schedule: Id, actor: Id, now: int)
    requires Inv(s, now) && Withdraw(s, org, schedule, actor, now).WithdrawnAs?
    ensures var a := Withdraw(s, org, schedule, actor, now).assignment;
            && a.id == s.nextId && a.scheduleId == schedule && a.org == org
            && HistoryShape(History(s.assignments, schedule) + [a])
            && AssignmentSound(a, s.schedules, s.releases, s.nextId + 1)
  {
    hide CandidatesSound, RecordsSound, Capable, History, CanonicalAssignment;
    var a := Withdraw(s, org, schedule, actor, now).assignment;
    var record := FindSchedule(s.schedules, org, schedule).value;
    var h := History(s.assignments, schedule);
    LatestIsLast(s.assignments, schedule);
    HistoryMembers(s.assignments, schedule);
    assert HistoryShape(h) && |h| == 1;
    assert h[0] in s.assignments && AssignmentSound(h[0], s.schedules, s.releases, s.nextId);
    var r := FindRelease(s.releases, org, record.release).value;
    assert ValidAssignmentDigest(a, r);
  }

  lemma {:induction false} WithdrawKeepsInv(s: Store, org: Id, schedule: Id, actor: Id, now: int)
    requires Inv(s, now)
    ensures Inv(WithdrawnStore(s, org, schedule, actor, now), now)
  {
    hide CandidatesSound, RecordsSound, AssignmentsSound, AssignmentSound, HistoryShape, Withdraw, History;
    var w := Withdraw(s, org, schedule, actor, now);
    if w.WithdrawnAs? {
      WithdrawalFollows(s, org, schedule, actor, now);
      AddedAssignment(s.assignments, s.schedules, s.schedules, s.releases, s.nextId, s.nextId + 1, w.assignment);
      forall x | x in s.schedules ensures HistoryShape(History(s.assignments + [w.assignment], x.id)) {
        HistoryOfLonger(s.assignments, w.assignment, x.id);
        assert History(s.assignments, x.id) + [] == History(s.assignments, x.id);
      }
      CandidatesGrow(s.candidates, s.releases, s.nextId, s.nextId + 1);
    }
  }

  lemma {:induction false} CandidatesGrow(cs: seq<Candidate>, releases: seq<Release>, next: Id, next': Id)
    requires CandidatesSound(cs, releases, next) && next <= next'
    ensures CandidatesSound(cs, releases, next')
  {
  }

  // ------------------------------------------------------------------ creating, as a whole

  lemma {:induction false} CreateKeepsInv(
      s: Store, org: Id, data: CandidateInput, who: Caller, policy: Policy, now: int)
    requires Inv(s, now)
    ensures Inv(Created(s, org, data, who, policy, now).0, now)
  {
    hide Inv, Collected, Prepare, Commit, Capable, ReferencesValid;
    if Capable(s.users, org, who.actor, MayPerform(Create)) && Replay(s, org, Create, who, now).None?
       && now < data.expiresAt <= now + MAX_LIFETIME
    {
      CollectedKeepsInv(s, org, now);
      var t := Collected(s, org, now);
      CollectedFrame(s, org, now);
      var p := Prepare(t, org, data, policy, now);
      if p.Ready? { CommitKeepsInv(t, org, data, who, p.snapshot, p.screens, now); }
    }
  }

  /** Collection touches candidates and releases only. */
  lemma {:induction false} CollectedFrame(s: Store, org: Id, now: int)
    ensures var t := Collected(s, org, now); t == s.(candidates := t.candidates, releases := t.releases)
  {
  }
}
