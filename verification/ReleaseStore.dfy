/** The part of the memory store that holds the release workflow, updated in place. */
module ReleaseStore {
  import opened Common
  import opened Batches
  import opened Canonical
  import opened Releases
  import opened ReleaseInvariants
  import opened ReleaseDelivery
  import opened ReleaseDecisions
  import opened ReleasePreparation
  import opened ReleaseCreation
  import Identity

  class MemoryStore {
    var users: seq<Identity.User>
    var playlists: seq<Playlist>
    var media: seq<MediaRecord>
    var screens: seq<Screen>
    var schedules: seq<ScheduleRecord>
    var releases: seq<Release>
    var releaseAssignments: seq<Assignment>
    var releaseCandidates: seq<Candidate>
    var idempotencyRecords: seq<Record>
    var nextId: Id

    function Contents(): Store
      reads this
    {
      Store(users, playlists, media, screens, schedules, releases, releaseAssignments, releaseCandidates,
            idempotencyRecords, nextId)
    }

    ghost predicate Valid(now: int)
      reads this
    {
      Inv(Contents(), now)
    }

    /** The part of the invariant that replays rely on. */
    ghost predicate RecordsValid(now: int)
      reads this
    {
      && RecordsSound(idempotencyRecords, releaseCandidates, now)
      && CandidatesSound(releaseCandidates, releases, nextId)
    }

    constructor (users: seq<Identity.User>, playlists: seq<Playlist>, media: seq<MediaRecord>, screens: seq<Screen>)
      ensures Contents() == Store(users, playlists, media, screens, [], [], [], [], [], 0)
      ensures forall now :: Valid(now)
    {
      this.users, this.playlists, this.media, this.screens := users, playlists, media, screens;
      schedules, releases, releaseAssignments, releaseCandidates := [], [], [], [];
      idempotencyRecords, nextId := [], 0;
    }

    /** The backward search for the last assignment of a schedule. */
    method LatestAssignment(schedule: Id) returns (r: Option<Assignment>)
      ensures r == Latest(releaseAssignments, schedule)
      ensures r.Some? ==>
                exists k ::
                  && 0 <= k < |releaseAssignments| && releaseAssignments[k] == r.value && r.value.scheduleId == schedule
                  && forall j | k < j < |releaseAssignments| :: releaseAssignments[j].scheduleId != schedule
      ensures r.None? ==> forall a | a in releaseAssignments :: a.scheduleId != schedule
    {
      var index := |releaseAssignments|;
      assert releaseAssignments[..index] == releaseAssignments;
      while index > 0
        invariant index <= |releaseAssignments|
        invariant Latest(releaseAssignments, schedule) == Latest(releaseAssignments[..index], schedule)
        invariant forall j | index <= j < |releaseAssignments| :: releaseAssignments[j].scheduleId != schedule
      {
        index := index - 1;
        assert releaseAssignments[..index + 1][..index] == releaseAssignments[..index];
        if releaseAssignments[index].scheduleId == schedule {
          return Some(releaseAssignments[index]);
        }
      }
      return None;
    }

    // ---------------------------------------------------------------- idempotency records

    /** A key is answered by its one record: refused for others and after expiry, else the response it was given. */
    method ReleaseCandidateReplay(org: Id, op: Operation, who: Caller, now: int) returns (r: Option<Result>)
      requires Valid(now)
      ensures r == Replay(Contents(), org, op, who, now)
      ensures KeyUsed(idempotencyRecords, org, op, who.keyHash) <==> r.Some?
      ensures r.Some? ==> AnsweredFromRecord(Contents(), Contents(), r.value, org, op, who, now)
      ensures r.None? <==> forall k | 0 <= k < |idempotencyRecords| ::
                !HasKey(idempotencyRecords[k], org, op, who.keyHash)
      ensures forall k | 0 <= k < |idempotencyRecords| && HasKey(idempotencyRecords[k], org, op, who.keyHash) ::
                var existing := idempotencyRecords[k];
                && (now < existing.expiresAt ==> existing.response.Some?)
                && r == Some(if existing.actor != who.actor || existing.request != who.request then Refused(KeyReused)
                             else if existing.expiresAt <= now then Refused(KeyExpired)
                             else Completed(existing.response.value, true))
    {
      hide ReferencesValid, FindCandidate, Inv, KeyUsed, AnsweredFromRecord;
      ghost var s := Contents();
      AnswersUnderKey(s, org, op, who, now);
      KeyDecides(s, org, op, who, now);
      var k := FindRecord(idempotencyRecords, org, op, who.keyHash);
      if k.None? {
        return None;
      }
      var existing := idempotencyRecords[k.value];
      if existing.actor != who.actor || existing.request != who.request {
        return Some(Refused(KeyReused));
      }
      if existing.expiresAt <= now {
        return Some(Refused(KeyExpired));
      }
      if existing.response.None? {
        return Some(Refused(KeyExpired));
      }
      var response := existing.response.value;
      var live := FindCandidate(releaseCandidates, org, response.id);
      LiveIsInRange(releaseCandidates, org, response.id);
      r := if live.None? || !ReferencesValid(org, op, response, releaseCandidates[live.value]) then Some(Thrown)
           else Some(Completed(response, true));
    }

    lemma {:induction false} LiveIsInRange(cs: seq<Candidate>, org: Id, id: Id)
      ensures FindCandidate(cs, org, id).Some? ==> FindCandidate(cs, org, id).value < |cs|
    {
    }

    lemma {:induction false} AnswersUnderKey(s: Store, org: Id, op: Operation, who: Caller, now: int)
      requires Inv(s, now)
      ensures Replay(s, org, op, who, now).None? <==>
                forall k | 0 <= k < |s.records| :: !HasKey(s.records[k], org, op, who.keyHash)
      ensures forall k | 0 <= k < |s.records| && HasKey(s.records[k], org, op, who.keyHash) ::
                var existing := s.records[k];
                && (now < existing.expiresAt ==> existing.response.Some?)
                && Replay(s, org, op, who, now) == Some(
                     if existing.actor != who.actor || existing.request != who.request then Refused(KeyReused)
                     else if existing.expiresAt <= now then Refused(KeyExpired)
                     else Completed(existing.response.value, true))
    {
      hide Replay, RecordsSound, CandidatesSound, ReleasesSound, AssignmentsSound, SchedulesSound;
      NewKeyIsNotReplayed(s, org, op, who, now);
      forall k | 0 <= k < |s.records| && HasKey(s.records[k], org, op, who.keyHash)
        ensures var existing := s.records[k];
                && (now < existing.expiresAt ==> existing.response.Some?)
                && Replay(s, org, op, who, now) == Some(
                     if existing.actor != who.actor || existing.request != who.request then Refused(KeyReused)
                     else if existing.expiresAt <= now then Refused(KeyExpired)
                     else Completed(existing.response.value, true))
      {
        RecordedAnswer(s, now, k, who);
      }
    }

    lemma {:induction false} CompactablesAreOrdered(rs: seq<Record>)
      ensures StrictOrder((i: nat, j: nat) => i < |rs| && j < |rs| && RecordBefore(rs, i, j), |rs|)
    {
    }

    /** Drops the responses of the first hundred expired records, by expiry and key; no answer changes. */
    method CompactExpiredIdempotencyResponses(now: int)
      modifies `idempotencyRecords
      ensures idempotencyRecords == Compact(old(idempotencyRecords), now)
      ensures Compacted(old(idempotencyRecords), idempotencyRecords, now)
      ensures old(RecordsValid(now)) ==> RecordsValid(now)
      ensures forall org, op, who :: Replay(Contents(), org, op, who, now) == old(Replay(Contents(), org, op, who, now))
    {
      hide Compact, Compacted, Replay, RecordsSound, CandidatesSound, RecordBefore, StrictOrder, Ahead;
      ghost var s := Contents();
      var before := idempotencyRecords;
      CompactIsCompacted(before, now);
      CompactablesAreOrdered(before);
      var order := (i: nat, j: nat) => i < |before| && j < |before| && RecordBefore(before, i, j);
      var eligible := (i: nat) => i < |before| && Compactable(before[i], now);
      var batch := Batch(|before|, eligible, order, COMPACTION_BATCH);
      BatchIsDue(before, now, batch);
      for k := 0 to |batch|
        modifies `idempotencyRecords
        invariant |idempotencyRecords| == |before|
        invariant forall j | 0 <= j < |before| ::
                    idempotencyRecords[j] == if j in batch[..k] then before[j].(response := None) else before[j]
      {
        idempotencyRecords := idempotencyRecords[batch[k] := before[batch[k]].(response := None)];
        assert batch[..k + 1] == batch[..k] + [batch[k]];
      }
      assert batch[..|batch|] == batch;
      assert idempotencyRecords == Compact(before, now);
      if old(RecordsValid(now)) { CompactKeeps(before, releaseCandidates, now); }
      NoAnswerChanges(s, now);
      assert Contents() == s.(records := Compact(s.records, now));
    }

    lemma {:induction false} NoAnswerChanges(s: Store, now: int)
      ensures forall org, op, who ::
                Replay(s.(records := Compact(s.records, now)), org, op, who, now) == Replay(s, org, op, who, now)
    {
      hide Compact, Replay;
      forall org, op, who
        ensures Replay(s.(records := Compact(s.records, now)), org, op, who, now) == Replay(s, org, op, who, now)
      {
        CompactKeepsAnswers(s, org, op, who, now);
      }
    }

    lemma {:induction false} BatchIsDue(rs: seq<Record>, now: int, batch: seq<nat>)
      requires var order := (i: nat, j: nat) => i < |rs| && j < |rs| && RecordBefore(rs, i, j);
               var eligible := (i: nat) => i < |rs| && Compactable(rs[i], now);
               forall i | 0 <= i < |rs| ::
                 i in batch <==> eligible(i) && |Ahead(|rs|, eligible, order, i)| < COMPACTION_BATCH
      ensures forall i | 0 <= i < |rs| :: i in batch <==> Due(rs, now, i)
    {
      var order := (i: nat, j: nat) => i < |rs| && j < |rs| && RecordBefore(rs, i, j);
      var eligible := (i: nat) => i < |rs| && Compactable(rs[i], now);
      forall i | 0 <= i < |rs| ensures i in batch <==> Due(rs, now, i) {
        assert Ahead(|rs|, eligible, order, i)
               == set j | 0 <= j < |rs| && Compactable(rs[j], now) && RecordBefore(rs, j, i);
      }
    }

    /** Records a response: the same call is answered with it from now on. */
    method RememberReleaseCandidate(org: Id, op: Operation, who: Caller, c: Candidate, now: int)
      requires RecordsValid(now)
      requires forall k | 0 <= k < |idempotencyRecords| :: !HasKey(idempotencyRecords[k], org, op, who.keyHash)
      requires c in releaseCandidates && c.org == org && c.stage == ExpectedStage(op) && Erase(op, c) == c
               && now < c.expiresAt
      modifies `idempotencyRecords
      ensures idempotencyRecords == Remember(old(idempotencyRecords), org, op, who, c, now)
      ensures idempotencyRecords == old(idempotencyRecords)
                + [Record(org, op, who.keyHash, who.actor, who.request, now + THIRTY_DAYS, Some(c))]
      ensures RecordsValid(now)
      ensures forall t | now <= t < now + RETENTION && RecordsValid(t) ::
                Replay(Contents(), org, op, who, t) == Some(Completed(c, true))
    {
      hide Erase, Replay, RecordsSound, CandidatesSound;
      RememberedIsSound(idempotencyRecords, releaseCandidates, org, op, who, c, now);
      var expiresAt := now + RETENTION;
      idempotencyRecords :=
        idempotencyRecords + [Record(org, op, who.keyHash, who.actor, who.request, expiresAt, Some(c))];
      forall t | now <= t < now + RETENTION && RecordsValid(t)
        ensures Replay(Contents(), org, op, who, t) == Some(Completed(c, true))
      {
        RecordedAnswer(Contents(), t, |idempotencyRecords| - 1, who);
      }
    }

    // ---------------------------------------------------------------- garbage collection

    lemma {:induction false} CandidatesAreOrdered(cs: seq<Candidate>)
      requires DistinctIds(cs)
      ensures StrictOrder((i: nat, j: nat) => i < |cs| && j < |cs| && CandidateBefore(cs[i], cs[j]), |cs|)
    {
    }

    lemma {:induction false} BatchIsGarbage(cs: seq<Candidate>, org: Id, now: int, batch: seq<nat>)
      requires Within(batch, |cs|)
      requires var order := (i: nat, j: nat) => i < |cs| && j < |cs| && CandidateBefore(cs[i], cs[j]);
               var eligible := (i: nat) => i < |cs| && Collectable(cs[i], org, now);
               forall i | 0 <= i < |cs| :: i in batch <==> eligible(i) && |Ahead(|cs|, eligible, order, i)| < GC_BATCH
      ensures (set k | 0 <= k < |batch| :: cs[batch[k]].id) == Garbage(cs, org, now)
    {
      var order := (i: nat, j: nat) => i < |cs| && j < |cs| && CandidateBefore(cs[i], cs[j]);
      var eligible := (i: nat) => i < |cs| && Collectable(cs[i], org, now);
      forall i | 0 <= i < |cs|
        ensures i in batch <==>
                  && Collectable(cs[i], org, now)
                  && |set j | 0 <= j < |cs| && Collectable(cs[j], org, now) && CandidateBefore(cs[j], cs[i])| < GC_BATCH
      {
        assert Ahead(|cs|, eligible, order, i)
               == set j | 0 <= j < |cs| && Collectable(cs[j], org, now) && CandidateBefore(cs[j], cs[i]);
      }
      forall id ensures id in (set k | 0 <= k < |batch| :: cs[batch[k]].id) <==> id in Garbage(cs, org, now) {
        if id in Garbage(cs, org, now) {
          var i :| 0 <= i < |cs| && i in batch && cs[i].id == id;
          var k :| 0 <= k < |batch| && batch[k] == i;
        }
      }
    }

    /**
     Removes the first twenty candidates that expired a retention period ago, and the releases nothing
     else refers to. Whatever an unexpired record or an assignment needs stays.
     */
    method CollectExpiredCandidates(org: Id, now: int)
      requires Valid(now)
      modifies `releaseCandidates, `releases
      ensures Valid(now) && Contents() == Collected(old(Contents()), org, now)
      ensures CollectedFrom(old(Contents()), Contents(), org, now)
      ensures forall r | r in idempotencyRecords && r.response.Some? && now < r.expiresAt ::
                HasSupport(r, releaseCandidates)
      ensures forall c | c in old(releaseCandidates) && c !in releaseCandidates ::
                c.org == org && !c.stage.Published? && c.expiresAt <= now - RETENTION
      ensures forall c | c in releaseCandidates :: c in old(releaseCandidates)
    {
      hide Garbage, KeepReleases, KeepCandidates, Inv, Collected, CollectedFrom, Supports, Collectable, CandidateBefore;
      CollectedKeepsInv(Contents(), org, now);
      CollectionIs(Contents(), org, now);
      RecordsAreSupported(Collected(Contents(), org, now), now);
      OnlyGarbageGoes(Contents(), org, now);
      ghost var s := Contents();
      var candidates := releaseCandidates;
      IdsAreDistinct(s, now);
      CandidatesAreOrdered(candidates);
      var order :=
        (i: nat, j: nat) => i < |candidates| && j < |candidates| && CandidateBefore(candidates[i], candidates[j]);
      var eligible := (i: nat) => i < |candidates| && Collectable(candidates[i], org, now);
      var expired := Batch(|candidates|, eligible, order, GC_BATCH);
      BatchIsGarbage(candidates, org, now, expired);
      var expiredIds := set k | 0 <= k < |expired| :: candidates[expired[k]].id;
      if |expired| > 0 {
        var releaseIds := set k | 0 <= k < |expired| :: candidates[expired[k]].release;
        assert candidates[expired[0]].id in expiredIds;
        ExpiredReleases(candidates, expired);
        assert releaseIds == ReleasesOf(candidates, expiredIds);
        KeepCandidatesWithout(expiredIds);
        KeepReleasesInUse(releaseIds);
      }
      assert |expired| == 0 ==> expiredIds == {};
      CollectedIs(s, org, now);
    }

    lemma {:induction false} CollectedIs(s: Store, org: Id, now: int)
      ensures var gone := Garbage(s.candidates, org, now);
              Collected(s, org, now) == if gone == {} then s else
                var kept := KeepCandidates(s.candidates, gone);
                s.(candidates := kept,
                   releases := KeepReleases(s.releases, ReleasesOf(s.candidates, gone), kept, s.assignments))
    {
    }

    lemma {:induction false} IdsAreDistinct(s: Store, now: int)
      requires Inv(s, now)
      ensures DistinctIds(s.candidates)
    {
    }

    lemma {:induction false} RecordsAreSupported(s: Store, now: int)
      requires Inv(s, now)
      ensures forall r | r in s.records && r.response.Some? && now < r.expiresAt :: HasSupport(r, s.candidates)
    {
      hide HasSupport, CandidatesSound, AssignmentsSound, SchedulesSound, ReleasesSound;
      forall r | r in s.records && r.response.Some? && now < r.expiresAt ensures HasSupport(r, s.candidates) {
        var k :| 0 <= k < |s.records| && s.records[k] == r;
        assert RecordSound(s.records[k], s.candidates, now);
      }
    }

    lemma {:induction false} OnlyGarbageGoes(s: Store, org: Id, now: int)
      requires Inv(s, now)
      ensures forall c | c in s.candidates && c !in Collected(s, org, now).candidates ::
                c.org == org && !c.stage.Published? && c.expiresAt <= now - RETENTION
      ensures forall c | c in Collected(s, org, now).candidates :: c in s.candidates
      ensures Collected(s, org, now).records == s.records
    {
      hide Garbage, KeepReleases, KeepCandidates, ReleasesSound, AssignmentsSound, SchedulesSound, RecordsSound;
      forall c | c in s.candidates && c !in Collected(s, org, now).candidates
        ensures c.org == org && !c.stage.Published? && c.expiresAt <= now - RETENTION
      {
        assert c.id in Garbage(s.candidates, org, now);
        GarbageIsOld(s.candidates, org, now, c);
      }
    }

    lemma {:induction false} ExpiredReleases(candidates: seq<Candidate>, expired: seq<nat>)
      requires DistinctIds(candidates) && Within(expired, |candidates|)
      ensures (set k | 0 <= k < |expired| :: candidates[expired[k]].release)
              == ReleasesOf(candidates, set k | 0 <= k < |expired| :: candidates[expired[k]].id)
    {
      var ids := set k | 0 <= k < |expired| :: candidates[expired[k]].id;
      var releases := set k | 0 <= k < |expired| :: candidates[expired[k]].release;
      forall r ensures r in releases <==> r in ReleasesOf(candidates, ids) {
        if r in releases {
          var k :| 0 <= k < |expired| && candidates[expired[k]].release == r;
          assert candidates[expired[k]].id in ids;
        }
        if r in ReleasesOf(candidates, ids) {
          var i :| 0 <= i < |candidates| && candidates[i].id in ids && candidates[i].release == r;
          var k :| 0 <= k < |expired| && candidates[expired[k]].id == candidates[i].id;
          assert expired[k] == i;
        }
      }
    }

    lemma {:induction false} KeepCandidatesFrom(cs: seq<Candidate>, k: nat, gone: set<Id>)
      ensures k < |cs| ==>
                KeepCandidates(cs[k..], gone)
                == (if cs[k].id in gone then [] else [cs[k]]) + KeepCandidates(cs[k + 1..], gone)
      ensures k == |cs| ==> KeepCandidates(cs[k..], gone) == []
    {
      if k < |cs| { assert cs[k..][1..] == cs[k + 1..]; }
    }

    lemma {:induction false} KeepReleasesFrom(
        rs: seq<Release>, k: nat, suspects: set<Id>, candidates: seq<Candidate>, assignments: seq<Assignment>)
      ensures k < |rs| ==>
                KeepReleases(rs[k..], suspects, candidates, assignments)
                == (if rs[k].id !in suspects || Referenced(rs[k], candidates, assignments) then [rs[k]] else [])
                   + KeepReleases(rs[k + 1..], suspects, candidates, assignments)
      ensures k == |rs| ==> KeepReleases(rs[k..], suspects, candidates, assignments) == []
    {
      hide Referenced;
      if k < |rs| { assert rs[k..][1..] == rs[k + 1..]; }
    }

    /** The filter over the candidates. */
    method KeepCandidatesWithout(gone: set<Id>)
      modifies `releaseCandidates
      ensures releaseCandidates == KeepCandidates(old(releaseCandidates), gone)
    {
      hide KeepCandidates;
      var all := releaseCandidates;
      var kept: seq<Candidate> := [];
      assert all[0..] == all;
      for k := 0 to |all|
        invariant kept + KeepCandidates(all[k..], gone) == KeepCandidates(all, gone)
      {
        KeepCandidatesFrom(all, k, gone);
        if all[k].id !in gone {
          kept := kept + [all[k]];
        }
      }
      KeepCandidatesFrom(all, |all|, gone);
      releaseCandidates := kept;
    }

    /** The filter over the releases. */
    method KeepReleasesInUse(suspects: set<Id>)
      modifies `releases
      ensures releases == KeepReleases(old(releases), suspects, releaseCandidates, releaseAssignments)
    {
      hide Referenced, KeepReleases;
      var all, candidates, assignments := releases, releaseCandidates, releaseAssignments;
      var kept: seq<Release> := [];
      assert all[0..] == all;
      for k := 0 to |all|
        invariant kept + KeepReleases(all[k..], suspects, candidates, assignments)
                  == KeepReleases(all, suspects, candidates, assignments)
      {
        KeepReleasesFrom(all, k, suspects, candidates, assignments);
        if all[k].id !in suspects || Referenced(all[k], candidates, assignments) {
          kept := kept + [all[k]];
        }
      }
      KeepReleasesFrom(all, |all|, suspects, candidates, assignments);
      releases := kept;
    }

    // ---------------------------------------------------------------- creating

    /** The checks of a create after garbage collection, up to the frozen release. */
    method PrepareRelease(org: Id, data: CandidateInput, policy: Policy, now: int) returns (r: Prepared)
      ensures r == Prepare(Contents(), org, data, policy, now)
      ensures Checked(Contents(), org, data, policy, now, r)
      ensures r.Ready? ==> ListedInOrder(r.screens, data.screens)
    {
      hide FreezePlaylist, CountOpen, SortUnique, ScreensExist, AssetsOf, Checked, ListedInOrder;
      ChecksAre(Contents(), org, data, policy, now);
      PreparedScreens(Contents(), org, data, policy, now);
      var screenIds := SortUnique(data.screens);
      if |screenIds| == 0 || |screenIds| > MAX_SCREENS {
        return NotReady(ScreenNotFound);
      }
      if CountOpen(releaseCandidates, org, Some(now)) >= MAX_PENDING {
        return NotReady(TooLarge);
      }
      if CountOpen(releaseCandidates, org, None) >= MAX_UNPUBLISHED {
        return NotReady(TooLarge);
      }
      var playlist := FindPlaylist(playlists, org, data.playlist);
      if playlist.None? {
        return NotReady(PlaylistNotFound);
      }
      if !ScreensExist(screens, org, screenIds) {
        return NotReady(ScreenNotFound);
      }
      var p := playlist.value;
      var assets := AssetsOf(p.items, media, org);
      var failure := policy(assets, now);
      if failure.Some? {
        return NotReady(failure.value);
      }
      var frozen := CanonicalReleaseItems(p.items, assets);
      if frozen.NoPlayableItems? {
        return NotReady(NothingPlayable);
      }
      if frozen.AssetNotFound? {
        return NotReady(AssetMissing);
      }
      return Ready(ReleaseSnapshot(p.id, p.updatedAt, p.name, p.description, frozen.items), screenIds);
    }

    /** The changes of a create that has passed its checks; the same call is answered with its response from now on. */
    method CommitCandidate(
        org: Id, data: CandidateInput, who: Caller, snapshot: ReleaseSnapshot, screenIds: seq<int>, now: int)
      returns (c: Candidate)
      requires Valid(now) && now < data.expiresAt && ListedInOrder(screenIds, data.screens)
      requires forall k | 0 <= k < |idempotencyRecords| :: !HasKey(idempotencyRecords[k], org, Create, who.keyHash)
      modifies this
      ensures (Contents(), c) == Commit(old(Contents()), org, data, who, snapshot, screenIds, now)
      ensures CreatedWith(old(Contents()), Contents(), c, org, data, who, snapshot, now)
      ensures Valid(now) && Replay(Contents(), org, Create, who, now) == Some(Completed(c, true))
    {
      hide Compact, FindByDigest, NewCandidate, Inv, Replay, Remember, Erase, RecordsSound, CandidatesSound,
           CreatedWith, ListedInOrder;
      ghost var s := Contents();
      CommitIs(s, org, data, who, snapshot, screenIds, now);
      CommitKeepsInv(s, org, data, who, snapshot, screenIds, now);
      CommittedIsSound(s, org, data, who, snapshot, screenIds, now);
      var found := FindByDigest(releases, org, OfRelease(snapshot));
      var release :=
        if found.Some? then found.value else Release(nextId, org, snapshot, OfRelease(snapshot), who.actor, now);
      if found.None? {
        nextId := nextId + 1;
      }
      c := NewCandidate(nextId, org, release, snapshot, data, screenIds, who.actor, now);
      nextId := nextId + 1;
      if found.None? {
        releases := releases + [release];
      }
      releaseCandidates := releaseCandidates + [c];
      SoundRecords(Contents(), now);
      RememberReleaseCandidate(org, Create, who, c, now);
      CompactExpiredIdempotencyResponses(now);
    }

    lemma {:induction false} SoundRecords(s: Store, now: int)
      requires Inv(s, now)
      ensures RecordsSound(s.records, s.candidates, now) && CandidatesSound(s.candidates, s.releases, s.nextId)
    {
    }

    /** A create: a completed one is answered in the same way when the call is repeated. */
    method CreateReleaseCandidate(org: Id, data: CandidateInput, who: Caller, policy: Policy, now: int)
      returns (r: Result)
      requires Valid(now)
      modifies this
      ensures (Contents(), r) == Created(old(Contents()), org, data, who, policy, now)
      ensures CreateDecided(old(Contents()), Contents(), r, org, data, who, policy, now)
      ensures Valid(now) && r != Thrown
      ensures r.Completed? ==> Replay(Contents(), org, Create, who, now) == Some(Completed(r.candidate, true))
    {
      hide Collected, Replay, Capable, Prepare, Commit, Inv, HasSupport, CreateDecided, CollectedFrom, Checked,
           CreatedWith, KeyUsed, AnsweredFromRecord, ListedInOrder;
      ghost var s := Contents();
      CreateDecides(s, org, data, who, policy, now);
      ReplayNeverThrows(s, org, Create, who, now);
      ReplaySaysCompleted(s, org, Create, who, now);
      if !Capable(users, org, who.actor, MayPerform(Create)) {
        return Refused(Forbidden);
      }
      var replay := ReleaseCandidateReplay(org, Create, who, now);
      if replay.Some? {
        return replay.value;
      }
      if data.expiresAt <= now || data.expiresAt > now + MAX_LIFETIME {
        return Refused(Expired);
      }
      CollectExpiredCandidates(org, now);
      var prepared := PrepareRelease(org, data, policy, now);
      if prepared.NotReady? {
        return Refused(prepared.reason);
      }
      var candidate := CommitCandidate(org, data, who, prepared.snapshot, prepared.screens, now);
      return Completed(candidate, false);
    }

    lemma {:induction false} ReplaySaysCompleted(s: Store, org: Id, op: Operation, who: Caller, now: int)
      ensures var r := Replay(s, org, op, who, now); r.Some? && r.value.Completed? ==> r.value.replayed
    {
    }

    // ---------------------------------------------------------------- submitting and approving

    method TransitionReleaseCandidate(org: Id, op: Operation, id: Id, expected: Digest, who: Caller, now: int)
      returns (r: Result)
      requires Valid(now) && (op.Submit? || op.Approve?)
      modifies this
      ensures (Contents(), r) == Transitioned(old(Contents()), org, op, id, expected, who, now)
      ensures TransitionDecided(old(Contents()), Contents(), r, org, op, id, expected, who, now)
      ensures Valid(now) && r != Thrown
      ensures r.Completed? ==> Replay(Contents(), org, op, who, now) == Some(Completed(r.candidate, true))
    {
      hide Compact, Replay, ValidCandidateDigest, Inv, Remember, Erase, RecordsSound, CandidatesSound,
           TransitionDecided, Compacted, KeyUsed, AnsweredFromRecord;
      ghost var s := Contents();
      TransitionDecides(s, org, op, id, expected, who, now);
      TransitionKeepsInv(s, org, op, id, expected, who, now);
      ReplayNeverThrows(s, org, op, who, now);
      ReplaySaysCompleted(s, org, op, who, now);
      var actor := Identity.FindActive(users, who.actor, org);
      if actor.None? || actor.value.role !in MayPerform(op) {
        return Refused(Forbidden);
      }
      var replay := ReleaseCandidateReplay(org, op, who, now);
      if replay.Some? {
        return replay.value;
      }
      var k := FindCandidate(releaseCandidates, org, id);
      if k.None? {
        return Refused(NotFound);
      }
      var candidate := releaseCandidates[k.value];
      if candidate.digest != expected || !ValidCandidateDigest(candidate) {
        return Refused(StaleDigest);
      }
      if candidate.expiresAt <= now {
        return Refused(Expired);
      }
      var updated := candidate;
      if op.Submit? {
        if candidate.author != who.actor {
          return Refused(Forbidden);
        }
        if !candidate.stage.Draft? {
          return Refused(InvalidState);
        }
        updated := updated.(stage := InReview, submittedAt := Some(now));
      } else {
        if candidate.author == who.actor {
          return Refused(AuthorCannotApprove);
        }
        if !candidate.stage.InReview? {
          return Refused(InvalidState);
        }
        var approval := Approval(nextId, candidate.org, candidate.id, candidate.digest, who.actor,
                                 actor.value.authenticationEpoch, actor.value.authorizationEpoch, now);
        nextId := nextId + 1;
        updated := updated.(stage := Approved, approvedAt := Some(now), approval := Some(approval));
      }
      AdvancedKeepsInv(s, k.value, op, expected, actor.value, now);
      releaseCandidates := releaseCandidates[k.value := updated];
      assert releaseCandidates[k.value] == updated;
      SoundRecords(Contents(), now);
      RememberReleaseCandidate(org, op, who, updated, now);
      CompactExpiredIdempotencyResponses(now);
      return Completed(updated, false);
    }

    // ---------------------------------------------------------------- publishing and withdrawing

    /** The checks of a publication, in order: for a stored candidate, the first thing that stands in its way. */
    method CheckPublication(org: Id, candidate: Candidate, expected: Digest, policy: Policy, now: int)
      returns (r: Option<Reason>)
      requires Valid(now) && candidate in releaseCandidates && candidate.org == org
      ensures r == PublicationRefusal(Contents(), org, candidate, expected, policy, now)
      ensures r == PublicationBar(Contents(), candidate, expected, policy, now)
    {
      hide ValidCandidateDigest, ValidReleaseDigest, ScreensExist, AssetsIn, Inv, PublicationBar;
      ghost var k :| 0 <= k < |releaseCandidates| && releaseCandidates[k] == candidate;
      BarIsRefusal(Contents(), k, expected, policy, now);
      if candidate.digest != expected || !ValidCandidateDigest(candidate) {
        return Some(StaleDigest);
      }
      if candidate.expiresAt <= now {
        return Some(Expired);
      }
      if !candidate.stage.Approved? || candidate.approval.None? {
        return Some(InvalidState);
      }
      var approval := candidate.approval.value;
      if approval.digest != candidate.digest {
        return Some(ApprovalStale);
      }
      var approver := Identity.FindActive(users, approval.approver, org);
      if approver.None? || approver.value.role !in MayPerform(Approve)
         || approver.value.authenticationEpoch != approval.authentication
         || approver.value.authorizationEpoch != approval.authorization
      {
        return Some(ApprovalStale);
      }
      var release := FindRelease(releases, org, candidate.release);
      if release.None? || release.value.digest != candidate.releaseDigest || !ValidReleaseDigest(release.value) {
        return Some(StaleDigest);
      }
      var failure := policy(AssetsIn(release.value.content.items), now);
      if failure.Some? {
        return failure;
      }
      if !ScreensExist(screens, org, candidate.screens) {
        return Some(ScreenNotFound);
      }
      return None;
    }

    /**
     The changes of a publication that has passed its checks: a schedule whose whole history is the
     one assignment that the published candidate backs.
     */
    method CommitPublication(k: nat, who: Caller, now: int) returns (published: Candidate)
      requires Valid(now) && k < |releaseCandidates|
      requires releaseCandidates[k].stage.Approved? && now < releaseCandidates[k].expiresAt
      requires FindRecord(idempotencyRecords, releaseCandidates[k].org, Publish, who.keyHash).None?
      modifies this
      ensures Contents() == PublishedStore(old(Contents()), k, who, now)
      ensures published == PublishedForm(old(Contents()), old(releaseCandidates[k]), now)
      ensures PublishedAt(old(Contents()), Contents(), Completed(published, false), k, who, now)
      ensures Valid(now) && Replay(Contents(), published.org, Publish, who, now) == Some(Completed(published, true))
      ensures published.scheduleId.Some?
              && var a := Latest(releaseAssignments, published.scheduleId.value);
                 a.Some? && Backs(published, a.value)
                 && History(releaseAssignments, published.scheduleId.value) == [a.value]
    {
      hide Compact, CanonicalAssignment, Inv, Replay, Remember, RecordsSound, CandidatesSound, Backs, History, Latest,
           PublishedAt, Compacted;
      ghost var s := Contents();
      PublishedStoreIs(s, k, who, now);
      PublishedStoreKeepsInv(s, k, who, now);
      PublicationOpensHistory(s, k, who, now);
      SoundRecords(PublishedStore(s, k, who, now), now);
      var candidate := releaseCandidates[k];
      var scheduleId, assignmentId := nextId, nextId + 1;
      nextId := nextId + 2;
      var digest :=
        OfAssignment(CanonicalAssignment(candidate.releaseDigest, Assigned, candidate.schedule, candidate.screens,
                                         None));
      var schedule :=
        ScheduleRecord(scheduleId, candidate.org, candidate.sourcePlaylist, candidate.release, assignmentId);
      var assignment :=
        Assignment(assignmentId, candidate.org, candidate.release, scheduleId, candidate.screens, Assigned,
                                   candidate.schedule, digest, None, who.actor, now);
      published := candidate.(stage := Published, publishedAt := Some(now),
                              scheduleId := Some(scheduleId), assignmentId := Some(assignmentId));
      releaseCandidates := releaseCandidates[k := published];
      assert releaseCandidates[k] == published;
      schedules := schedules + [schedule];
      releaseAssignments := releaseAssignments + [assignment];
      RememberReleaseCandidate(candidate.org, Publish, who, published, now);
      CompactExpiredIdempotencyResponses(now);
    }

    method PublishReleaseCandidate(org: Id, id: Id, expected: Digest, who: Caller, policy: Policy, now: int)
      returns (r: Result)
      requires Valid(now)
      modifies this
      ensures (Contents(), r) == PublishedBy(old(Contents()), org, id, expected, who, policy, now)
      ensures PublishDecided(old(Contents()), Contents(), r, org, id, expected, who, policy, now)
      ensures Valid(now) && r != Thrown
      ensures r.Completed? ==> Replay(Contents(), org, Publish, who, now) == Some(Completed(r.candidate, true))
    {
      hide Replay, Capable, PublicationRefusal, PublishedStore, PublishedForm, Inv, PublicationBar, PublishedAt,
           PublishDecided, KeyUsed, AnsweredFromRecord, Backs, History;
      ghost var s := Contents();
      PublishDecides(s, org, id, expected, who, policy, now);
      ReplayNeverThrows(s, org, Publish, who, now);
      ReplaySaysCompleted(s, org, Publish, who, now);
      if !Capable(users, org, who.actor, MayPerform(Publish)) {
        return Refused(Forbidden);
      }
      var replay := ReleaseCandidateReplay(org, Publish, who, now);
      if replay.Some? {
        return replay.value;
      }
      var k := FindCandidate(releaseCandidates, org, id);
      if k.None? {
        return Refused(NotFound);
      }
      var refusal := CheckPublication(org, releaseCandidates[k.value], expected, policy, now);
      if refusal.Some? {
        return Refused(refusal.value);
      }
      PublishedFormOrg(s, releaseCandidates[k.value], now);
      NothingBars(s, releaseCandidates[k.value], expected, policy, now);
      var published := CommitPublication(k.value, who, now);
      return Completed(published, false);
    }

    lemma {:induction false} NothingBars(s: Store, c: Candidate, expected: Digest, policy: Policy, now: int)
      requires PublicationBar(s, c, expected, policy, now).None?
      ensures c.stage.Approved? && now < c.expiresAt
    {
    }

    lemma {:induction false} PublishedFormOrg(s: Store, c: Candidate, now: int)
      ensures PublishedForm(s, c, now).org == c.org
    {
    }

    method WithdrawSchedule(org: Id, scheduleId: Id, actor: Id, now: int) returns (r: Withdrawal)
      requires Valid(now)
      modifies this
      ensures r == Withdraw(old(Contents()), org, scheduleId, actor, now)
      ensures Contents() == WithdrawnStore(old(Contents()), org, scheduleId, actor, now)
      ensures WithdrawDecided(old(Contents()), Contents(), r, org, scheduleId, actor, now)
      ensures Valid(now)
      ensures r.WithdrawnAs? ==> IsWithdrawn(Contents(), scheduleId)
    {
      hide CanonicalAssignment, Latest, Inv, IsWithdrawn, WithdrawDecided;
      ghost var s := Contents();
      WithdrawDecides(s, org, scheduleId, actor, now);
      WithdrawKeepsInv(s, org, scheduleId, actor, now);
      WithdrawnIsLatest(s, org, scheduleId, actor, now);
      if !Capable(users, org, actor, MAY_WITHDRAW) {
        return WithdrawForbidden;
      }
      var schedule := FindSchedule(schedules, org, scheduleId);
      if schedule.None? {
        return NotWithdrawn(false);
      }
      var previous := LatestAssignment(scheduleId);
      if previous.None? {
        return NotWithdrawn(false);
      }
      if previous.value.state.Withdrawn? {
        return NotWithdrawn(true);
      }
      var release := FindRelease(releases, org, schedule.value.release);
      if release.None? {
        return NotWithdrawn(false);
      }
      var p := previous.value;
      var digest :=
        OfAssignment(CanonicalAssignment(release.value.digest, Withdrawn, p.schedule, p.screens, Some(p.id)));
      var assignment := Assignment(nextId, org, schedule.value.release, scheduleId, p.screens, Withdrawn,
                                   p.schedule, digest, Some(p.id), actor, now);
      nextId := nextId + 1;
      releaseAssignments := releaseAssignments + [assignment];
      return WithdrawnAs(assignment);
    }

    lemma {:induction false} WithdrawnIsLatest(s: Store, org: Id, schedule: Id, actor: Id, now: int)
      ensures Withdraw(s, org, schedule, actor, now).WithdrawnAs? ==>
                IsWithdrawn(WithdrawnStore(s, org, schedule, actor, now), schedule)
    {
      hide CanonicalAssignment, Capable, FindSchedule, FindRelease;
      var w := Withdraw(s, org, schedule, actor, now);
      if w.WithdrawnAs? { LatestOfLonger(s.assignments, w.assignment, schedule); }
    }

    // ---------------------------------------------------------------- what is on air

    /** What one schedule plays on the screen: its last assignment, if that is on air with a valid digest. */
    method PlayingNow(schedule: ScheduleRecord, org: Id, screen: int, at: int, open: OpenWindow)
      returns (r: Option<(Release, Assignment)>)
      ensures r == Plays(Contents(), schedule, org, screen, at, open)
      ensures forall release: Release, a: Assignment ::
                r == Some((release, a)) <==>
                  && schedule.org == org && a.org == org && Latest(releaseAssignments, schedule.id) == Some(a)
                  && OnAir(a, screen, at, open) && FindRelease(releases, org, a.release) == Some(release)
                  && ValidAssignmentDigest(a, release)
    {
      hide Latest, ValidAssignmentDigest, OnAir;
      forall release: Release, a: Assignment
        ensures Plays(Contents(), schedule, org, screen, at, open) == Some((release, a)) <==>
                  && schedule.org == org && a.org == org && Latest(releaseAssignments, schedule.id) == Some(a)
                  && OnAir(a, screen, at, open) && FindRelease(releases, org, a.release) == Some(release)
                  && ValidAssignmentDigest(a, release)
      {
        PlaysExactly(Contents(), schedule, org, screen, at, open, release, a);
      }
      if schedule.org != org {
        return None;
      }
      var assignment := LatestAssignment(schedule.id);
      if assignment.None? || assignment.value.org != org || !OnAir(assignment.value, screen, at, open) {
        return None;
      }
      var release := FindRelease(releases, org, assignment.value.release);
      if release.None? || !ValidAssignmentDigest(assignment.value, release.value) {
        return None;
      }
      return Some((release.value, assignment.value));
    }

    lemma {:induction false} WhatIsActive(s: Store, now: int, org: Id, screen: int, at: int, open: OpenWindow)
      requires Inv(s, now)
      ensures forall release: Release, a: Assignment ::
                (release, a) in ActiveReleases(s, s.schedules, org, screen, at, open) <==>
                  Shows(s, org, screen, at, open, release, a)
    {
      hide ActiveReleases, Shows, Inv;
      forall release: Release, a: Assignment
        ensures (release, a) in ActiveReleases(s, s.schedules, org, screen, at, open) <==>
                  Shows(s, org, screen, at, open, release, a)
      {
        ActiveExactly(s, now, org, screen, at, open, release, a);
      }
    }

    /** The releases on air for the screen: those of the last assignments of their schedules, and no others. */
    method ActiveOrdinaryReleases(org: Id, screen: int, at: int, open: OpenWindow, ghost now: int)
      returns (r: seq<(Release, Assignment)>)
      requires Valid(now)
      ensures r == ActiveReleases(Contents(), schedules, org, screen, at, open)
      ensures forall release: Release, a: Assignment ::
                (release, a) in r <==> Shows(Contents(), org, screen, at, open, release, a)
    {
      hide Plays, Shows, Inv;
      ghost var s := Contents();
      WhatIsActive(s, now, org, screen, at, open);
      assert s.schedules == schedules && s.assignments == releaseAssignments && s.releases == releases;
      hide Contents;
      var all := schedules;
      r := [];
      for k := 0 to |all|
        invariant ActiveReleases(s, all, org, screen, at, open)
                  == r + ActiveReleases(s, all[k..], org, screen, at, open)
      {
        assert all[k..][0] == all[k] && all[k..][1..] == all[k + 1..];
        var playing := PlayingNow(all[k], org, screen, at, open);
        if playing.Some? {
          r := r + [playing.value];
        }
      }
    }

    /** Authorizes exactly what the screen is playing. */
    method AuthorizeMediaDelivery(d: Delivery, now: int, at: int, open: OpenWindow) returns (authorized: bool)
      requires Valid(now)
      ensures authorized == MediaAuthorized(Contents(), d, at, open)
      ensures authorized <==> 1 <= d.sizeBytes <= MAX_SAFE_INTEGER && Playing(Contents(), d, at, open)
      ensures authorized <==>
                && 1 <= d.sizeBytes <= 9_007_199_254_740_991
                && exists r, a ::
                     && Shows(Contents(), d.org, d.screen, at, open, r, a)
                     && a.id == d.assignment && a.digest == d.assignmentDigest && Holds(r, d, at)
    {
      hide ValidAssignmentDigest, OnAir, Delivers, Inv, Playing, Shows, Holds;
      DeliveryAgreesWithPlayback(Contents(), now, d, at, open);
      AuthorizedExactly(Contents(), now, d, at, open);
      if d.sizeBytes < 1 || d.sizeBytes > MAX_SAFE_INTEGER {
        return false;
      }
      var found := FindAssignment(releaseAssignments, d.org, d.assignment);
      if found.None? || found.value.digest != d.assignmentDigest {
        return false;
      }
      var assignment := found.value;
      var latest := LatestAssignment(assignment.scheduleId);
      if latest.value.id != assignment.id || !OnAir(assignment, d.screen, at, open) {
        return false;
      }
      var release := FindRelease(releases, d.org, assignment.release);
      if release.None? || !ValidAssignmentDigest(assignment, release.value) {
        return false;
      }
      var items := release.value.content.items;
      for k := 0 to |items|
        invariant forall j | 0 <= j < k :: !Delivers(items[j], d, at)
      {
        if Delivers(items[k], d, at) {
          return true;
        }
      }
      return false;
    }
  }
}
