/** What a create comes to, case by case, in terms of the stored fields alone. */
module ReleaseCreation {
  import opened Common
  import opened Batches
  import opened Canonical
  import opened Releases
  import opened ReleaseInvariants
  import opened ReleasePreparation
  import opened ReleaseDecisions
  import opened Authority
  import Identity

  // ------------------------------------------------------------------ garbage collection

  ghost function PastRetention(cs: seq<Candidate>, org: Id, now: int): nat -> bool {
    (k: nat) => k < |cs| && cs[k].org == org && cs[k].stage != Published && cs[k].expiresAt <= now - THIRTY_DAYS
  }

  ghost function ByExpiryThenId(cs: seq<Candidate>): Order {
    (i: nat, j: nat) => i < |cs| && j < |cs| &&
      (cs[i].expiresAt < cs[j].expiresAt || (cs[i].expiresAt == cs[j].expiresAt && cs[i].id < cs[j].id))
  }

  /** The first twenty unpublished candidates of the organization that expired thirty days ago. */
  ghost predicate FirstTwenty(cs: seq<Candidate>, org: Id, now: int, gone: set<nat>) {
    FirstFew(|cs|, PastRetention(cs, org, now), ByExpiryThenId(cs), gone, 20)
  }

  /** A release goes exactly when it was a collected candidate's and nothing that is left refers to it. */
  ghost predicate Orphaned(s: Store, gone: set<nat>, kept: seq<Candidate>, r: Release) {
    && (exists i: nat :: i in gone && i < |s.candidates| && s.candidates[i].release == r.id)
    && (forall c | c in kept :: c.release != r.id)
    && (forall a | a in s.assignments :: a.release != r.id)
  }

  /** Collection takes the first twenty and the releases they leave orphaned; the rest stays, in its order. */
  ghost predicate CollectedFrom(s: Store, t: Store, org: Id, now: int) {
    && t == s.(candidates := t.candidates, releases := t.releases)
    && exists gone: set<nat>, orphans: set<nat> ::
         && FirstTwenty(s.candidates, org, now, gone)
         && t.candidates == Without(s.candidates, gone)
         && (forall k: nat :: k in orphans <==>
               k < |s.releases| && Orphaned(s, gone, t.candidates, s.releases[k]))
         && t.releases == Without(s.releases, orphans)
  }

  lemma {:induction false} KeptCandidatesAre(cs: seq<Candidate>, ids: set<Id>, gone: set<nat>, k: nat)
    requires k <= |cs| && forall i: nat | i < |cs| :: i in gone <==> cs[i].id in ids
    ensures KeepCandidates(cs[k..], ids) == Without(cs, gone, k)
    decreases |cs| - k
  {
    if k < |cs| {
      KeptCandidatesAre(cs, ids, gone, k + 1);
      assert cs[k..][1..] == cs[k + 1..];
    }
  }

  lemma {:induction false} KeptReleasesAre(rs: seq<Release>, suspects: set<Id>, cs: seq<Candidate>,
      as_: seq<Assignment>, gone: set<nat>, k: nat)
    requires k <= |rs|
    requires forall i: nat | i < |rs| :: i in gone <==> rs[i].id in suspects && !Referenced(rs[i], cs, as_)
    ensures KeepReleases(rs[k..], suspects, cs, as_) == Without(rs, gone, k)
    decreases |rs| - k
  {
    hide Referenced;
    if k < |rs| {
      KeptReleasesAre(rs, suspects, cs, as_, gone, k + 1);
      assert rs[k..][1..] == rs[k + 1..];
    }
  }

  /** The candidates that go, by position. */
  lemma {:induction false} GarbageIsFirstTwenty(cs: seq<Candidate>, org: Id, now: int) returns (gone: set<nat>)
    requires DistinctIds(cs)
    ensures FirstTwenty(cs, org, now, gone)
    ensures forall i: nat | i < |cs| :: i in gone <==> cs[i].id in Garbage(cs, org, now)
    ensures forall i: nat | i in gone :: i < |cs|
  {
    var n, eligible, before := |cs|, PastRetention(cs, org, now), ByExpiryThenId(cs);
    gone := set i: nat | i < n && eligible(i) && |Ahead(n, eligible, before, i)| < 20;
    assert StrictOrder(before, n);
    FewAreFirst(n, eligible, before, gone, 20);
    forall i: nat | i < n
      ensures Collectable(cs[i], org, now) == eligible(i)
      ensures |set j | 0 <= j < n && Collectable(cs[j], org, now) && CandidateBefore(cs[j], cs[i])|
              == |Ahead(n, eligible, before, i)|
    {
      assert Ahead(n, eligible, before, i)
             == set j | 0 <= j < n && Collectable(cs[j], org, now) && CandidateBefore(cs[j], cs[i]);
    }
    GarbageByPosition(cs, org, now, gone);
  }

  lemma {:induction false} GarbageByPosition(cs: seq<Candidate>, org: Id, now: int, gone: set<nat>)
    requires DistinctIds(cs)
    requires forall i: nat :: i in gone <==>
               i < |cs| && Collectable(cs[i], org, now)
               && |set j | 0 <= j < |cs| && Collectable(cs[j], org, now) && CandidateBefore(cs[j], cs[i])| < 20
    ensures forall i: nat | i < |cs| :: i in gone <==> cs[i].id in Garbage(cs, org, now)
  {
  }

  /** In a sound store collection does exactly that. */
  lemma {:induction false} CollectionIs(s: Store, org: Id, now: int)
    requires Inv(s, now)
    ensures CollectedFrom(s, Collected(s, org, now), org, now)
  {
    hide Garbage, FirstTwenty, AssignmentsSound, SchedulesSound, RecordsSound, ReleasesSound, CandidateSound,
         HasRelease, KeepCandidates, KeepReleases, Referenced, Orphaned;
    var t, ids := Collected(s, org, now), Garbage(s.candidates, org, now);
    var gone := GarbageIsFirstTwenty(s.candidates, org, now);
    KeptCandidatesAre(s.candidates, ids, gone, 0);
    assert s.candidates[0..] == s.candidates && s.releases[0..] == s.releases;
    if ids == {} {
      NothingCollected(s, gone);
    } else {
      var orphans := set k: nat | k < |s.releases| && Orphaned(s, gone, t.candidates, s.releases[k]);
      forall k: nat | k < |s.releases|
        ensures k in orphans <==> s.releases[k].id in ReleasesOf(s.candidates, ids)
                                  && !Referenced(s.releases[k], t.candidates, s.assignments)
      {
        OrphanedIs(s, ids, gone, t.candidates, s.releases[k]);
      }
      KeptReleasesAre(s.releases, ReleasesOf(s.candidates, ids), t.candidates, s.assignments, orphans, 0);
    }
  }

  lemma {:induction false} NothingCollected(s: Store, gone: set<nat>)
    requires forall i: nat | i in gone :: i < |s.candidates|
    requires forall i: nat | i < |s.candidates| :: i !in gone
    ensures gone == {} && Without(s.candidates, gone) == s.candidates && Without(s.releases, {}) == s.releases
    ensures forall k: nat | k < |s.releases| :: !Orphaned(s, gone, s.candidates, s.releases[k])
  {
    assert gone == {};
    WithoutNone(s.candidates, 0);
    WithoutNone(s.releases, 0);
  }

  lemma {:induction false} OrphanedIs(s: Store, ids: set<Id>, gone: set<nat>, kept: seq<Candidate>, r: Release)
    requires forall i: nat | i < |s.candidates| :: i in gone <==> s.candidates[i].id in ids
    ensures Orphaned(s, gone, kept, r) <==>
              r.id in ReleasesOf(s.candidates, ids) && !Referenced(r, kept, s.assignments)
  {
    if forall c | c in kept :: c.release != r.id {
      forall k | 0 <= k < |kept| ensures kept[k].release != r.id { assert kept[k] in kept; }
    }
    if forall a | a in s.assignments :: a.release != r.id {
      forall k | 0 <= k < |s.assignments| ensures s.assignments[k].release != r.id {
        assert s.assignments[k] in s.assignments;
      }
    }
    if exists i: nat :: i in gone && i < |s.candidates| && s.candidates[i].release == r.id {
      var i: nat :| i in gone && i < |s.candidates| && s.candidates[i].release == r.id;
      assert s.candidates[i].id in ids;
    }
  }

  // ------------------------------------------------------------------ the candidate created

  /** The first release of the organization with the digest. */
  ghost predicate Reusable(rs: seq<Release>, k: nat, org: Id, digest: Digest) {
    && k < |rs| && rs[k].org == org && rs[k].digest == digest
    && forall j: nat | j < k :: !(rs[j].org == org && rs[j].digest == digest)
  }

  /**
   The caller's own draft of what was asked for, on the stored release with the same content or on a
   new one, recorded under the caller's key; nothing else has changed.
   */
  ghost predicate CreatedWith(s: Store, t: Store, c: Candidate, org: Id, data: CandidateInput, who: Caller,
      snapshot: ReleaseSnapshot, now: int)
  {
    && c == Candidate(c.id, org, c.release, OfRelease(snapshot), data.playlist, Draft, c.digest, who.actor,
                      snapshot.items, c.schedule, c.screens, data.expiresAt, now, None, None, None, None, None, None)
    && InOrder(c.schedule, data.schedule) && ListedInOrder(c.screens, data.screens)
    && c.digest == OfCandidate(CandidateSnapshot(OfRelease(snapshot), c.schedule, c.screens, data.expiresAt))
    && t == s.(releases := t.releases, candidates := s.candidates + [c], records := t.records, nextId := t.nextId)
    && Recorded(s.records, t.records, org, Create, who, c, now)
    && (if exists k: nat :: Reusable(s.releases, k, org, OfRelease(snapshot)) then
          && c.id == s.nextId && t.nextId == s.nextId + 1 && t.releases == s.releases
          && exists k: nat :: Reusable(s.releases, k, org, OfRelease(snapshot)) && c.release == s.releases[k].id
        else
          && c.release == s.nextId && c.id == s.nextId + 1 && t.nextId == s.nextId + 2
          && t.releases == s.releases + [Release(s.nextId, org, snapshot, OfRelease(snapshot), who.actor, now)])
  }

  lemma {:induction false} ReusableIsFound(rs: seq<Release>, org: Id, digest: Digest)
    ensures var r := FindByDigest(rs, org, digest);
            && (r.Some? <==> exists k: nat :: Reusable(rs, k, org, digest))
            && (r.Some? ==> exists k: nat :: Reusable(rs, k, org, digest) && rs[k] == r.value)
  {
    if rs != [] {
      var rest := rs[1..];
      ReusableIsFound(rest, org, digest);
      if rs[0].org == org && rs[0].digest == digest {
        assert Reusable(rs, 0, org, digest);
      } else {
        forall k: nat ensures Reusable(rest, k, org, digest) <==> Reusable(rs, k + 1, org, digest) {
          assert forall j: nat | 0 < j < |rs| :: rs[j] == rest[j - 1];
          if Reusable(rs, k + 1, org, digest) {
            assert forall j: nat | j < k :: rest[j] == rs[j + 1];
          }
        }
        if exists k: nat :: Reusable(rs, k, org, digest) {
          var k: nat :| Reusable(rs, k, org, digest);
          assert Reusable(rest, k - 1, org, digest);
        }
      }
    }
  }

  lemma {:induction false} CommitIs(s: Store, org: Id, data: CandidateInput, who: Caller, snapshot: ReleaseSnapshot,
      screens: seq<int>, now: int)
    requires ListedInOrder(screens, data.screens)
    ensures var (t, c) := Commit(s, org, data, who, snapshot, screens, now);
            CreatedWith(s, t, c, org, data, who, snapshot, now)
  {
    hide Compact, Remember, Recorded, FindByDigest, Reusable, SortUnique;
    var (t, c) := Commit(s, org, data, who, snapshot, screens, now);
    ReusableIsFound(s.releases, org, OfRelease(snapshot));
    RememberedIsRecorded(s.records, org, Create, who, c, now);
    ScheduleIsInOrder(data.schedule);
  }

  lemma {:induction false} ScheduleIsInOrder(schedule: Schedule)
    ensures InOrder(CanonicalSchedule(schedule), schedule)
  {
  }

  /** What a create comes to. */
  ghost predicate CreateDecided(
      s: Store, t: Store, r: Result, org: Id, data: CandidateInput, who: Caller, policy: Policy, now: int)
  {
    if !ActsAs(s.users, org, who.actor, {Identity.Owner, Identity.Admin, Identity.Publisher}) then
      t == s && r == Refused(Forbidden)
    else if KeyUsed(s.records, org, Create, who.keyHash) then AnsweredFromRecord(s, t, r, org, Create, who, now)
    else if !(now < data.expiresAt <= now + 604_800_000) then t == s && r == Refused(Expired)
    else
      exists collected, prepared ::
        && CollectedFrom(s, collected, org, now) && Checked(collected, org, data, policy, now, prepared)
        && match prepared
           case NotReady(reason) => t == collected && r == Refused(reason)
           case Ready(snapshot, _) =>
             && r.Completed? && !r.replayed
             && CreatedWith(collected, t, r.candidate, org, data, who, snapshot, now)
  }

  /**
   In a sound store every create is answered as listed: refused, answered from its record, or, exactly
   when it passes the checks after collection, completed with the caller's own draft.
   */
  lemma {:induction false} CreateDecides(
      s: Store, org: Id, data: CandidateInput, who: Caller, policy: Policy, now: int)
    requires Inv(s, now)
    ensures var (t, r) := Created(s, org, data, who, policy, now);
            CreateDecided(s, t, r, org, data, who, policy, now)
  {
    hide Replay, AnsweredFromRecord, KeyUsed, ActsAs, Inv, Collected, CollectedFrom, Prepare, Checked, Commit,
         CreatedWith;
    ActingIsFound(s.users, org, who.actor, {Identity.Owner, Identity.Admin, Identity.Publisher});
    KeyDecides(s, org, Create, who, now);
    CollectionIs(s, org, now);
    var collected := Collected(s, org, now);
    ChecksAre(collected, org, data, policy, now);
    var prepared := Prepare(collected, org, data, policy, now);
    if prepared.Ready? {
      PreparedScreens(collected, org, data, policy, now);
      CommitIs(collected, org, data, who, prepared.snapshot, prepared.screens, now);
    }
  }

  lemma {:induction false} PreparedScreens(s: Store, org: Id, data: CandidateInput, policy: Policy, now: int)
    ensures var prepared := Prepare(s, org, data, policy, now);
            prepared.Ready? ==> ListedInOrder(prepared.screens, data.screens)
  {
    hide FreezePlaylist, CountOpen, FindMedia, AssetsOf, ScreensExist, FindPlaylist;
  }
}
