/** The two readers of what is on air agree, and neither shows a withdrawn schedule again. */
module ReleaseDelivery {
  import opened Common
  import opened Canonical
  import opened Releases
  import opened ReleaseInvariants
  import opened ReleaseRuns
  import opened ReleaseDecisions

  // ------------------------------------------------------------------ agreement

  /** A schedule plays exactly its last assignment, if that is on air and stored with a valid digest. */
  lemma {:induction false} PlaysExactly(
      s: Store, schedule: ScheduleRecord, org: Id, screen: int, at: int, open: OpenWindow, r: Release, a: Assignment)
    ensures Plays(s, schedule, org, screen, at, open) == Some((r, a)) <==>
              && schedule.org == org && a.org == org && Latest(s.assignments, schedule.id) == Some(a)
              && OnAir(a, screen, at, open) && FindRelease(s.releases, org, a.release) == Some(r)
              && ValidAssignmentDigest(a, r)
  {
    hide OnAir, ValidAssignmentDigest, Latest;
  }

  ghost predicate PlaysAmong(s: Store, schedules: seq<ScheduleRecord>, org: Id, screen: int, at: int, open: OpenWindow,
      pair: (Release, Assignment))
  {
    exists x :: x in schedules && Plays(s, x, org, screen, at, open) == Some(pair)
  }

  lemma {:induction false} ActiveReleasesAre(s: Store, schedules: seq<ScheduleRecord>, org: Id, screen: int, at: int,
      open: OpenWindow, pair: (Release, Assignment))
    ensures pair in ActiveReleases(s, schedules, org, screen, at, open) <==>
              PlaysAmong(s, schedules, org, screen, at, open, pair)
  {
    hide Plays;
    if schedules != [] {
      ActiveReleasesAre(s, schedules[1..], org, screen, at, open, pair);
      assert schedules == [schedules[0]] + schedules[1..];
    }
  }

  predicate HasDeliverable(r: Release, d: Delivery, at: int) {
    exists k :: 0 <= k < |r.content.items| && Delivers(r.content.items[k], d, at)
  }

  /** The screen plays the delivery's assignment, under its digest, with an item that matches the delivery. */
  ghost predicate Playing(s: Store, d: Delivery, at: int, open: OpenWindow) {
    exists r, a ::
      && (r, a) in ActiveReleases(s, s.schedules, d.org, d.screen, at, open)
      && a.id == d.assignment && a.digest == d.assignmentDigest && HasDeliverable(r, d, at)
  }

  lemma {:induction false} AssignmentsAreDistinct(s: Store, now: int, a: Assignment, b: Assignment)
    requires Inv(s, now) && a in s.assignments && b in s.assignments && a.id == b.id
    ensures a == b
  {
    var i :| 0 <= i < |s.assignments| && s.assignments[i] == a;
    var j :| 0 <= j < |s.assignments| && s.assignments[j] == b;
  }

  /** The assignment and release that an active schedule shows, seen from the assignment. */
  lemma {:induction false} ActiveMeansPlaying(
      s: Store, now: int, org: Id, screen: int, at: int, open: OpenWindow, r: Release, a: Assignment)
    requires Inv(s, now)
    ensures (r, a) in ActiveReleases(s, s.schedules, org, screen, at, open) <==>
            && a in s.assignments && a.org == org && Latest(s.assignments, a.scheduleId) == Some(a)
            && OnAir(a, screen, at, open) && FindRelease(s.releases, org, a.release) == Some(r)
               && ValidAssignmentDigest(a, r)
  {
    hide OnAir, ValidAssignmentDigest, CandidatesSound, RecordsSound, HistoryShape, ReleasesSound;
    ActiveReleasesAre(s, s.schedules, org, screen, at, open, (r, a));
    if a in s.assignments {
      assert AssignmentSound(a, s.schedules, s.releases, s.nextId);
      var x :| x in s.schedules && x.id == a.scheduleId && x.org == a.org;
      if a.org == org && Latest(s.assignments, a.scheduleId) == Some(a) && OnAir(a, screen, at, open)
         && FindRelease(s.releases, org, a.release) == Some(r) && ValidAssignmentDigest(a, r)
      {
        assert Plays(s, x, org, screen, at, open) == Some((r, a));
      }
    }
  }

  /**
   In every sound store a media request is authorized exactly when the screen is playing the named
   assignment under the named digest with a matching item that has not expired.
   */
  lemma {:induction false} DeliveryAgreesWithPlayback(s: Store, now: int, d: Delivery, at: int, open: OpenWindow)
    requires Inv(s, now)
    ensures MediaAuthorized(s, d, at, open) <==> 1 <= d.sizeBytes <= MAX_SAFE_INTEGER && Playing(s, d, at, open)
  {
    hide OnAir, ValidAssignmentDigest, Inv, ActiveReleases, Delivers, History;
    var found := FindAssignment(s.assignments, d.org, d.assignment);
    if MediaAuthorized(s, d, at, open) {
      var a, r := found.value, FindRelease(s.releases, d.org, found.value.release).value;
      AssignmentsAreDistinct(s, now, a, Latest(s.assignments, a.scheduleId).value);
      ActiveMeansPlaying(s, now, d.org, d.screen, at, open, r, a);
      assert HasDeliverable(r, d, at);
    }
    if 1 <= d.sizeBytes <= MAX_SAFE_INTEGER && Playing(s, d, at, open) {
      var r, a :| (r, a) in ActiveReleases(s, s.schedules, d.org, d.screen, at, open)
                  && a.id == d.assignment && a.digest == d.assignmentDigest && HasDeliverable(r, d, at);
      ActiveMeansPlaying(s, now, d.org, d.screen, at, open, r, a);
      AssignmentsAreDistinct(s, now, a, found.value);
    }
  }

  // ------------------------------------------------------------------ what is shown, in terms of the stored fields

  /**
   The assignment is the last of its schedule, is not a withdrawal, names the screen, and its schedule
   is enabled, has begun, has not ended and is open; the release is the stored one it assigns.
   */
  ghost predicate Shows(s: Store, org: Id, screen: int, at: int, open: OpenWindow, r: Release, a: Assignment) {
    && LastFor(s.assignments, a.scheduleId, a) && a.org == org && a.state == Assigned && screen in a.screens
    && a.schedule.enabled && a.schedule.startsAt <= at && (a.schedule.endsAt.Some? ==> at < a.schedule.endsAt.value)
    && open(a.schedule, at)
    && r in s.releases && r.org == org && r.id == a.release
  }

  /** In a sound store exactly what is shown is active: no digest check ever fails. */
  lemma {:induction false} ActiveExactly(
      s: Store, now: int, org: Id, screen: int, at: int, open: OpenWindow, r: Release, a: Assignment)
    requires Inv(s, now)
    ensures (r, a) in ActiveReleases(s, s.schedules, org, screen, at, open) <==> Shows(s, org, screen, at, open, r, a)
  {
    hide ActiveReleases, ValidAssignmentDigest, CandidatesSound, RecordsSound, SchedulesSound, Latest, LastFor;
    ActiveMeansPlaying(s, now, org, screen, at, open, r, a);
    LatestIsLastFor(s.assignments, a.scheduleId, a);
    if a in s.assignments {
      assert AssignmentSound(a, s.schedules, s.releases, s.nextId);
      var x :| x in s.releases && x.org == a.org && x.id == a.release && ValidAssignmentDigest(a, x);
      FindReleaseFinds(s.releases, s.nextId, x);
    } else {
      NotTheLast(s.assignments, a.scheduleId, a);
    }
  }

  lemma {:induction false} NotTheLast(as_: seq<Assignment>, schedule: Id, a: Assignment)
    requires a !in as_
    ensures !LastFor(as_, schedule, a)
  {
  }

  /** The item is the asset asked for, under its key, checksum and size, and has not expired. */
  ghost predicate Holds(r: Release, d: Delivery, at: int) {
    exists item ::
      && item in r.content.items
      && item.asset.id == d.asset && item.asset.storageKey == Some(d.storageKey)
      && item.asset.checksum == d.checksum && item.asset.sizeBytes == d.sizeBytes
      && (item.asset.expiresAt.Some? ==> at < item.asset.expiresAt.value)
  }

  /** A request is authorized exactly for a positive safe size of what the screen is shown. */
  lemma {:induction false} AuthorizedExactly(s: Store, now: int, d: Delivery, at: int, open: OpenWindow)
    requires Inv(s, now)
    ensures MediaAuthorized(s, d, at, open) <==>
              && 1 <= d.sizeBytes <= 9_007_199_254_740_991
              && exists r, a ::
                   && Shows(s, d.org, d.screen, at, open, r, a)
                   && a.id == d.assignment && a.digest == d.assignmentDigest && Holds(r, d, at)
  {
    hide MediaAuthorized, ActiveReleases, Inv, Shows, HasDeliverable, Holds;
    DeliveryAgreesWithPlayback(s, now, d, at, open);
    forall r, a
      ensures (r, a) in ActiveReleases(s, s.schedules, d.org, d.screen, at, open) <==>
                Shows(s, d.org, d.screen, at, open, r, a)
      ensures HasDeliverable(r, d, at) <==> Holds(r, d, at)
    {
      ActiveExactly(s, now, d.org, d.screen, at, open, r, a);
      DeliverableIsHeld(r, d, at);
    }
    if exists r, a ::
      && Shows(s, d.org, d.screen, at, open, r, a)
      && a.id == d.assignment && a.digest == d.assignmentDigest && Holds(r, d, at)
    {
      var r, a :|
        && Shows(s, d.org, d.screen, at, open, r, a)
        && a.id == d.assignment && a.digest == d.assignmentDigest && Holds(r, d, at);
      assert (r, a) in ActiveReleases(s, s.schedules, d.org, d.screen, at, open);
    }
  }

  lemma {:induction false} DeliverableIsHeld(r: Release, d: Delivery, at: int)
    ensures HasDeliverable(r, d, at) <==> Holds(r, d, at)
  {
    var items := r.content.items;
    if HasDeliverable(r, d, at) {
      var k :| 0 <= k < |items| && Delivers(items[k], d, at);
      assert items[k] in items;
    }
    if Holds(r, d, at) {
      var item :| item in items && Delivers(item, d, at);
      var k :| 0 <= k < |items| && items[k] == item;
      assert Delivers(items[k], d, at);
    }
  }

  // ------------------------------------------------------------------ withdrawn for good

  ghost predicate IsWithdrawn(s: Store, schedule: Id) {
    Latest(s.assignments, schedule).Some? && Latest(s.assignments, schedule).value.state.Withdrawn?
  }

  lemma {:induction false} LatestOfLonger(as_: seq<Assignment>, a: Assignment, schedule: Id)
    ensures Latest(as_ + [a], schedule) == if a.scheduleId == schedule then Some(a) else Latest(as_, schedule)
  {
    assert (as_ + [a])[..|as_|] == as_;
  }

  /** What an event does to the assignments. */
  lemma {:induction false} StepAssignments(s: Store, e: Event) returns (a: Option<Assignment>)
    ensures Step(s, e).assignments == if a.Some? then s.assignments + [a.value] else s.assignments
    ensures a.Some? ==>
              || (e.request.PublishCandidate? && a.value.scheduleId == s.nextId)
              || (e.request.WithdrawSchedule? && a.value.scheduleId == e.request.schedule
                  && Withdraw(s, e.request.org, e.request.schedule, e.request.actor, e.at) == WithdrawnAs(a.value))
  {
    hide Compact, Remember, Replay, Capable, Prepare, PublicationRefusal, TransitionRefusal, Advanced, FindCandidate,
         PublishedForm, NewCandidate, ReleaseFor, FindByDigest, Latest, FindSchedule, FindRelease;
    var t := Step(s, e);
    a := if |t.assignments| > |s.assignments| then Some(t.assignments[|t.assignments| - 1]) else None;
  }

  lemma {:induction false} StepKeepsWithdrawn(s: Store, e: Event, schedule: Id)
    requires Inv(s, e.at) && IsWithdrawn(s, schedule)
    ensures IsWithdrawn(Step(s, e), schedule)
  {
    hide Step, CandidatesSound, RecordsSound, SchedulesSound, ReleasesSound, Capable;
    var latest := Latest(s.assignments, schedule).value;
    assert AssignmentSound(latest, s.schedules, s.releases, s.nextId);
    var a := StepAssignments(s, e);
    if a.Some? {
      LatestOfLonger(s.assignments, a.value, schedule);
    }
  }

  lemma {:induction false} WithdrawnStaysWithdrawn(s: Store, from: int, es: seq<Event>, i: nat, j: nat, schedule: Id)
    requires Inv(s, from) && Clocked(from, es) && i <= j <= |es| && IsWithdrawn(StateAt(s, es, i), schedule)
    ensures IsWithdrawn(StateAt(s, es, j), schedule)
    decreases j
  {
    hide Inv, Step, IsWithdrawn;
    if i < j {
      WithdrawnStaysWithdrawn(s, from, es, i, j - 1, schedule);
      ReachableIsSound(s, from, es, j - 1);
      StepKeepsWithdrawn(StateAt(s, es, j - 1), es[j - 1], schedule);
    }
  }

  lemma {:induction false} WithdrawalWithdraws(s: Store, e: Event)
    requires e.request.WithdrawSchedule?
    requires Withdraw(s, e.request.org, e.request.schedule, e.request.actor, e.at).WithdrawnAs?
    ensures IsWithdrawn(Step(s, e), e.request.schedule)
  {
    hide Capable;
    var a := Withdraw(s, e.request.org, e.request.schedule, e.request.actor, e.at).assignment;
    LatestOfLonger(s.assignments, a, e.request.schedule);
  }

  /**
   Once a withdrawal has succeeded, neither reader yields the schedule's assignments at any later point
   of any run.
   */
  lemma {:induction false} WithdrawnForGood(
      s: Store, from: int, es: seq<Event>, i: nat, j: nat, org: Id, screen: int, d: Delivery, at: int, open: OpenWindow)
    requires Inv(s, from) && Clocked(from, es) && i < j <= |es|
    requires var r := es[i].request;
             r.WithdrawSchedule? && Withdraw(StateAt(s, es, i), r.org, r.schedule, r.actor, es[i].at).WithdrawnAs?
    ensures var t, schedule := StateAt(s, es, j), es[i].request.schedule;
            && (forall r, a | (r, a) in ActiveReleases(t, t.schedules, org, screen, at, open) ::
                  a.scheduleId != schedule)
            && (MediaAuthorized(t, d, at, open) ==>
                  FindAssignment(t.assignments, d.org, d.assignment).value.scheduleId != schedule)
  {
    hide Inv, Step, Withdraw, ActiveReleases, ValidAssignmentDigest, FindAssignment, FindRelease;
    var t, schedule := StateAt(s, es, j), es[i].request.schedule;
    WithdrawalWithdraws(StateAt(s, es, i), es[i]);
    assert StateAt(s, es, i + 1) == Step(StateAt(s, es, i), es[i]);
    WithdrawnStaysWithdrawn(s, from, es, i + 1, j, schedule);
    ReachableIsSound(s, from, es, j);
    forall r, a | (r, a) in ActiveReleases(t, t.schedules, org, screen, at, open) ensures a.scheduleId != schedule {
      ActiveMeansPlaying(t, ClockAt(from, es, j), org, screen, at, open, r, a);
    }
    if MediaAuthorized(t, d, at, open) {
      var a := FindAssignment(t.assignments, d.org, d.assignment).value;
      AssignmentsAreDistinct(t, ClockAt(from, es, j), a, Latest(t.assignments, a.scheduleId).value);
    }
  }

  /** The history of every schedule: assigned, and at most once withdrawn. */
  lemma {:induction false} HistoriesKeepTheirShape(
      s: Store, from: int, es: seq<Event>, i: nat, schedule: ScheduleRecord)
    requires Fresh(s) && Clocked(from, es) && i <= |es| && schedule in StateAt(s, es, i).schedules
    ensures HistoryShape(History(StateAt(s, es, i).assignments, schedule.id))
  {
    hide HistoryShape, StateAt;
    FreshIsSound(s, from);
    ReachableIsSound(s, from, es, i);
  }
}
