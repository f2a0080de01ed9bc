/** No organization ever has more than 100 open candidates, or 1000 unpublished ones. */
module Backlog {
  import opened Common
  import opened Canonical
  import opened Releases
  import opened ReleaseInvariants
  import opened ReleaseRuns
  import Identity

  ghost predicate Bounded(cs: seq<Candidate>, now: int) {
    forall org :: CountOpen(cs, org, Some(now)) <= MAX_PENDING && CountOpen(cs, org, None) <= MAX_UNPUBLISHED
  }

  lemma {:induction false} CountOfSplit(cs: seq<Candidate>, ds: seq<Candidate>, org: Id, after: Option<int>)
    ensures CountOpen(cs + ds, org, after) == CountOpen(cs, org, after) + CountOpen(ds, org, after)
  {
    if ds == [] {
      assert cs + ds == cs;
    } else {
      CountOfSplit(cs, ds[..|ds| - 1], org, after);
      assert (cs + ds)[..|cs + ds| - 1] == cs + ds[..|ds| - 1];
    }
  }

  lemma {:induction false} CountOfOne(c: Candidate, org: Id, after: Option<int>)
    ensures CountOpen([c], org, after) == if Counts(c, org, after) then 1 else 0
  {
    assert [c][..0] == [];
  }

  lemma {:induction false} CountKept(cs: seq<Candidate>, gone: set<Id>, org: Id, after: Option<int>)
    ensures CountOpen(KeepCandidates(cs, gone), org, after) <= CountOpen(cs, org, after)
  {
    if cs != [] {
      CountKept(cs[1..], gone, org, after);
      assert cs == [cs[0]] + cs[1..];
      CountOfSplit([cs[0]], cs[1..], org, after);
      CountOfSplit(if cs[0].id in gone then [] else [cs[0]], KeepCandidates(cs[1..], gone), org, after);
    }
  }

  lemma {:induction false} CountReplaced(cs: seq<Candidate>, k: nat, d: Candidate, org: Id, after: Option<int>)
    requires k < |cs| && (Counts(d, org, after) ==> Counts(cs[k], org, after))
    ensures CountOpen(cs[k := d], org, after) <= CountOpen(cs, org, after)
  {
    var front, back := cs[..k], cs[k + 1..];
    assert cs == front + [cs[k]] + back && cs[k := d] == front + [d] + back;
    forall c ensures CountOpen(front + [c] + back, org, after)
                     == CountOpen(front, org, after) + (if Counts(c, org, after) then 1 else 0)
                        + CountOpen(back, org, after)
    {
      CountOfSplit(front + [c], back, org, after);
      CountOfSplit(front, [c], org, after);
      CountOfOne(c, org, after);
    }
  }

  lemma {:induction false} CountLater(cs: seq<Candidate>, org: Id, now: int, later: int)
    requires now <= later
    ensures CountOpen(cs, org, Some(later)) <= CountOpen(cs, org, Some(now))
  {
    if cs != [] {
      CountLater(cs[..|cs| - 1], org, now, later);
    }
  }

  lemma {:induction false} StepKeepsCount(s: Store, e: Event, org: Id)
    requires Inv(s, e.at) && Bounded(s.candidates, e.at)
    ensures var cs := Step(s, e).candidates;
            CountOpen(cs, org, Some(e.at)) <= MAX_PENDING && CountOpen(cs, org, None) <= MAX_UNPUBLISHED
  {
    hide Compact, Remember, Replay, Capable, PublicationRefusal, TransitionRefusal, FindCandidate, Created, CountOpen,
         ReleaseFor, FindByDigest, CandidatesSound, RecordsSound, AssignmentsSound, SchedulesSound;
    match e.request
    case CreateCandidate(o, who, data, policy) =>
      CreateKeepsCount(s, o, data, who, policy, e.at, org, Some(e.at), MAX_PENDING);
      CreateKeepsCount(s, o, data, who, policy, e.at, org, None, MAX_UNPUBLISHED);
    case SubmitCandidate(o, who, id, expected) => AdvanceKeepsCount(s, o, Submit, id, expected, who, e.at, org);
    case ApproveCandidate(o, who, id, expected) => AdvanceKeepsCount(s, o, Approve, id, expected, who, e.at, org);
    case PublishCandidate(o, who, id, expected, policy) =>
      var k := FindCandidate(s.candidates, o, id);
      if k.Some? {
        var d := PublishedForm(s, s.candidates[k.value], e.at);
        CountReplaced(s.candidates, k.value, d, org, Some(e.at));
        CountReplaced(s.candidates, k.value, d, org, None);
      }
    case WithdrawSchedule(_, _, _) =>
    case MutateUser(_, _) =>
    case EditCatalog(_, _, _) =>
  }

  lemma {:induction false} AdvanceKeepsCount(
      s: Store, o: Id, op: Operation, id: Id, expected: Digest, who: Caller, now: int, org: Id)
    requires (op.Submit? || op.Approve?) && Bounded(s.candidates, now)
    ensures var cs := Transitioned(s, o, op, id, expected, who, now).0.candidates;
            CountOpen(cs, org, Some(now)) <= MAX_PENDING && CountOpen(cs, org, None) <= MAX_UNPUBLISHED
  {
    hide Compact, Remember, Replay, FindCandidate, CountOpen, ValidCandidateDigest;
    var k := FindCandidate(s.candidates, o, id);
    var actor := Identity.FindActive(s.users, who.actor, o);
    if k.Some? && actor.Some? && TransitionRefusal(s.candidates[k.value], op, expected, who.actor, now).None? {
      var d := Advanced(s, s.candidates[k.value], op, actor.value, now).0;
      CountReplaced(s.candidates, k.value, d, org, Some(now));
      CountReplaced(s.candidates, k.value, d, org, None);
    }
  }

  lemma {:induction false} CreateKeepsCount(s: Store, o: Id, data: CandidateInput, who: Caller, policy: Policy,
      now: int, org: Id, after: Option<int>, bound: nat)
    requires (after == Some(now) && bound == MAX_PENDING) || (after == None && bound == MAX_UNPUBLISHED)
    requires CountOpen(s.candidates, org, after) <= bound
    ensures CountOpen(Created(s, o, data, who, policy, now).0.candidates, org, after) <= bound
  {
    hide Compact, Remember, Replay, Capable, CountOpen, Garbage, KeepReleases, ReleasesOf, KeepCandidates, NewCandidate;
    var gone := Garbage(s.candidates, o, now);
    CountKept(s.candidates, gone, org, after);
    var t := Collected(s, o, now);
    var p := Prepare(t, o, data, policy, now);
    if p.Ready? {
      var c := Commit(t, o, data, who, p.snapshot, p.screens, now).1;
      CommitAdds(t, o, data, who, p.snapshot, p.screens, now);
      CountOfSplit(t.candidates, [c], org, after);
      CountOfOne(c, org, after);
    }
  }

  lemma {:induction false} CommitAdds(
      s: Store, org: Id, data: CandidateInput, who: Caller, snapshot: ReleaseSnapshot, screens: seq<int>, now: int)
    ensures var (t, c) := Commit(s, org, data, who, snapshot, screens, now);
            t.candidates == s.candidates + [c] && c.org == org
  {
    hide Compact, Remember, ReleaseFor, FindByDigest, CanonicalCandidate;
  }

  /** In every state of every run from an empty store, the backlog of every organization is within its bounds. */
  lemma {:induction false} BacklogStaysBounded(s: Store, from: int, es: seq<Event>, i: nat)
    requires Fresh(s) && Clocked(from, es) && i <= |es|
    ensures Bounded(StateAt(s, es, i).candidates, ClockAt(from, es, i))
  {
    hide Step, Inv;
    FreshIsSound(s, from);
    if i > 0 {
      BacklogStaysBounded(s, from, es, i - 1);
      var t, e := StateAt(s, es, i - 1), es[i - 1];
      ReachableIsSound(s, from, es, i - 1);
      forall org ensures CountOpen(t.candidates, org, Some(e.at)) <= MAX_PENDING {
        CountLater(t.candidates, org, ClockAt(from, es, i - 1), e.at);
      }
      forall org ensures CountOpen(Step(t, e).candidates, org, Some(e.at)) <= MAX_PENDING
                         && CountOpen(Step(t, e).candidates, org, None) <= MAX_UNPUBLISHED
      {
        StepKeepsCount(t, e, org);
      }
    }
  }
}
